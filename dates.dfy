/**
 * Naive date-times at second precision, as Python's `datetime` holds the
 * timestamps of log entries: the `strptime` parser for the fixed log format
 * `%d/%b/%Y:%H:%M:%S`, the proleptic Gregorian calendar behind `toordinal`,
 * the ordering of date-times, and the `strftime` renderings the analysis uses.
 */
module Dates {
  import opened Wrappers
  import opened PyStrings

  datatype DateTime = DateTime(year: int, month: int, day: int, hour: int, minute: int, second: int)
  {
    /** The range checks of the `datetime` constructor (MINYEAR 1, MAXYEAR 9999). */
    predicate Valid()
    {
      && 1 <= year <= 9999
      && 1 <= month <= 12
      && 1 <= day <= DaysInMonth(year, month)
      && 0 <= hour <= 23
      && 0 <= minute <= 59
      && 0 <= second <= 59
    }
  }

  // ---------------------------------------------------------------- calendar

  predicate IsLeap(year: int)
  {
    year % 4 == 0 && (year % 100 != 0 || year % 400 == 0)
  }

  const DaysInMonthTable: seq<int> := [-1, 31, 28, 31, 30, 31, 30, 31, 31, 30, 31, 30, 31]
  const DaysBeforeMonthTable: seq<int> := [-1, 0, 31, 59, 90, 120, 151, 181, 212, 243, 273, 304, 334]

  function DaysInMonth(year: int, month: int): int
  {
    if month == 2 && IsLeap(year) then 29
    else if 1 <= month <= 12 then DaysInMonthTable[month]
    else 0
  }

  function DaysInYear(year: int): int
  {
    if IsLeap(year) then 366 else 365
  }

  /** Days in the years before `year`, counting from year 1. */
  function DaysBeforeYear(year: int): int
    requires year >= 1
  {
    var y := year - 1;
    y * 365 + y / 4 - y / 100 + y / 400
  }

  /** Days in the months of `year` before `month`. */
  function DaysBeforeMonth(year: int, month: int): int
    requires 1 <= month <= 12
  {
    DaysBeforeMonthTable[month] + (if month > 2 && IsLeap(year) then 1 else 0)
  }

  /** `date.toordinal()`: 1 January of year 1 is day 1. */
  function Ordinal(d: DateTime): int
    requires d.Valid()
  {
    DaysBeforeYear(d.year) + DaysBeforeMonth(d.year, d.month) + d.day
  }

  const SecondsPerDay := 86400

  /** The date-time as a count of seconds, on the same time line as `timedelta` arithmetic. */
  function Instant(d: DateTime): int
    requires d.Valid()
  {
    Ordinal(d) * SecondsPerDay + d.hour * 3600 + d.minute * 60 + d.second
  }

  /** Python's `a > b` on naive date-times: field by field, most significant first. */
  predicate Later(a: DateTime, b: DateTime)
  {
    if a.year != b.year then a.year > b.year
    else if a.month != b.month then a.month > b.month
    else if a.day != b.day then a.day > b.day
    else if a.hour != b.hour then a.hour > b.hour
    else if a.minute != b.minute then a.minute > b.minute
    else a.second > b.second
  }

  lemma DaysBeforeYearStep(year: int)
    requires year >= 1
    ensures DaysBeforeYear(year + 1) == DaysBeforeYear(year) + DaysInYear(year)
  {
    DivStep(year, 4);
    DivStep(year, 100);
    DivStep(year, 400);
    CenturyDivisibility(year);
  }

  /** A multiple of 400 is a multiple of 100, and a multiple of 100 a multiple of 4. */
  lemma CenturyDivisibility(year: int)
    ensures year % 400 == 0 ==> year % 100 == 0
    ensures year % 100 == 0 ==> year % 4 == 0
  {
    if year % 400 == 0 {
      DivUnique(year, 100, 4 * (year / 400), 0);
    }
    if year % 100 == 0 {
      DivUnique(year, 4, 25 * (year / 100), 0);
    }
  }

  /** Counting multiples of `n`: one more up to `x` than up to `x - 1` exactly when `n` divides `x`. */
  lemma DivStep(x: int, n: int)
    requires x >= 1 && n > 0
    ensures x / n == (x - 1) / n + (if x % n == 0 then 1 else 0)
  {
    var q, r := (x - 1) / n, (x - 1) % n;
    if r == n - 1 {
      DivUnique(x, n, q + 1, 0);
    } else {
      DivUnique(x, n, q, r + 1);
    }
  }

  /** Quotient and remainder are the only pair that rebuilds `x`. */
  lemma DivUnique(x: int, n: int, q: int, r: int)
    requires n > 0 && 0 <= r < n && x == q * n + r
    ensures x / n == q && x % n == r
  {
    var q', r' := x / n, x % n;
    assert x == q' * n + r' && 0 <= r' < n;
    assert (q - q') * n == q * n - q' * n;
    if q > q' {
      MulAtLeast(q - q', n);
    } else if q < q' {
      MulAtLeast(q' - q, n);
    }
  }

  lemma {:induction false} MulAtLeast(a: int, n: int)
    requires a >= 1 && n > 0
    decreases a
    ensures a * n >= n
  {
    if a > 1 {
      MulAtLeast(a - 1, n);
      assert a * n == (a - 1) * n + n;
    }
  }


  lemma {:induction false} DaysBeforeYearGrows(y1: int, y2: int)
    requires 1 <= y1 < y2
    decreases y2 - y1
    ensures DaysBeforeYear(y1) + DaysInYear(y1) <= DaysBeforeYear(y2)
  {
    DaysBeforeYearStep(y1);
    if y1 + 1 < y2 {
      DaysBeforeYearGrows(y1 + 1, y2);
    }
  }

  lemma DaysBeforeMonthStep(year: int, month: int)
    requires 1 <= month <= 12
    ensures month < 12 ==> DaysBeforeMonth(year, month) + DaysInMonth(year, month) == DaysBeforeMonth(year, month + 1)
    ensures DaysBeforeMonth(year, month) + DaysInMonth(year, month) <= DaysInYear(year)
  {
  }

  lemma {:induction false} DaysBeforeMonthGrows(year: int, m1: int, m2: int)
    requires 1 <= m1 < m2 <= 12
    decreases m2 - m1
    ensures DaysBeforeMonth(year, m1) + DaysInMonth(year, m1) <= DaysBeforeMonth(year, m2)
  {
    DaysBeforeMonthStep(year, m1);
    if m1 + 1 < m2 {
      DaysBeforeMonthGrows(year, m1 + 1, m2);
      DaysBeforeMonthStep(year, m1 + 1);
    }
  }

  /** A later calendar day has a larger ordinal. */
  lemma OrdinalGrows(a: DateTime, b: DateTime)
    requires a.Valid() && b.Valid()
    requires a.year < b.year || (a.year == b.year && (a.month < b.month || (a.month == b.month && a.day < b.day)))
    ensures Ordinal(a) < Ordinal(b)
  {
    DaysBeforeMonthStep(a.year, a.month);
    if a.year < b.year {
      DaysBeforeYearGrows(a.year, b.year);
    } else if a.month < b.month {
      DaysBeforeMonthGrows(a.year, a.month, b.month);
    }
  }

  /** Comparing date-times field by field agrees with comparing their instants. */
  lemma LaterIsInstantOrder(a: DateTime, b: DateTime)
    requires a.Valid() && b.Valid()
    ensures Later(a, b) <==> Instant(a) > Instant(b)
  {
    var sa := a.hour * 3600 + a.minute * 60 + a.second;
    var sb := b.hour * 3600 + b.minute * 60 + b.second;
    assert 0 <= sa < SecondsPerDay && 0 <= sb < SecondsPerDay;
    if a.year == b.year && a.month == b.month && a.day == b.day {
      assert Ordinal(a) == Ordinal(b);
    } else if Later(a, b) {
      OrdinalGrows(b, a);
    } else {
      OrdinalGrows(a, b);
    }
  }

  // ------------------------------------------------------------- digits

  predicate IsDigit(c: char)
  {
    '0' <= c <= '9'
  }

  predicate AllDigits(s: string)
  {
    forall k :: 0 <= k < |s| ==> IsDigit(s[k])
  }

  function DigitValue(c: char): int
    requires IsDigit(c)
  {
    c as int - '0' as int
  }

  /** Python's `int(s)` on a string of ASCII digits. */
  function DigitsValue(s: string): (n: int)
    requires AllDigits(s)
    ensures 0 <= n
  {
    if s == [] then 0 else DigitsValue(s[..|s| - 1]) * 10 + DigitValue(s[|s| - 1])
  }

  function DigitChar(k: int): (c: char)
    requires 0 <= k <= 9
    ensures IsDigit(c) && DigitValue(c) == k
  {
    ('0' as int + k) as char
  }

  /** Zero-padded two-digit rendering, as `%d`, `%m`, `%H`, `%M`, `%S` print. */
  function Pad2(n: int): (s: string)
    requires 0 <= n <= 99
    ensures |s| == 2 && AllDigits(s) && DigitsValue(s) == n
  {
    var s := [DigitChar(n / 10), DigitChar(n % 10)];
    assert s[..1] == [s[0]] && [s[0]][..0] == [];
    assert DigitsValue(s[..1]) == n / 10;
    s
  }

  /** Zero-padded four-digit rendering, as `%Y` prints years 1000..9999. */
  function Pad4(n: int): (s: string)
    requires 0 <= n <= 9999
    ensures |s| == 4 && AllDigits(s) && DigitsValue(s) == n
  {
    var s := Pad2(n / 100) + Pad2(n % 100);
    assert s[..3] == Pad2(n / 100) + [s[2]];
    assert s[..2] == Pad2(n / 100);
    assert s[..2][..1] == s[..1];
    s
  }

  // ------------------------------------------------------------- months

  const MonthAbbreviations: seq<string> :=
    ["Jan", "Feb", "Mar", "Apr", "May", "Jun", "Jul", "Aug", "Sep", "Oct", "Nov", "Dec"]

  /** The English abbreviation that `%b` reads and prints for a month. */
  function MonthAbbr(month: int): (s: string)
    requires 1 <= month <= 12
    ensures |s| == 3
  {
    MonthAbbreviations[month - 1]
  }

  function LowerChar(c: char): char
  {
    if 'A' <= c <= 'Z' then (c as int + 32) as char else c
  }

  function Lower(s: string): (r: string)
    ensures |r| == |s|
  {
    seq(|s|, k requires 0 <= k < |s| => LowerChar(s[k]))
  }

  /** Case-insensitive equality, as the `strptime` pattern is matched with IGNORECASE. */
  predicate SameIgnoringCase(a: string, b: string)
  {
    Lower(a) == Lower(b)
  }

  /** The month whose abbreviation `p` is (ignoring case), searching from `month` on. */
  function MonthFrom(p: string, month: int): (r: Option<int>)
    requires 1 <= month <= 13
    decreases 13 - month
    ensures r.Some? ==> month <= r.value <= 12 && SameIgnoringCase(p, MonthAbbr(r.value))
    ensures r.None? ==> forall m :: month <= m <= 12 ==> !SameIgnoringCase(p, MonthAbbr(m))
  {
    if month == 13 then None
    else if SameIgnoringCase(p, MonthAbbr(month)) then Some(month)
    else MonthFrom(p, month + 1)
  }

  /** `%b`: the month number of an English month abbreviation in any case. */
  function MonthNumber(p: string): (r: Option<int>)
    ensures r.Some? ==> 1 <= r.value <= 12 && SameIgnoringCase(p, MonthAbbr(r.value))
    ensures r.None? <==> forall m :: 1 <= m <= 12 ==> !SameIgnoringCase(p, MonthAbbr(m))
  {
    MonthFrom(p, 1)
  }

  // ------------------------------------------------------- strptime fields

  /** `%d` matches `3[01]|[12]\d|0[1-9]|[1-9]| [1-9]`. */
  predicate DayField(p: string)
  {
    || (|p| == 2 && p[0] == '3' && (p[1] == '0' || p[1] == '1'))
    || (|p| == 2 && (p[0] == '1' || p[0] == '2') && IsDigit(p[1]))
    || (|p| == 2 && p[0] == '0' && '1' <= p[1] <= '9')
    || (|p| == 1 && '1' <= p[0] <= '9')
    || (|p| == 2 && p[0] == ' ' && '1' <= p[1] <= '9')
  }

  /** `int()` of a matched day, which skips the leading blank of ` [1-9]`. */
  function DayValue(p: string): (n: int)
    requires DayField(p)
    ensures 1 <= n <= 31
  {
    if p[0] == ' ' then DigitValue(p[1])
    else if |p| == 1 then DigitValue(p[0])
    else DigitValue(p[0]) * 10 + DigitValue(p[1])
  }

  /** `%Y` matches `\d\d\d\d`. */
  predicate YearField(p: string)
  {
    |p| == 4 && AllDigits(p)
  }

  /** `%H` matches `2[0-3]|[0-1]\d|\d`. */
  predicate HourField(p: string)
  {
    || (|p| == 2 && p[0] == '2' && '0' <= p[1] <= '3')
    || (|p| == 2 && (p[0] == '0' || p[0] == '1') && IsDigit(p[1]))
    || (|p| == 1 && IsDigit(p[0]))
  }

  /** `%M` matches `[0-5]\d|\d`. */
  predicate MinuteField(p: string)
  {
    || (|p| == 2 && '0' <= p[0] <= '5' && IsDigit(p[1]))
    || (|p| == 1 && IsDigit(p[0]))
  }

  /** `%S` matches `6[0-1]|[0-5]\d|\d`; 60 and 61 are refused later by `datetime`. */
  predicate SecondField(p: string)
  {
    || (|p| == 2 && p[0] == '6' && (p[1] == '0' || p[1] == '1'))
    || (|p| == 2 && '0' <= p[0] <= '5' && IsDigit(p[1]))
    || (|p| == 1 && IsDigit(p[0]))
  }

  /**
   * `datetime.strptime(text, "%d/%b/%Y:%H:%M:%S")`: every field must match its
   * pattern, nothing may follow the seconds, and the values must make a valid
   * `datetime`. Any mismatch is the `ValueError` case, here `None`.
   */
  function ParseDateTime(text: string): (r: Option<DateTime>)
    ensures r.Some? ==> r.value.Valid()
  {
    var parts := Split(text, "/");
    if |parts| != 3 then None
    else
      var clock := Split(parts[2], ":");
      if |clock| != 4 then None
      else if !(DayField(parts[0]) && YearField(clock[0]) && HourField(clock[1])
                && MinuteField(clock[2]) && SecondField(clock[3])) then None
      else match MonthNumber(parts[1])
        case None => None
        case Some(month) =>
          assert AllDigits(clock[1]) && AllDigits(clock[2]) && AllDigits(clock[3]);
          var d := DateTime(DigitsValue(clock[0]), month, DayValue(parts[0]),
                            DigitsValue(clock[1]), DigitsValue(clock[2]), DigitsValue(clock[3]));
          if d.Valid() then Some(d) else None
  }

  /** The text layout `%d/%b/%Y<sep>%H:%M:%S`, with `sep` ':' in log lines and ' ' in the report stamp. */
  function FormatDate(d: DateTime, sep: char): (s: string)
    requires d.Valid()
    ensures |s| == 20
  {
    Pad2(d.day) + "/" + MonthAbbr(d.month) + "/" + Pad4(d.year) + [sep]
      + Pad2(d.hour) + ":" + Pad2(d.minute) + ":" + Pad2(d.second)
  }

  /** The characters a rendered log timestamp is made of. */
  predicate StampChar(c: char)
  {
    IsDigit(c) || c == '/' || c == ':' || 'A' <= c <= 'Z' || 'a' <= c <= 'z'
  }

  /** A log timestamp holds only digits, month letters, `/` and `:`. */
  lemma FormatDateChars(d: DateTime)
    requires d.Valid()
    ensures forall k :: 0 <= k < |FormatDate(d, ':')| ==> StampChar(FormatDate(d, ':')[k])
  {
    var D, Mo, Y := Pad2(d.day), MonthAbbr(d.month), Pad4(d.year);
    var H, Mi, S := Pad2(d.hour), Pad2(d.minute), Pad2(d.second);
    assert forall k :: 0 <= k < 3 ==> 'A' <= Mo[k] <= 'Z' || 'a' <= Mo[k] <= 'z';
    var s := FormatDate(d, ':');
    assert s == D + "/" + Mo + "/" + Y + ":" + H + ":" + Mi + ":" + S;
    forall k | 0 <= k < |s|
      ensures StampChar(s[k])
    {
      if k < 2 { assert s[k] == D[k]; }
      else if 3 <= k < 6 { assert s[k] == Mo[k - 3]; }
      else if 7 <= k < 11 { assert s[k] == Y[k - 7]; }
      else if 12 <= k < 14 { assert s[k] == H[k - 12]; }
      else if 15 <= k < 17 { assert s[k] == Mi[k - 15]; }
      else if 18 <= k { assert s[k] == S[k - 18]; }
    }
  }

  /** `strftime("%Y-%m")`: the key of a date's calendar month. */
  function MonthKey(d: DateTime): (key: string)
    requires d.Valid()
    ensures |key| == 7 && key[4] == '-'
    ensures AllDigits(key[..4]) && DigitsValue(key[..4]) == d.year
    ensures AllDigits(key[5..]) && DigitsValue(key[5..]) == d.month
  {
    var key := Pad4(d.year) + "-" + Pad2(d.month);
    assert key[..4] == Pad4(d.year) && key[5..] == Pad2(d.month);
    key
  }

  /** Two date-times share a month key exactly when they fall in the same calendar month. */
  lemma MonthKeySameMonth(a: DateTime, b: DateTime)
    requires a.Valid() && b.Valid()
    ensures MonthKey(a) == MonthKey(b) <==> a.year == b.year && a.month == b.month
  {
    if MonthKey(a) == MonthKey(b) {
      assert MonthKey(a)[..4] == MonthKey(b)[..4] && MonthKey(a)[5..] == MonthKey(b)[5..];
    }
  }

  /** Python's string order on month keys is calendar order. */
  lemma MonthKeyOrder(a: DateTime, b: DateTime)
    requires a.Valid() && b.Valid()
    ensures LexLess(MonthKey(a), MonthKey(b)) <==> a.year < b.year || (a.year == b.year && a.month < b.month)
  {
    var ya, yb, ma, mb := Pad4(a.year), Pad4(b.year), Pad2(a.month), Pad2(b.month);
    assert MonthKey(a) == ya + ("-" + ma);
    assert MonthKey(b) == yb + ("-" + mb);
    LexLessConcat(ya, "-" + ma, yb, "-" + mb);
    LexLessConcat("-", ma, "-", mb);
    LexLessIrreflexive("-");
    Pad4Order(a.year, b.year);
    Pad2Order(a.month, b.month);
  }

  /** Two-digit renderings compare as strings in the order of their numbers. */
  lemma Pad2Order(x: int, y: int)
    requires 0 <= x <= 99 && 0 <= y <= 99
    ensures LexLess(Pad2(x), Pad2(y)) <==> x < y
  {
    var s, t := Pad2(x), Pad2(y);
    assert s == [DigitChar(x / 10)] + [DigitChar(x % 10)];
    assert t == [DigitChar(y / 10)] + [DigitChar(y % 10)];
    LexLessConcat([s[0]], [s[1]], [t[0]], [t[1]]);
    assert LexLess([s[0]], [t[0]]) <==> s[0] < t[0];
    assert LexLess([s[1]], [t[1]]) <==> s[1] < t[1];
  }

  /** Four-digit renderings compare as strings in the order of their numbers. */
  lemma Pad4Order(x: int, y: int)
    requires 0 <= x <= 9999 && 0 <= y <= 9999
    ensures LexLess(Pad4(x), Pad4(y)) <==> x < y
  {
    LexLessConcat(Pad2(x / 100), Pad2(x % 100), Pad2(y / 100), Pad2(y % 100));
    Pad2Order(x / 100, y / 100);
    Pad2Order(x % 100, y % 100);
  }

  // ------------------------------------------------------------- round trip

  lemma LowerCharSameCase(x: char, y: char)
    requires ('A' <= x <= 'Z') == ('A' <= y <= 'Z')
    requires LowerChar(x) == LowerChar(y)
    ensures x == y
  {
  }

  /** Every abbreviation is a capital letter followed by two lower-case letters. */
  lemma MonthAbbrShape(m: int)
    requires 1 <= m <= 12
    ensures 'A' <= MonthAbbr(m)[0] <= 'Z'
    ensures !('A' <= MonthAbbr(m)[1] <= 'Z') && !('A' <= MonthAbbr(m)[2] <= 'Z')
  {
  }

  /** No two months share an abbreviation. */
  lemma MonthAbbrInjective(m: int, k: int)
    requires 1 <= m <= 12 && 1 <= k <= 12 && MonthAbbr(m) == MonthAbbr(k)
    ensures m == k
  {
    var a := MonthAbbr(m);
    if a[0] == 'J' {
      assert m in {1, 6, 7} && k in {1, 6, 7};
    } else if a[0] == 'M' {
      assert m in {3, 5} && k in {3, 5};
    } else if a[0] == 'A' {
      assert m in {4, 8} && k in {4, 8};
    }
  }

  /** Distinct months have abbreviations that differ even ignoring case. */
  lemma MonthAbbrDistinct(m: int, k: int)
    requires 1 <= m <= 12 && 1 <= k <= 12
    requires SameIgnoringCase(MonthAbbr(m), MonthAbbr(k))
    ensures m == k
  {
    var a, b := MonthAbbr(m), MonthAbbr(k);
    MonthAbbrShape(m);
    MonthAbbrShape(k);
    forall i | 0 <= i < 3
      ensures a[i] == b[i]
    {
      assert Lower(a)[i] == Lower(b)[i];
      LowerCharSameCase(a[i], b[i]);
    }
    assert a == b;
    MonthAbbrInjective(m, k);
  }

  /** `%b` reads back the abbreviation it prints. */
  lemma MonthNumberOfAbbr(m: int)
    requires 1 <= m <= 12
    ensures MonthNumber(MonthAbbr(m)) == Some(m)
  {
    var r := MonthNumber(MonthAbbr(m));
    assert SameIgnoringCase(MonthAbbr(m), MonthAbbr(m));
    MonthAbbrDistinct(m, r.value);
  }

  /** The `%Y:%H:%M:%S` tail of a rendered log timestamp. */
  function ClockText(d: DateTime): string
    requires d.Valid()
  {
    Pad4(d.year) + ":" + Pad2(d.hour) + ":" + Pad2(d.minute) + ":" + Pad2(d.second)
  }

  lemma ClockTextPieces(d: DateTime)
    requires d.Valid()
    ensures Split(ClockText(d), ":") == [Pad4(d.year), Pad2(d.hour), Pad2(d.minute), Pad2(d.second)]
  {
    var Y, H, Mi, S := Pad4(d.year), Pad2(d.hour), Pad2(d.minute), Pad2(d.second);
    JoinFour(Y, H, Mi, S, ":");
    JoinSplitChar([Y, H, Mi, S], ':');
  }

  lemma JoinThree(a: string, b: string, c: string, sep: string)
    ensures Join([a, b, c], sep) == a + sep + b + sep + c
  {
    assert [a, b, c][1..] == [b, c] && [b, c][1..] == [c];
    assert Join([b, c], sep) == b + sep + c;
    assert a + sep + (b + sep + c) == a + sep + b + sep + c;
  }

  lemma JoinFour(a: string, b: string, c: string, e: string, sep: string)
    ensures Join([a, b, c, e], sep) == a + sep + b + sep + c + sep + e
  {
    assert [a, b, c, e][1..] == [b, c, e];
    JoinThree(b, c, e, sep);
    assert a + sep + (b + sep + c + sep + e) == a + sep + b + sep + c + sep + e;
  }

  lemma FormatDatePieces(d: DateTime)
    requires d.Valid()
    ensures Split(FormatDate(d, ':'), "/") == [Pad2(d.day), MonthAbbr(d.month), ClockText(d)]
  {
    var D, Mo, C := Pad2(d.day), MonthAbbr(d.month), ClockText(d);
    JoinThree(D, Mo, C, "/");
    assert FormatDate(d, ':') == D + "/" + Mo + "/" + C;
    assert '/' !in D && '/' !in Mo && '/' !in C;
    JoinSplitChar([D, Mo, C], '/');
  }

  /** Reading a rendered log timestamp with the log format gives back the same date-time. */
  lemma ParseFormattedDate(d: DateTime)
    requires d.Valid()
    ensures ParseDateTime(FormatDate(d, ':')) == Some(d)
  {
    FormatDatePieces(d);
    ClockTextPieces(d);
    MonthNumberOfAbbr(d.month);
    FormattedFieldsMatch(d);
  }

  /** The zero-padded fields of a valid date-time match the `strptime` field patterns. */
  lemma FormattedFieldsMatch(d: DateTime)
    requires d.Valid()
    ensures DayField(Pad2(d.day)) && DayValue(Pad2(d.day)) == d.day
    ensures YearField(Pad4(d.year))
    ensures HourField(Pad2(d.hour)) && MinuteField(Pad2(d.minute)) && SecondField(Pad2(d.second))
  {
  }
}
