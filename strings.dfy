/**
 * The few operations on Python `str` values that the log analysis relies on:
 * `str.split(sep)` with a non-empty separator, the substring test `sub in s`,
 * `str.endswith`, and the ordering `<` of strings used by `sorted`.
 * A Python string is modelled as a sequence of characters.
 */
module PyStrings {
  import opened Wrappers

  /** `sep` occurs in `s` starting at index `i`. */
  predicate OccursAt(s: string, sep: string, i: int)
  {
    0 <= i && i + |sep| <= |s| && s[i..i + |sep|] == sep
  }

  /** Python's `sub in s`. */
  predicate Contains(s: string, sub: string)
  {
    exists i :: 0 <= i <= |s| && OccursAt(s, sub, i)
  }

  /** Python's `s.endswith(suffix)`. */
  predicate EndsWith(s: string, suffix: string)
  {
    |suffix| <= |s| && s[|s| - |suffix|..] == suffix
  }

  /** The leftmost occurrence of `sep` in `s` at or after `from`, as `str.find` scans. */
  function FindFrom(s: string, sep: string, from: nat): (r: Option<nat>)
    decreases |s| - from
    ensures r.Some? ==> from <= r.value && OccursAt(s, sep, r.value)
    ensures r.Some? ==> forall j :: from <= j < r.value ==> !OccursAt(s, sep, j)
    ensures r.None? ==> forall j :: from <= j ==> !OccursAt(s, sep, j)
  {
    if from + |sep| > |s| then None
    else if s[from..from + |sep|] == sep then Some(from)
    else FindFrom(s, sep, from + 1)
  }

  /** Python's `s.find(sep)`, with "not found" as `None`. */
  function Find(s: string, sep: string): (r: Option<nat>)
    ensures r.Some? ==> OccursAt(s, sep, r.value) && forall j :: 0 <= j < r.value ==> !OccursAt(s, sep, j)
    ensures r.None? <==> !Contains(s, sep)
  {
    FindFrom(s, sep, 0)
  }

  /**
   * Python's `s.split(sep)` for a non-empty separator: the pieces between the
   * non-overlapping occurrences of `sep`, found from left to right.
   */
  function Split(s: string, sep: string): (parts: seq<string>)
    requires |sep| > 0
    decreases |s|
    ensures |parts| >= 1
    ensures forall k :: 0 <= k < |parts| ==> !Contains(parts[k], sep)
  {
    match Find(s, sep)
    case None => [s]
    case Some(i) =>
      PrefixBeforeFirst(s, sep, i);
      [s[..i]] + Split(s[i + |sep|..], sep)
  }

  /** The text before the first occurrence of `sep` contains no occurrence of it. */
  lemma PrefixBeforeFirst(s: string, sep: string, i: nat)
    requires |sep| > 0 && i <= |s|
    requires forall j :: 0 <= j < i ==> !OccursAt(s, sep, j)
    ensures !Contains(s[..i], sep)
  {
    forall j | 0 <= j <= i
      ensures !OccursAt(s[..i], sep, j)
    {
      if j + |sep| <= i {
        assert !OccursAt(s, sep, j);
        assert s[..i][j..j + |sep|] == s[j..j + |sep|];
      }
    }
  }

  /** Python's `sep.join(parts)`. */
  function Join(parts: seq<string>, sep: string): string
    requires |parts| >= 1
  {
    if |parts| == 1 then parts[0] else parts[0] + sep + Join(parts[1..], sep)
  }

  /** Splitting and joining again gives back the original text. */
  lemma {:induction false} SplitJoin(s: string, sep: string)
    requires |sep| > 0
    decreases |s|
    ensures Join(Split(s, sep), sep) == s
  {
    match Find(s, sep)
    case None =>
      SplitWithout(s, sep);
    case Some(i) =>
      var rest := s[i + |sep|..];
      SplitJoin(rest, sep);
      SplitAtFirst(s, sep, i);
      JoinCons(s[..i], Split(rest, sep), sep);
      AroundOccurrence(s, sep, i);
  }

  /** Text around an occurrence of `sep` is the part before, `sep`, and the part after. */
  lemma AroundOccurrence(s: string, sep: string, i: nat)
    requires OccursAt(s, sep, i)
    ensures s == s[..i] + sep + s[i + |sep|..]
  {
    assert s[i..i + |sep|] == sep;
    assert s == s[..i] + s[i..i + |sep|] + s[i + |sep|..];
  }

  lemma JoinCons(head: string, parts: seq<string>, sep: string)
    requires |parts| >= 1
    ensures Join([head] + parts, sep) == head + sep + Join(parts, sep)
  {
    var all := [head] + parts;
    assert all[0] == head && all[1..] == parts;
  }

  /** When `sep` first occurs at `i`, the first piece is `s[..i]` and the rest is split further. */
  lemma SplitAtFirst(s: string, sep: string, i: nat)
    requires |sep| > 0
    requires OccursAt(s, sep, i)
    requires forall j :: 0 <= j < i ==> !OccursAt(s, sep, j)
    ensures Split(s, sep) == [s[..i]] + Split(s[i + |sep|..], sep)
  {
    assert Contains(s, sep) by {
      assert 0 <= i <= |s| && OccursAt(s, sep, i);
    }
    var f := Find(s, sep);
    assert f == Some(i);
  }

  /** Text with no occurrence of the separator is a single piece. */
  lemma SplitWithout(s: string, sep: string)
    requires |sep| > 0
    requires !Contains(s, sep)
    ensures Split(s, sep) == [s]
  {
  }

  /** `a + sep + b` splits first at the written separator when nothing earlier matches. */
  lemma SplitConcat(a: string, sep: string, b: string)
    requires |sep| > 0
    requires forall j :: 0 <= j < |a| ==> !OccursAt(a + sep + b, sep, j)
    ensures Split(a + sep + b, sep) == [a] + Split(b, sep)
  {
    var s := a + sep + b;
    assert s[|a|..|a| + |sep|] == sep;
    SplitAtFirst(s, sep, |a|);
    assert s[..|a|] == a;
    assert s[|a| + |sep|..] == b;
  }

  /** An occurrence of `sep` needs its first character at the start position. */
  lemma NoOccurrenceBeforeFirstChar(s: string, sep: string, n: nat)
    requires |sep| > 0 && n <= |s|
    requires forall k :: 0 <= k < n ==> s[k] != sep[0]
    ensures forall j :: 0 <= j < n ==> !OccursAt(s, sep, j)
  {
    forall j | 0 <= j < n
      ensures !OccursAt(s, sep, j)
    {
      if j + |sep| <= |s| {
        assert s[j..j + |sep|][0] == s[j];
      }
    }
  }

  /** An occurrence of `sep` needs its last character at its end position. */
  lemma NoOccurrenceBeforeLastChar(s: string, sep: string, n: nat)
    requires |sep| > 0 && n + |sep| - 1 <= |s|
    requires forall k :: 0 <= k < n + |sep| - 1 ==> s[k] != sep[|sep| - 1]
    ensures forall j :: 0 <= j < n ==> !OccursAt(s, sep, j)
  {
    forall j | 0 <= j < n
      ensures !OccursAt(s, sep, j)
    {
      assert s[j..j + |sep|][|sep| - 1] == s[j + |sep| - 1];
    }
  }

  /** Joining pieces free of the one-character separator `c`, then splitting on `c`, gives the pieces back. */
  lemma {:induction false} JoinSplitChar(pieces: seq<string>, c: char)
    requires |pieces| >= 1
    requires forall k :: 0 <= k < |pieces| ==> c !in pieces[k]
    ensures Split(Join(pieces, [c]), [c]) == pieces
  {
    if |pieces| == 1 {
      ContainsChar(pieces[0], c);
    } else {
      var head, tail := pieces[0], Join(pieces[1..], [c]);
      var s := head + [c] + tail;
      assert Join(pieces, [c]) == s;
      assert forall k :: 0 <= k < |head| ==> s[k] == head[k];
      NoOccurrenceBeforeFirstChar(s, [c], |head|);
      SplitConcat(head, [c], tail);
      JoinSplitChar(pieces[1..], c);
      assert pieces == [head] + pieces[1..];
    }
  }

  /**
   * `f` is the text of `s` that starts at `start` and runs up to the next
   * occurrence of `sep`, or to the end of `s` when there is none.
   */
  predicate PieceAt(s: string, start: int, f: string, sep: string)
  {
    && 0 <= start && start + |f| <= |s|
    && s[start..start + |f|] == f
    && !Contains(f, sep)
    && (start + |f| == |s| || OccursAt(s, sep, start + |f|))
  }

  /**
   * `s.split(sep)[0]`: the text before the first `sep`, or all of `s` when
   * `sep` does not occur (`SplitIndexing` ties it to `Split`).
   */
  function Before(s: string, sep: string): (f: string)
    requires |sep| > 0
    ensures PieceAt(s, 0, f, sep)
  {
    match Find(s, sep)
    case None =>
      assert s[0..|s|] == s;
      s
    case Some(i) =>
      PrefixBeforeFirst(s, sep, i);
      assert s[0..i] == s[..i];
      s[..i]
  }

  /**
   * `s.split(sep)[1]`: the text between the first and the second `sep` (or
   * the end of `s`); `None` is the `IndexError` of text without `sep`.
   */
  function Second(s: string, sep: string): (r: Option<string>)
    requires |sep| > 0
    ensures r.None? <==> !Contains(s, sep)
    ensures r.Some? ==> Find(s, sep).Some? && PieceAt(s, Find(s, sep).value + |sep|, r.value, sep)
  {
    match Find(s, sep)
    case None => None
    case Some(i) =>
      var f := Before(s[i + |sep|..], sep);
      PieceShift(s, i + |sep|, s[i + |sep|..], f, sep);
      Some(f)
  }

  /** `Before` is the first element of `Split`. */
  lemma SplitFirst(s: string, sep: string)
    requires |sep| > 0
    ensures Split(s, sep)[0] == Before(s, sep)
  {
  }

  /** `Before` and `Second` are the first two elements of Python's `s.split(sep)`. */
  lemma SplitIndexing(s: string, sep: string)
    requires |sep| > 0
    ensures Split(s, sep)[0] == Before(s, sep)
    ensures |Split(s, sep)| >= 2 <==> Second(s, sep).Some?
    ensures |Split(s, sep)| >= 2 ==> Split(s, sep)[1] == Second(s, sep).value
  {
    SplitFirst(s, sep);
    match Find(s, sep)
    case None =>
    case Some(i) =>
      var rest := s[i + |sep|..];
      assert Split(s, sep) == [s[..i]] + Split(rest, sep);
      SplitFirst(rest, sep);
  }

  /** A piece at the start of `rest`, the text of `s` from `start` on, is the piece of `s` at `start`. */
  lemma PieceShift(s: string, start: nat, rest: string, f: string, sep: string)
    requires start <= |s| && rest == s[start..] && PieceAt(rest, 0, f, sep)
    ensures PieceAt(s, start, f, sep)
  {
    assert s[start..start + |f|] == rest[..|f|];
    if start + |f| < |s| {
      assert OccursAt(rest, sep, |f|);
      assert s[start + |f|..start + |f| + |sep|] == rest[|f|..|f| + |sep|];
    }
  }

  /** An occurrence inside a slice is an occurrence in the whole text. */
  lemma OccursInSlice(s: string, from: nat, to: nat, sep: string, i: nat)
    requires from <= to <= |s| && OccursAt(s[from..to], sep, i)
    ensures OccursAt(s, sep, from + i)
  {
    var window := s[from..to];
    assert i + |sep| <= |window|;
    forall j | 0 <= j < |sep|
      ensures s[from + i + j] == sep[j]
    {
      assert window[i..i + |sep|][j] == window[i + j];
    }
  }

  /** A prefix of text free of `sep` is free of it too. */
  lemma PrefixWithout(s: string, sep: string, n: nat)
    requires |sep| > 0 && n <= |s| && !Contains(s, sep)
    ensures !Contains(s[..n], sep)
  {
    forall j | 0 <= j < n
      ensures !OccursAt(s, sep, j)
    {
    }
    PrefixBeforeFirst(s, sep, n);
  }

  /** The first occurrence that nothing earlier precedes is the one `find` reports. */
  lemma FindAt(s: string, sep: string, i: nat)
    requires OccursAt(s, sep, i)
    requires forall j :: 0 <= j < i ==> !OccursAt(s, sep, j)
    ensures Find(s, sep) == Some(i)
  {
    assert Contains(s, sep) by {
      assert 0 <= i <= |s|;
    }
  }

  /** When `sep` does not start before `n`, the first piece keeps the first `n` characters. */
  lemma BeforeKeepsPrefix(s: string, sep: string, n: nat)
    requires |sep| > 0 && n <= |s|
    requires forall j :: 0 <= j < n ==> !OccursAt(s, sep, j)
    ensures n <= |Before(s, sep)| && Before(s, sep)[..n] == s[..n]
  {
    var f := Before(s, sep);
    assert s[0..|f|] == f;
    assert f[..n] == s[0..|f|][..n];
  }

  /** `a + sep + b` is cut at the written `sep` when no `sep` starts inside `a`. */
  lemma BeforeSecondConcat(a: string, sep: string, b: string)
    requires |sep| > 0
    requires forall j :: 0 <= j < |a| ==> !OccursAt(a + sep + b, sep, j)
    ensures Before(a + sep + b, sep) == a
    ensures Second(a + sep + b, sep) == Some(Before(b, sep))
  {
    var s := a + sep + b;
    assert s[|a|..|a| + |sep|] == sep;
    FindAt(s, sep, |a|);
    assert s[..|a|] == a;
    assert s[|a| + |sep|..] == b;
  }

  /**
   * `a + sep + b` is cut at the written `sep` when the last character of
   * `sep` appears neither in `a` nor earlier in `sep`.
   */
  lemma ConcatAfterLastChar(a: string, sep: string, b: string)
    requires |sep| > 0
    requires sep[|sep| - 1] !in a && sep[|sep| - 1] !in sep[..|sep| - 1]
    ensures Before(a + sep + b, sep) == a
    ensures Second(a + sep + b, sep) == Some(Before(b, sep))
  {
    var s := a + sep + b;
    forall k | 0 <= k < |a| + |sep| - 1
      ensures s[k] != sep[|sep| - 1]
    {
      if k < |a| {
        assert s[k] == a[k];
      } else {
        assert s[k] == sep[..|sep| - 1][k - |a|];
      }
    }
    NoOccurrenceBeforeLastChar(s, sep, |a|);
    BeforeSecondConcat(a, sep, b);
  }

  /** `a + sep + b` is cut at the written `sep` for a two-character `sep` of distinct characters. */
  lemma ConcatAfterPair(a: string, sep: string, b: string)
    requires |sep| == 2 && sep[0] != sep[1]
    requires !Contains(a, sep)
    ensures Before(a + sep + b, sep) == a
    ensures Second(a + sep + b, sep) == Some(Before(b, sep))
  {
    var s := a + sep + b;
    forall j | 0 <= j < |a|
      ensures !OccursAt(s, sep, j)
    {
      if j + 2 <= |a| {
        assert !OccursAt(a, sep, j);
        assert s[j..j + 2] == a[j..j + 2];
      } else {
        assert s[j + 1] == sep[0];
        assert s[j..j + 2][1] == s[j + 1];
      }
    }
    BeforeSecondConcat(a, sep, b);
  }

  /** Text that lacks the first character of `sep` does not contain `sep`. */
  lemma WithoutFirstChar(s: string, sep: string)
    requires |sep| > 0 && sep[0] !in s
    ensures !Contains(s, sep)
  {
    forall j | 0 <= j <= |s|
      ensures !OccursAt(s, sep, j)
    {
      if j + |sep| <= |s| {
        assert s[j..j + |sep|][0] == s[j];
      }
    }
  }

  /** For a one-character separator, containment is membership of that character. */
  lemma ContainsChar(s: string, c: char)
    ensures Contains(s, [c]) <==> c in s
  {
    if c in s {
      var k :| 0 <= k < |s| && s[k] == c;
      assert OccursAt(s, [c], k);
    }
    if Contains(s, [c]) {
      var k :| 0 <= k <= |s| && OccursAt(s, [c], k);
      assert s[k..k + 1][0] == s[k];
    }
  }

  /** Python's `a < b` on strings: lexicographic by code point, a proper prefix first. */
  predicate LexLess(a: string, b: string)
    decreases |a|
  {
    if a == [] then b != []
    else if b == [] then false
    else a[0] < b[0] || (a[0] == b[0] && LexLess(a[1..], b[1..]))
  }

  /** Strings whose heads have equal lengths compare by their heads first, then by their tails. */
  lemma {:induction false} LexLessConcat(a: string, b: string, c: string, d: string)
    requires |a| == |c|
    decreases |a|
    ensures LexLess(a + b, c + d) <==> LexLess(a, c) || (a == c && LexLess(b, d))
  {
    if a == [] {
      assert a + b == b && c + d == d;
    } else {
      assert (a + b)[0] == a[0] && (a + b)[1..] == a[1..] + b;
      assert (c + d)[0] == c[0] && (c + d)[1..] == c[1..] + d;
      LexLessConcat(a[1..], b, c[1..], d);
      assert a == [a[0]] + a[1..] && c == [c[0]] + c[1..];
    }
  }

  lemma {:induction false} LexLessIrreflexive(a: string)
    decreases |a|
    ensures !LexLess(a, a)
  {
    if a != [] {
      LexLessIrreflexive(a[1..]);
    }
  }

  lemma {:induction false} LexLessTransitive(a: string, b: string, c: string)
    requires LexLess(a, b) && LexLess(b, c)
    decreases |a|
    ensures LexLess(a, c)
  {
    if a != [] && a[0] == b[0] && b[0] == c[0] {
      LexLessTransitive(a[1..], b[1..], c[1..]);
    }
  }

  lemma {:induction false} LexLessTotal(a: string, b: string)
    requires a != b
    decreases |a|
    ensures LexLess(a, b) || LexLess(b, a)
  {
    if a != [] && b != [] && a[0] == b[0] {
      assert a == [a[0]] + a[1..] && b == [b[0]] + b[1..];
      LexLessTotal(a[1..], b[1..]);
    }
  }

  lemma {:induction false} LexLessAsymmetric(a: string, b: string)
    requires LexLess(a, b)
    decreases |a|
    ensures !LexLess(b, a)
  {
    if a != [] && b != [] && a[0] == b[0] {
      LexLessAsymmetric(a[1..], b[1..]);
    }
  }
}
