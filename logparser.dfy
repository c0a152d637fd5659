/**
 * `parse_log_line`: one line of an I2P eepsite access log, in the form
 *
 *   ROUTER -  -  [DD/Mon/YYYY:HH:MM:SS +ZONE] "REQUEST" STATUS - ...
 *
 * is cut into the visiting router, the date, the request and the status code
 * with four `str.split` expressions and `datetime.strptime`. A missing
 * separator (`IndexError`) or a date that does not parse (`ValueError`) makes
 * the whole line unparseable.
 */
module LogParser {
  import opened Wrappers
  import opened PyStrings
  import opened Dates

  /** The text that ends the router field. */
  const RouterEnd: string := " -  -  ["

  /** A parsed log line. */
  datatype LogEntry = LogEntry(router: string, date: DateTime, request: string, statusCode: string)

  /** `line.split(' -  -  [')[0]`: everything before the first `" -  -  ["`, or the whole line. */
  function Router(line: string): (router: string)
    ensures PieceAt(line, 0, router, RouterEnd)
  {
    Before(line, RouterEnd)
  }

  /**
   * `f` starts at `start` in `line` and stops at the first `close` or `open`
   * after it, or at the end of the line.
   */
  predicate FieldAt(line: string, start: int, f: string, open: string, close: string)
  {
    && 0 <= start && start + |f| <= |line|
    && line[start..start + |f|] == f
    && !Contains(f, open) && !Contains(f, close)
    && (start + |f| == |line| || OccursAt(line, open, start + |f|) || OccursAt(line, close, start + |f|))
  }

  /**
   * `line.split(open)[1].split(close)[0]`: the text after the first `open`, up
   * to the next `close` or `open`; `None` is the `IndexError` of a line
   * without `open`.
   */
  function Between(line: string, open: string, close: string): (r: Option<string>)
    requires |open| > 0 && |close| > 0
    ensures r.None? <==> !Contains(line, open)
    ensures r.Some? ==> Find(line, open).Some? && FieldAt(line, Find(line, open).value + |open|, r.value, open, close)
  {
    match Second(line, open)
    case None => None
    case Some(p) =>
      FieldAfter(line, Find(line, open).value + |open|, p, open, close);
      Some(Before(p, close))
  }

  lemma FieldAfter(line: string, start: nat, p: string, open: string, close: string)
    requires |open| > 0 && |close| > 0 && PieceAt(line, start, p, open)
    ensures FieldAt(line, start, Before(p, close), open, close)
  {
    FieldOfPiece(line, start, p, open, Before(p, close), close);
  }

  /** The first `close`-piece of the `open`-piece at `start` is the field at `start`. */
  lemma FieldOfPiece(line: string, start: nat, p: string, open: string, f: string, close: string)
    requires |open| > 0 && |close| > 0
    requires PieceAt(line, start, p, open) && PieceAt(p, 0, f, close)
    ensures FieldAt(line, start, f, open, close)
  {
    PrefixWithout(p, open, |f|);
    assert p[0..|f|] == p[..|f|];
    assert line[start..start + |f|] == line[start..start + |p|][..|f|];
    if |f| < |p| {
      OccursInSlice(line, start, start + |p|, close, |f|);
    }
  }

  /** `line.split('[')[1].split(' +')[0]`: the date text inside the brackets, before the zone. */
  function DateText(line: string): Option<string>
  {
    Between(line, "[", " +")
  }

  /** `line.split('"')[1]`: the text between the first and the second `"` (or the end of the line). */
  function Request(line: string): (r: Option<string>)
    ensures r.None? <==> !Contains(line, "\"")
    ensures r.Some? ==> Find(line, "\"").Some? && PieceAt(line, Find(line, "\"").value + 1, r.value, "\"")
  {
    Second(line, "\"")
  }

  /** `line.split('" ')[1].split(' -')[0]`: the text after the closing `" ` of the request, before ` -`. */
  function StatusCode(line: string): Option<string>
  {
    Between(line, "\" ", " -")
  }

  /**
   * `parse_log_line(line)`: the four fields, or `None` exactly when the line
   * has no `[`, has no `" `, or its date text is not a valid
   * `%d/%b/%Y:%H:%M:%S` date-time.
   */
  function ParseLogLine(line: string): (r: Option<LogEntry>)
    ensures r.None? <==> (|| !Contains(line, "[")
                          || !Contains(line, "\" ")
                          || ParseDateTime(DateText(line).value).None?)
    ensures r.Some? ==> r.value.date.Valid()
    ensures r.Some? ==> && r.value.router == Router(line)
                        && Some(r.value.date) == ParseDateTime(DateText(line).value)
                        && Some(r.value.request) == Request(line)
                        && Some(r.value.statusCode) == StatusCode(line)
  {
    QuoteBeforeQuoteSpace(line);
    match (DateText(line), Request(line), StatusCode(line))
    case (Some(date), Some(request), Some(status)) =>
      (match ParseDateTime(date)
       case None => None
       case Some(d) => Some(LogEntry(Router(line), d, request, status)))
    case _ => None
  }

  /** A line with `" ` has a `"`, so the request split cannot fail once the status split succeeds. */
  lemma QuoteBeforeQuoteSpace(line: string)
    ensures Contains(line, "\" ") ==> Contains(line, "\"")
  {
    if Contains(line, "\" ") {
      var i :| 0 <= i <= |line| && OccursAt(line, "\" ", i);
      assert line[i..i + 1] == line[i..i + 2][..1];
      assert OccursAt(line, "\"", i);
    }
  }

  /** Python's `line.split(open)[1].split(close)[0]`, written with the whole list of pieces. */
  function SplitBetween(line: string, open: string, close: string): Option<string>
    requires |open| > 0 && |close| > 0
  {
    var parts := Split(line, open);
    if |parts| < 2 then None else Some(Split(parts[1], close)[0])
  }

  lemma BetweenIsSplit(line: string, open: string, close: string)
    requires |open| > 0 && |close| > 0
    ensures Between(line, open, close) == SplitBetween(line, open, close)
  {
    SplitIndexing(line, open);
    if Second(line, open).Some? {
      SplitFirst(Second(line, open).value, close);
    }
  }

  /** The fields are exactly the `str.split` expressions of `parse_log_line`, `IndexError` as `None`. */
  lemma FieldsAreSplits(line: string)
    ensures Router(line) == Split(line, RouterEnd)[0]
    ensures Request(line).Some? <==> |Split(line, "\"")| >= 2
    ensures Request(line).Some? ==> Request(line).value == Split(line, "\"")[1]
    ensures DateText(line) == SplitBetween(line, "[", " +")
    ensures StatusCode(line) == SplitBetween(line, "\" ", " -")
  {
    SplitFirst(line, RouterEnd);
    SplitIndexing(line, "\"");
    BetweenIsSplit(line, "[", " +");
    BetweenIsSplit(line, "\" ", " -");
  }

  // ----------------------------------------------------------- round trip

  /**
   * An entry whose fields the line format can carry: the router has no `[`
   * or `"`, the request no `"` and no leading blank, the status no `"` and
   * no ` -`, and the zone no `"`.
   */
  predicate Printable(e: LogEntry, zone: string)
  {
    && e.date.Valid()
    && '[' !in e.router && '"' !in e.router
    && '"' !in e.request && (e.request == [] || e.request[0] != ' ')
    && '"' !in e.statusCode && !Contains(e.statusCode, " -")
    && '"' !in zone
  }

  /** The log line the server writes for an entry, with its time zone and whatever follows the status. */
  function FormatLogLine(e: LogEntry, zone: string, trailer: string): string
    requires e.date.Valid()
  {
    e.router + RouterEnd + FormatDate(e.date, ':') + " +" + zone + "] \""
      + e.request + "\" " + e.statusCode + " -" + trailer
  }

  /** Parsing a written log line gives back the entry it was written from. */
  lemma ParseFormattedLine(e: LogEntry, zone: string, trailer: string)
    requires Printable(e, zone)
    ensures ParseLogLine(FormatLogLine(e, zone, trailer)) == Some(e)
  {
    var line := FormatLogLine(e, zone, trailer);
    RouterOfFormatted(e, zone, trailer);
    DateTextOfFormatted(e, zone, trailer);
    RequestOfFormatted(e, zone, trailer);
    StatusOfFormatted(e, zone, trailer);
    ParseFormattedDate(e.date);
  }

  lemma RouterOfFormatted(e: LogEntry, zone: string, trailer: string)
    requires Printable(e, zone)
    ensures Router(FormatLogLine(e, zone, trailer)) == e.router
  {
    var D := FormatDate(e.date, ':');
    var rest := D + " +" + zone + "] \"" + e.request + "\" " + e.statusCode + " -" + trailer;
    LineAtRouterEnd(e.router, D, zone, e.request, e.statusCode, trailer);
    assert RouterEnd[..|RouterEnd| - 1] == " -  -  ";
    ConcatAfterLastChar(e.router, RouterEnd, rest);
  }

  lemma DateTextOfFormatted(e: LogEntry, zone: string, trailer: string)
    requires Printable(e, zone)
    ensures DateText(FormatLogLine(e, zone, trailer)) == Some(FormatDate(e.date, ':'))
  {
    var D := FormatDate(e.date, ':');
    LineAtBracket(e.router, D, zone, e.request, e.statusCode, trailer);
    FormatDateChars(e.date);
    DateTextAfterBracket(e.router + " -  -  ", D, zone + "] \"" + e.request + "\" " + e.statusCode + " -" + trailer);
  }

  // The written line regrouped around each separator the parser cuts at.

  lemma LineAtRouterEnd(r: string, D: string, z: string, q: string, c: string, t: string)
    ensures r + RouterEnd + D + " +" + z + "] \"" + q + "\" " + c + " -" + t
         == r + RouterEnd + (D + " +" + z + "] \"" + q + "\" " + c + " -" + t)
  {
  }

  lemma LineAtBracket(r: string, D: string, z: string, q: string, c: string, t: string)
    ensures r + RouterEnd + D + " +" + z + "] \"" + q + "\" " + c + " -" + t
         == (r + " -  -  ") + "[" + (D + " +" + (z + "] \"" + q + "\" " + c + " -" + t))
  {
    assert RouterEnd == " -  -  " + "[";
  }

  lemma LineAtQuote(r: string, D: string, z: string, q: string, c: string, t: string)
    ensures r + RouterEnd + D + " +" + z + "] \"" + q + "\" " + c + " -" + t
         == (r + RouterEnd + D + " +" + z + "] ") + "\"" + (q + "\"" + (" " + c + " -" + t))
  {
    assert "] \"" == "] " + "\"" && "\" " == "\"" + " ";
  }

  lemma LineAtQuoteSpace(r: string, D: string, z: string, q: string, c: string, t: string)
    ensures r + RouterEnd + D + " +" + z + "] \"" + q + "\" " + c + " -" + t
         == ((r + RouterEnd + D + " +" + z + "] ") + "\"" + q) + "\" " + (c + " -" + t)
  {
    assert "] \"" == "] " + "\"";
  }

  /** The text before the request's opening quote has no `"`. */
  lemma HeadWithoutQuote(r: string, D: string, z: string)
    requires '"' !in r && '"' !in D && '"' !in z
    ensures '"' !in r + RouterEnd + D + " +" + z + "] "
  {
  }

  lemma DateTextAfterBracket(a: string, D: string, rest: string)
    requires '[' !in a
    requires forall k :: 0 <= k < |D| ==> StampChar(D[k])
    ensures DateText(a + "[" + (D + " +" + rest)) == Some(D)
  {
    ConcatAfterLastChar(a, "[", D + " +" + rest);
    ZoneCut(D, rest);
  }

  /** The date text ends at the ` +` of the zone, whatever follows. */
  lemma ZoneCut(D: string, rest: string)
    requires forall k :: 0 <= k < |D| ==> StampChar(D[k])
    ensures Before(Before(D + " +" + rest, "["), " +") == D
  {
    var b := D + " +" + rest;
    forall k | 0 <= k < |D| + 2
      ensures b[k] != '['
    {
      if k < |D| {
        assert b[k] == D[k];
      }
    }
    NoOccurrenceBeforeFirstChar(b, "[", |D| + 2);
    BeforeKeepsPrefix(b, "[", |D| + 2);
    var p := Before(b, "[");
    assert p == D + " +" + p[|D| + 2..] by {
      assert b[..|D| + 2] == D + " +";
    }
    assert ' ' !in D;
    WithoutFirstChar(D, " +");
    ConcatAfterPair(D, " +", p[|D| + 2..]);
  }

  lemma RequestOfFormatted(e: LogEntry, zone: string, trailer: string)
    requires Printable(e, zone)
    ensures Request(FormatLogLine(e, zone, trailer)) == Some(e.request)
  {
    var D := FormatDate(e.date, ':');
    LineAtQuote(e.router, D, zone, e.request, e.statusCode, trailer);
    FormatDateChars(e.date);
    assert '"' !in D;
    HeadWithoutQuote(e.router, D, zone);
    RequestBetweenQuotes(e.router + RouterEnd + D + " +" + zone + "] ", e.request, " " + e.statusCode + " -" + trailer);
  }

  lemma RequestBetweenQuotes(a: string, request: string, tail: string)
    requires '"' !in a && '"' !in request
    ensures Request(a + "\"" + (request + "\"" + tail)) == Some(request)
  {
    ConcatAfterLastChar(a, "\"", request + "\"" + tail);
    ConcatAfterLastChar(request, "\"", tail);
  }

  lemma StatusOfFormatted(e: LogEntry, zone: string, trailer: string)
    requires Printable(e, zone)
    ensures StatusCode(FormatLogLine(e, zone, trailer)) == Some(e.statusCode)
  {
    var D := FormatDate(e.date, ':');
    var p := e.router + RouterEnd + D + " +" + zone + "] ";
    LineAtQuoteSpace(e.router, D, zone, e.request, e.statusCode, trailer);
    FormatDateChars(e.date);
    assert '"' !in D;
    HeadWithoutQuote(e.router, D, zone);
    NoQuoteSpace(p, e.request);
    ConcatAfterPair(p + "\"" + e.request, "\" ", e.statusCode + " -" + trailer);
    StatusCut(e.statusCode, trailer);
  }

  /** The status code ends at the ` -` that follows it. */
  lemma StatusCut(s: string, trailer: string)
    requires '"' !in s && !Contains(s, " -")
    ensures Before(Before(s + " -" + trailer, "\" "), " -") == s
  {
    var b := s + " -" + trailer;
    forall k | 0 <= k < |s| + 2
      ensures b[k] != '"'
    {
      if k < |s| {
        assert b[k] == s[k];
      }
    }
    NoOccurrenceBeforeFirstChar(b, "\" ", |s| + 2);
    BeforeKeepsPrefix(b, "\" ", |s| + 2);
    var piece := Before(b, "\" ");
    assert piece == s + " -" + piece[|s| + 2..] by {
      assert b[..|s| + 2] == s + " -";
    }
    ConcatAfterPair(s, " -", piece[|s| + 2..]);
  }

  /** The only `"` of `p + "\"" + q` is not followed by a blank. */
  lemma NoQuoteSpace(p: string, q: string)
    requires '"' !in p && '"' !in q && (q == [] || q[0] != ' ')
    ensures !Contains(p + "\"" + q, "\" ")
  {
    var s := p + "\"" + q;
    forall j | 0 <= j <= |s|
      ensures !OccursAt(s, "\" ", j)
    {
      if j + 2 <= |s| {
        assert s[j..j + 2][0] == s[j] && s[j..j + 2][1] == s[j + 1];
        if j < |p| {
          assert s[j] == p[j];
        } else if j > |p| {
          assert s[j] == q[j - |p| - 1];
        } else {
          assert s[j + 1] == q[0];
        }
      }
    }
  }

  // ------------------------------------------------------------- examples

  const SampleLine: string := "R1 -  -  [01/Jan/2024:10:00:00 +0000] \"GET /x.html\" 200 -"
  const SampleEntry: LogEntry := LogEntry("R1", DateTime(2024, 1, 1, 10, 0, 0), "GET /x.html", "200")

  /** A typical line: router `R1`, request `GET /x.html`, status `200`, ten o'clock on 1 January 2024. */
  lemma ParseSampleLine()
    ensures ParseLogLine(SampleLine) == Some(SampleEntry)
    ensures ParseLogLine(SampleLine).value.date.hour == 10
  {
    SampleLineIsFormatted();
    WithoutFirstChar("200", " -");
    ParseFormattedLine(SampleEntry, "0000", "");
  }

  lemma SampleLineIsFormatted()
    ensures SampleEntry.date.Valid()
    ensures FormatLogLine(SampleEntry, "0000", "") == SampleLine
  {
    SampleStamp();
    SampleLineText();
  }

  lemma SampleLineText()
    ensures "R1" + RouterEnd + "01/Jan/2024:10:00:00" + " +" + "0000" + "] \"" + "GET /x.html" + "\" " + "200" + " -" + ""
         == SampleLine
  {
    SampleLineHead();
    SampleLineTail();
  }

  lemma SampleLineHead()
    ensures "R1" + RouterEnd + "01/Jan/2024:10:00:00" + " +" + "0000" == "R1 -  -  [01/Jan/2024:10:00:00 +0000"
  {
    assert "R1" + RouterEnd == "R1 -  -  [";
    assert "R1 -  -  [" + "01/Jan/2024:10:00:00" == "R1 -  -  [01/Jan/2024:10:00:00";
  }

  lemma SampleLineTail()
    ensures "R1 -  -  [01/Jan/2024:10:00:00 +0000" + "] \"" + "GET /x.html" + "\" " + "200" + " -" + "" == SampleLine
  {
    assert "R1 -  -  [01/Jan/2024:10:00:00 +0000" + "] \"" == "R1 -  -  [01/Jan/2024:10:00:00 +0000] \"";
  }

  lemma SampleStamp()
    ensures SampleEntry.date.Valid()
    ensures FormatDate(SampleEntry.date, ':') == "01/Jan/2024:10:00:00"
  {
    SamplePads();
    SampleStampText();
  }

  lemma SamplePads()
    ensures Pad2(1) == "01" && Pad2(10) == "10" && Pad2(0) == "00" && Pad4(2024) == "2024" && MonthAbbr(1) == "Jan"
  {
    assert Pad2(1) == "01" && Pad2(10) == "10" && Pad2(0) == "00";
  }

  lemma SampleStampText()
    ensures "01" + "/" + "Jan" + "/" + "2024" + ":" + "10" + ":" + "00" + ":" + "00" == "01/Jan/2024:10:00:00"
  {
    assert "01" + "/" + "Jan" + "/" + "2024" == "01/Jan/2024";
  }

  /** A line without the bracketed date is rejected. */
  lemma ParseRejectsPlainText()
    ensures ParseLogLine("not-a-log-line") == None
  {
    assert !Contains("not-a-log-line", "[") by {
      ContainsChar("not-a-log-line", '[');
    }
  }
}
