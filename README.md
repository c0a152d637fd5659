# I2P eepsite log analysis — verified model

`parse-i2p-eepsite-logs.py` reads the access logs of an I2P eepsite and
reports on the visitors. This project models its two computational parts in
Dafny and proves what they promise.

* `parse_log_line` turns one log line of the form

      ROUTER -  -  [DD/Mon/YYYY:HH:MM:SS +ZONE] "REQUEST" STATUS - ...

  into a record (visiting router, date, request, status code), or into "no
  entry". It does this with four `str.split` expressions and
  `datetime.strptime`.
* `generate_statistics` turns the parsed entries into the report figures:
  * the 50 busiest remote routers;
  * the number of `.html` requests;
  * the 50 most requested pages;
  * requests per calendar month over the last 56 × 30 days, and their average;
  * the busiest hour of the day;
  * the time stamp of the run.

The modules follow the program's structure:

| module | file | what it models |
|---|---|---|
| `Wrappers` | `wrappers.dfy` | `Option`, used for Python's `None` and for caught exceptions |
| `PyStrings` | `strings.dfy` | `str.split` with a non-empty separator, `str.find`, `in`, `endswith`, `join`, and Python's ordering `<` on strings |
| `Dates` | `dates.dfy` | naive `datetime` at second precision; `strptime` for `%d/%b/%Y:%H:%M:%S` (built from CPython's field patterns); the proleptic Gregorian calendar behind `toordinal`; `datetime` comparison; the `strftime` renderings |
| `Counting` | `counting.dfy` | `collections.Counter` as an order-preserving tally; `most_common(n)` as a stable sort by descending count cut to `n` |
| `LogParser` | `logparser.dfy` | `parse_log_line` |
| `Statistics` | `statistics.dfy` | `generate_statistics`. The monthly `for` loop over a `defaultdict` is a method with a loop over a `map`. `sorted(items)` is a method. The rest are functions and lemmas about them |

Two functions are written once as the program writes them, with the whole
list of pieces (`Split(s, sep)[0]`, `Split(s, sep)[1]`), and once as the
direct "text up to the next separator" (`Before`, `Second`). Lemmas prove the
two forms equal.

The clock is a parameter. `generate_statistics` reads `datetime.now()`;
`GenerateStatistics` takes `now` instead. `now` has no microseconds, and
dropping them changes nothing. An entry time `e` has whole seconds, and the
cut-off is `c + u` with whole seconds `c` and `0 <= u < 1`. So `e > c + u`
holds exactly when `e > c`.

`most_common(50)` and `most_common(1)` use `heapq.nlargest`. Python documents
that as equal to `sorted(..., reverse=True)[:n]`, which is a stable sort, so
ties keep the counter's first-insertion order. That is what `MostCommon`
computes.

## Model

| member | source | states |
|---|---|---|
| LogParser.ParseLogLine | parse-i2p-eepsite-logs.py:6-29 | "No entry" exactly when the line has no `[`, has no `" `, or its date text is not a valid `%d/%b/%Y:%H:%M:%S` date-time. Otherwise the record carries the router, the parsed date (always a valid date-time), the request and the status code of the line |
| LogParser.Router | parse-i2p-eepsite-logs.py:10 | The router is the text from the start of the line up to the first `" -  -  ["`, or the whole line. It never contains that separator, so this field cannot fail |
| LogParser.Between | parse-i2p-eepsite-logs.py:13 | `split(open)[1].split(close)[0]` fails exactly when `open` does not occur. Otherwise it is the text after the first `open` up to the next `close` or `open` (or the end), and contains neither |
| LogParser.Request | parse-i2p-eepsite-logs.py:16 | The request fails exactly when the line has no `"`. Otherwise it is the text after the first `"` up to the second `"` or the end of the line, so it contains no `"` |
| LogParser.BetweenIsSplit | parse-i2p-eepsite-logs.py:13 | `Between` equals Python's `split(open)[1].split(close)[0]` computed on the full lists of pieces, with `IndexError` as `None` |
| LogParser.FieldsAreSplits | parse-i2p-eepsite-logs.py:10-19 | The router, date text, request and status code are exactly the four split-and-index expressions of the function, with `IndexError` as `None` |
| LogParser.QuoteBeforeQuoteSpace | parse-i2p-eepsite-logs.py:16-19 | A line with `" ` has a `"`. So once the status split succeeds, the request split cannot raise |
| LogParser.ParseFormattedLine | parse-i2p-eepsite-logs.py:6-29 | Parsing a line written in the log format from any entry whose fields the format can carry gives back exactly that entry |
| LogParser.ParseSampleLine | parse-i2p-eepsite-logs.py:6-29 | `R1 -  -  [01/Jan/2024:10:00:00 +0000] "GET /x.html" 200 -` parses to router `R1`, 1 January 2024 10:00:00, request `GET /x.html`, status `200`, hour 10 |
| LogParser.ParseRejectsPlainText | parse-i2p-eepsite-logs.py:27-29 | The line `not-a-log-line`, which has no `[`, gives "no entry" |
| PyStrings.Split | parse-i2p-eepsite-logs.py:10 | `str.split(sep)` returns at least one piece, and no piece contains `sep` |
| PyStrings.SplitJoin | parse-i2p-eepsite-logs.py:10 | `sep.join(s.split(sep)) == s`: the pieces and separators rebuild the text |
| PyStrings.SplitIndexing | parse-i2p-eepsite-logs.py:13-19 | `s.split(sep)[0]` is the text before the first `sep`. `s.split(sep)[1]` exists exactly when `sep` occurs, and is the text between its first and second occurrence |
| PyStrings.Find | parse-i2p-eepsite-logs.py:10 | `str.find` returns the leftmost occurrence, or "not found" exactly when `sep` is not a substring |
| PyStrings.LexLessTransitive | parse-i2p-eepsite-logs.py:94 | Python's string order, used by `sorted`, is transitive |
| PyStrings.LexLessTotal | parse-i2p-eepsite-logs.py:94 | Any two different strings are ordered one way or the other |
| PyStrings.LexLessConcat | parse-i2p-eepsite-logs.py:94 | Strings whose heads have equal lengths compare by their heads first, then by what follows |
| PyStrings.LexLessAsymmetric | parse-i2p-eepsite-logs.py:94 | No two strings are each less than the other |
| Dates.ParseDateTime | parse-i2p-eepsite-logs.py:23 | `strptime` with `%d/%b/%Y:%H:%M:%S` only produces valid date-times: month 1..12, a day that exists in its month, hour 0..23, minute and second 0..59 |
| Dates.MonthNumber | parse-i2p-eepsite-logs.py:23 | `%b` accepts exactly the twelve English month abbreviations, in any letter case, and gives the month's number |
| Dates.ParseFormattedDate | parse-i2p-eepsite-logs.py:23 | Parsing `%d/%b/%Y:%H:%M:%S` as rendered from any valid date-time gives that date-time back |
| Dates.MonthNumberOfAbbr | parse-i2p-eepsite-logs.py:23 | Each month's abbreviation parses back to that month |
| Dates.LaterIsInstantOrder | parse-i2p-eepsite-logs.py:74 | Python's field-by-field comparison of valid `datetime` values agrees with the order of their instants on the proleptic calendar |
| Dates.MonthKey | parse-i2p-eepsite-logs.py:75 | `strftime("%Y-%m")` is a seven-character key: four digits reading the date's year, `-`, two digits reading its month |
| Dates.MonthKeySameMonth | parse-i2p-eepsite-logs.py:75-76 | Two entries share a month key exactly when they fall in the same year and month, so each calendar month gets its own bucket |
| Dates.MonthKeyOrder | parse-i2p-eepsite-logs.py:94 | Python's string order on month keys is calendar order: one key sorts before another exactly when its year is earlier, or the year is the same and its month is earlier |
| Dates.FormatDate | parse-i2p-eepsite-logs.py:87 | The `%d/%b/%Y %H:%M:%S` stamp is twenty characters long |
| Counting.Tally | parse-i2p-eepsite-logs.py:51 | `Counter(xs)` holds exactly the elements of `xs`, each with its number of occurrences, keys in order of first occurrence |
| Counting.MostCommonOfTally | parse-i2p-eepsite-logs.py:52 | `Counter(xs).most_common(n)` has at most `n` items, each a key of `xs` with its exact count. Items go by count descending, ties by first occurrence. A key is left out only when `n` items were kept that all rank ahead of it |
| Counting.MostCommonOfStream | parse-i2p-eepsite-logs.py:51-52 | The same ranking, stated on the filtered generator's source entries. Keys are distinct, and each count is the number of kept entries with that key |
| Counting.FilterKept | parse-i2p-eepsite-logs.py:55 | A list comprehension with a condition holds exactly the entries that meet it, as many as there are |
| Statistics.TopRoutersRanked | parse-i2p-eepsite-logs.py:51-52 | The top routers are at most 50 distinct routers, none `127.0.0.1`, each with its exact request count. They go busiest first, ties in order of first appearance. No router left out would rank ahead of one kept |
| Statistics.TotalHtmlRequestsCount | parse-i2p-eepsite-logs.py:55-56 | The `.html` total is the number of entries whose request contains `.html`, at most the number of entries. The list holds exactly those entries |
| Statistics.TopPagesRanked | parse-i2p-eepsite-logs.py:59-66 | The top pages are at most 50 distinct requests. None ends in `.png`, `.ico` or `.css`, and none is one of the four ignored requests. Each has its exact count; most requested first, ties by first appearance |
| Statistics.WindowIsLaterThanCutoff | parse-i2p-eepsite-logs.py:69-74 | An entry is in the window exactly when its date is later, as Python compares `datetime`s, than `now` minus 56 × 30 days |
| Statistics.MonthlyRequests | parse-i2p-eepsite-logs.py:71-76 | After the loop, the map holds exactly the `YYYY-MM` months of entries strictly later than the cut-off, each with its number of such entries |
| Statistics.MonthlyStep | parse-i2p-eepsite-logs.py:73-76 | One pass of the loop turns the counts of a prefix of the entries into the counts of the prefix one longer |
| Statistics.SortedItems | parse-i2p-eepsite-logs.py:94 | `sorted(monthly_requests.items())` lists every month of the map once, with its count, in strictly increasing key order |
| Statistics.LeastKey | parse-i2p-eepsite-logs.py:94 | Picks the key that is smaller than every other key, as the sort's first item |
| Statistics.MonthlyTableChronological | parse-i2p-eepsite-logs.py:94 | The sorted monthly table runs in calendar order: a month listed earlier is an earlier month |
| Statistics.MonthlySum | parse-i2p-eepsite-logs.py:79-80 | The monthly counts sum to the number of entries inside the window, which is at most the number of entries |
| Statistics.AverageBounds | parse-i2p-eepsite-logs.py:79-80 | The average is 0 when there are no months. Otherwise it is the in-window total divided by the number of months, between 1 and the number of entries |
| Statistics.PopularHourIsBusiest | parse-i2p-eepsite-logs.py:83-84 | There is no busiest hour exactly when there are no entries. Otherwise it is an hour 0..23 of some entry that no hour beats in frequency, and among equally frequent hours it is the one seen first |
| Statistics.GenerateStatistics | parse-i2p-eepsite-logs.py:48-97 | The report holds the top routers, the `.html` total, the top pages, the sorted monthly table of the window ending at `now`, its average, the busiest hour and `now` as `%d/%b/%Y %H:%M:%S` |

## Left out

- `parse_log_files` (lines 31-46) is I/O: it walks a directory, opens files, reads and strips lines. `parse_log_line` is modelled on the stripped line.
- `generate_html_report` (lines 99-195) is HTML templating and a file write. `main` (lines 197-223) is interactive input and output.
- `datetime.now()` is left out. The run's time is the parameter `now` of `GenerateStatistics`, at whole seconds.
- Statistics.Average: the average is an exact real, not an IEEE double. `:.2f` rounding belongs to the HTML report.
- Statistics.GenerateStatistics: the average is computed from the sorted monthly items rather than from the dictionary's values. Both hold the same counts, so the sum is the same.
- Statistics.GenerateStatistics: the `OverflowError` Python raises when `now` minus 1680 days falls before year 1 is not modelled. The cut-off is an instant that may lie before the calendar's start.
- Dates.ParseDateTime: `\d` accepts ASCII digits only, while Python's `re` also accepts other Unicode decimal digits. The case-insensitive `%b` match is modelled on ASCII letters only, so the Unicode case-folding of `re.IGNORECASE` is not.
- Dates.MonthKey, Dates.FormatDate: `%Y` is written with four digits for every year, in the month key and in the report stamp. Some C libraries print years below 1000 without zero padding.
- `parse_log_line` catches only `IndexError` and `ValueError`. No other exception can arise from its expressions on a string, so no other path is modelled.
