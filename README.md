# traffic_analyser: a verified model of the log-aggregation engine

`traffic_analyser.py` reads Apache/Nginx access logs and reports, for a time
window, the busiest client ip's or requests with their per-date, per-hour and
ten-minute hit counts. This project models its aggregation engine in Dafny:

- **Count store** (`store.dfy`, `analyser.dfy`). There is a record per entity
  (ip or request): a count, co-occurrence counters (`get_post` for ip's, `ip`
  for requests) and a date → hour → ten-minute-bucket tree. There is also a
  run-wide overall tree (`date_count`), which is absent in the `--ipmatch` and
  `--rmatch` modes, and in compact mode a pair of flat counters.
  `AnalyseLogs` is a class whose fields are updated in place by
  `dict_add`, `dict_date_add` and `evaluate_line`. Each of these is proved
  against a pure function of the old state. The conservation invariants are
  proved about those functions:
  - an entity's count is the sum of its date counts;
  - a date's count is the sum of its hour counts;
  - an hour's count is the sum of its buckets when ten-minute counting is on.
- **Line evaluator** (`timestamps.dfy`, `evaluate.dfy`). The timestamp is
  parsed by fixed-offset slicing and the month table. The window test is
  inclusive. The mode dispatch is modelled, and so are the exceptions that
  end a run.
- **Scan controller** (`scan.dfy`, `analyser.dfy`). There are four reading
  strategies:
  - backwards with an early exit at `<= start`;
  - forwards for gzip files and `--top`, with an early exit at `>= end`;
  - forwards for `--complete`, with no exit.

  The controller also keeps the per-file hit count and tracks the first and
  last recorded times. Files are scanned newest first.
- **Line order** (`order.dfy`). Records commute, and whether a line raises
  depends only on the line, the options and the store's shape. So a read
  without the early exit gives the same store and hit count whichever
  direction it takes over the lines.
- **Reverse line reader** (`reverse_reader.dfy`): the chunked backward
  reader with its carried `segment`, as a loop over an in-memory file.
- **Counter** (`counter.dfy`, `sorting.dfy`): the hand-written multiset with
  `update`, `+`, `-`, `|`, `&` and `most_common()`.
- **Report numbers** (`report.dfy`): `ip_req_number_args` with the geo cap
  at 30, the `[:n]` top-N listings and the "... and N more" remainders.

The two regular-expression searches are inputs: a `Patterns` value gives,
for each line, the matched timestamp substring and the matched request
field, if any. Files are values: a name, a content string and a modification
time.

Where the code and its documentation disagree, the model follows the code:
an exception raised while a line is evaluated is not caught anywhere, so it
ends the whole run rather than one file's scan. This covers an unknown month
name, a bad number and a line with no client field.

## Model

| member | source | states |
|---|---|---|
| Timestamps.ParseKeys | traffic_analyser.py:853-863 | A parsed timestamp is a valid date and time. The hour and minute keys are the two-digit slices `[12:14]` and `[15:17]`, with the values of the hour and minute. The bucket key `minute[0]` is a digit in 0..5 and equals minute / 10. |
| Timestamps.ParseFormat | traffic_analyser.py:853-863 | For every valid time with a four-digit year, parsing its `DD/Mon/YYYY:HH:MM:SS` rendering gives back that time, with the keys "HH" and "MM". |
| Timestamps.UnknownMonthIsFatal | traffic_analyser.py:854 | A timestamp whose month slice `[3:6]` is not in the table raises the month lookup error (a KeyError). |
| Timestamps.MonthTable | traffic_analyser.py:783-785 | The month table maps a name to m exactly when 1 <= m <= 12 and the name is the m-th abbreviation. |
| Timestamps.LeqTotal | traffic_analyser.py:866 | The datetime order on times is total and antisymmetric. |
| Timestamps.LeqTransitive | traffic_analyser.py:866 | The datetime order is transitive. |
| Timestamps.LeqIsSecondsOrder | traffic_analyser.py:413-425 | On valid times, the field-by-field order agrees with the order of absolute seconds, which is what a timedelta measures. |
| Timestamps.OrdinalIncreases | traffic_analyser.py:413-416 | An earlier date has a smaller day ordinal, counting leap years. |
| Timestamps.YearLength | traffic_analyser.py:413-416 | The ordinal advances by 366 over a leap year and by 365 over any other year. |
| Evaluator.TenMinBuckets | traffic_analyser.py:814-841 | Under the flag `ten_min_interval` sets, a window of six hours or more without `--ten`, or `--ten off`, leaves no ten-minute bucket in any entity record; with the buckets kept every entity hour's count is the sum of its buckets. The overall tree keeps its buckets whatever the flag. |
| Timestamps.SingleDateWindow | traffic_analyser.py:635-667 | `--date DD/Mon/YYYY` starts the window at 00:00:00 of that day. The window ends at 23:59:59 of that day, or at "now" when the day is today. |
| Timestamps.SingleDateCoversDay | traffic_analyser.py:650-654 | For a day other than today, a valid time lies in the single-date window exactly when its date is that day. |
| Counters.Inc | traffic_analyser.py:1689-1690 | Incrementing a key reads it as 0 when missing and adds 1. Every other key reads as before. |
| Counters.Counter.Count | traffic_analyser.py:1689-1690 | `__missing__`: an absent key reads as 0 and a present key reads as its count. |
| Counters.Counter.UpdateFromSeq | traffic_analyser.py:1726-1753 | `update(iterable)` adds each element's number of occurrences to its count. It adds exactly the elements as keys. |
| Counters.Counter.UpdateFromCounts | traffic_analyser.py:1726-1753 | `update(mapping)` adds the other counts key by key. The key set becomes the union. |
| Counters.Add | traffic_analyser.py:1782-1797 | `+` reads every key as the positive part of the sum, and keeps only positive counts. |
| Counters.Sub | traffic_analyser.py:1799-1813 | `-` reads every key as the positive part of the difference, and keeps only positive counts. |
| Counters.Union | traffic_analyser.py:1815-1830 | `\|` reads every key as the positive part of the maximum. |
| Counters.Intersect | traffic_analyser.py:1832-1849 | `&` keeps only keys in both counters, with the positive part of the minimum. |
| Counters.AddIsMultisetSum | traffic_analyser.py:1782-1797 | On non-negative counters, `+` is multiset sum of the elements. |
| Counters.SubIsMultisetDifference | traffic_analyser.py:1799-1813 | On non-negative counters, `-` is multiset difference. |
| Counters.UnionIsMultisetMax | traffic_analyser.py:1815-1830 | `\|` takes the larger multiplicity of every element. |
| Counters.IntersectIsMultisetIntersection | traffic_analyser.py:1832-1849 | `&` is multiset intersection. |
| Counters.ElementsCount | traffic_analyser.py:1704-1720 | The element multiset holds each key as often as its positive count. |
| Counters.MostCommon | traffic_analyser.py:1692-1702 | `most_common()` lists every (key, count) pair exactly once, with its count, in non-increasing count order. |
| Counters.SumInc | traffic_analyser.py:1689-1690 | An increment raises the total of a counter by exactly 1. |
| Sorting.SortBySorts | traffic_analyser.py:931-934 | `sorted(..., key=itemgetter(1), reverse=True)` gives a non-increasing rearrangement of its input. |
| CountStore.DictAddEffect | traffic_analyser.py:814-829 | `dict_add` adds the key if needed and raises its count by 1. It bumps its own date tree and leaves its co-occurrence counter and every other entity unchanged. |
| CountStore.BumpTreeEffect | traffic_analyser.py:821-829 | The date's count and the hour's count each rise by 1. The bucket `minute[0]` rises by 1 only when ten-minute counting is on. No other date, hour or bucket changes. |
| CountStore.AddCoEffect | traffic_analyser.py:887-888 | A co-occurrence increment raises that one request or ip by 1 in that entity's counter. Its count, its tree and the other entities stay the same. |
| CountStore.TreeStep | traffic_analyser.py:831-841 | A tree bump keeps every date the sum of its hours and every hour the sum of its buckets. It raises the tree's total by 1. |
| CountStore.RecordStep | traffic_analyser.py:903-911 | Folding one record keeps every entity consistent: its count is the sum of its dates. It raises the store's total by 1. |
| CountStore.RecordIsDictAddThenAddCo | traffic_analyser.py:885-888 | Folding a record is `dict_add` followed by the co-occurrence increment. |
| CountStore.EmptyOk | traffic_analyser.py:698-753 | The fresh records satisfy the invariants, with total 0. |
| CountStore.CompactStep | traffic_analyser.py:898-900 | Compact mode raises each flat counter's total by exactly 1. |
| Evaluator.InitialState | traffic_analyser.py:767-780 | The overall tree exists unless ipmatch or rmatch is on. The store is keyed by request under `--request`/`--rmatch`, by ip under `--ip`/`--ipmatch`, and is otherwise the flat compact pair. Everything starts empty. |
| Evaluator.InitialConsistent | traffic_analyser.py:757-780 | The initial store satisfies the conservation invariants. |
| Evaluator.FirstField | traffic_analyser.py:868 | `line.split()[0]` is a non-empty run of non-whitespace. It is missing exactly when the line is all whitespace, which raises IndexError. |
| Evaluator.ContainsIsSubstring | traffic_analyser.py:892 | `x in requests` holds exactly when x occurs at some offset. |
| Evaluator.FirstFieldNewline | traffic_analyser.py:868 | A final newline does not change `line.split()[0]` or whether it raises. |
| Evaluator.EvaluateNewline | traffic_analyser.py:843-916 | With searches that ignore a final newline, a line with a final newline is evaluated exactly as the line without it: same time, same store, same error. |
| Evaluator.EvaluateFinds | traffic_analyser.py:847-916 | A time that fails to parse is an error. Otherwise a time is returned exactly when both searches match and the parsed time is in the window. A line that returns no time leaves the store unchanged. |
| Evaluator.WindowBoundsInclusive | traffic_analyser.py:866 | Both ends of the window are inside it. |
| Evaluator.FoldMatchMode | traffic_analyser.py:877-895 | In ipmatch/rmatch mode there is no overall tree. The store total grows by 1 exactly when the key is listed (ipmatch) or some argument is a substring of the request (rmatch). |
| Evaluator.FoldCompact | traffic_analyser.py:898-900 | Compact mode raises `ip[ip]` and `request[requests]` by 1 each, and changes nothing else in either counter. |
| Evaluator.FoldCounted | traffic_analyser.py:876-911 | Outside the match modes, the overall tree total grows by 1. In the detailed modes the store total grows by 1, as do the key's count and its co-occurrence entry (`ip[ip]` under `--request`, `get_post[requests]` under `--ip`). |
| Evaluator.FoldKeepsConsistent | traffic_analyser.py:870-911 | Every fold keeps the store and the overall tree consistent. |
| Evaluator.EvaluateKeepsConsistent | traffic_analyser.py:843-916 | Evaluating any line keeps the store consistent. |
| Evaluator.SingleOptionFolds | traffic_analyser.py:199-219 | With the single data option the argument checks allow, no fold fails with a missing record field. |
| Evaluator.CombinedOptionsFail | traffic_analyser.py:897-900 | `--ip` together with `--compact` builds a per-ip store and takes the compact branch, which fails with a missing record field. |
| Counters.IncCommutes | traffic_analyser.py:898-900 | Two `Counter` increments give the same counter in either order. |
| CountStore.BumpTreeCommutes | traffic_analyser.py:831-841 | Two bumps of a date tree give the same tree in either order, whatever their dates, hours and buckets. |
| CountStore.RecordCommutes | traffic_analyser.py:814-829 | Two `dict_add`-plus-co-occurrence records give the same entity store in either order, for the same or different keys. |
| Order.FoldOkByShape | traffic_analyser.py:870-911 | Whether a fold raises depends only on the store's shape and the options, not on the counts. |
| Order.EvaluateByShape | traffic_analyser.py:843-916 | Whether a line raises, and the time it returns, depend only on the store's shape, not on the counts. |
| Order.FoldCommutes | traffic_analyser.py:870-911 | Two folds that succeed on a store succeed one after the other, and give the same store in either order. |
| Order.EvaluateCommutes | traffic_analyser.py:843-916 | Two lines that evaluate on a store evaluate one after the other, and leave the same store in either order. |
| Order.ScanWithoutExit | traffic_analyser.py:989-1001 | Without the early exit, a file's scan fails exactly when evaluating its lines in turn fails. Otherwise it leaves that store. |
| Order.EvaluateAllReverse | traffic_analyser.py:989-1017 | Evaluating the lines in reverse order gives the same store. |
| Order.WithinTimesReverse | traffic_analyser.py:1004-1017 | The in-window times of the reversed lines are the in-window times of the lines, reversed. |
| Order.ReadOrderIrrelevant | traffic_analyser.py:989-1017 | A read without the early exit, over the lines in either direction: a scan of the lines and a scan of them reversed both succeed or both fail. If they succeed they leave the same store and hit count, and return the same times in reverse order. |
| Order.ScanChomped | traffic_analyser.py:989-1001 | With searches that ignore a final newline, a scan of lines without their newlines is the scan of the lines: same result, same cursor. |
| Order.FileDirectionIrrelevant | traffic_analyser.py:989-1017 | With searches that match no empty line and ignore a final newline, a file read forwards with `--complete` and the same file read by the reverse reader without the exit both succeed or both fail. If they succeed they leave the same store and the same hit count. |
| Analyser.AnalyseLogs.constructor | traffic_analyser.py:757-780 | `__init__` gives the initial store for the options, a zero hit count and no per-file counts. The object keeps the window it was built for, and every scan method requires the scan to use that window. The invariant holds. The ten-minute flag is the one `ten_min_interval` computes: `--ten on` always keeps the buckets, `--ten off` never does, and without `--ten` they are kept exactly when the window spans less than 21600 seconds. |
| Analyser.AnalyseLogs.DictAdd | traffic_analyser.py:814-829 | The in-place nested updates leave the store equal to the `dict_add` function of the old store. Nothing else changes. |
| Analyser.AnalyseLogs.DictDateAdd | traffic_analyser.py:831-841 | The in-place update of the overall tree is the unconditional bump of date, hour and bucket. |
| Analyser.AnalyseLogs.AddCo | traffic_analyser.py:887-888 | A co-occurrence increment updates only that entity's counter. |
| Analyser.AnalyseLogs.EvaluateLine | traffic_analyser.py:843-916 | The result and the new store are those of the evaluator function: the same time, the same error, the same store. |
| Analyser.AnalyseLogs.FoldRecord | traffic_analyser.py:870-911 | The branch dispatch leaves the store equal to the fold function's result. It fails exactly when that function raises. |
| Analyser.AnalyseLogs.TallyHit | traffic_analyser.py:964-1017 | A hit raises the hit count. Backwards it sets the first time and fills the last time when unset; forwards it does the opposite. The exit fires exactly on the strategy's bound test. |
| Analyser.AnalyseLogs.ScanLog | traffic_analyser.py:953-1017 | The line loop of one file ends in the state, hit count and first/last times of the scan function. It fails exactly when that function does. |
| Analyser.AnalyseLogs.GetDataFromLogs | traffic_analyser.py:918-1030 | The file loop ends in the state, per-file hit counts and first/last times of the scan specification over the newest-first order. It keeps the invariants. |
| Scan.StrategyOf | traffic_analyser.py:951-1005 | `.gz` files are read forwards with the `>= end` exit. Only `--complete` on a plain file reads without an exit. Reading is backwards exactly when the file is plain and neither `--top` nor `--complete` is given. |
| Scan.CompleteNeverStops | traffic_analyser.py:989-1001 | The complete strategy never stops early. |
| Scan.StopsOnlyAtBound | traffic_analyser.py:964-1017 | When the scan stops early, the stopping record's time equals the window's start (backwards) or end (forwards), since only in-window times are tested. |
| Scan.HitsCounted | traffic_analyser.py:964-1017 | The hit count grows by exactly the number of in-window times of the lines, counted up to and including the first one that fires the early exit. |
| Scan.TimesTracked | traffic_analyser.py:964-1015 | Of those times, the moving end (first time backwards, last time forwards) is the latest in reading order. The fixed end is the earliest in reading order if it was unset. |
| Scan.UpToExit | traffic_analyser.py:1011-1017 | The cut keeps a prefix of the times in which only the last may fire the exit, and it ends at a time that fires it whenever it drops anything. |
| Scan.Within | traffic_analyser.py:866 | Only times inside the closed window are kept. |
| Scan.EmptyLinesIgnored | traffic_analyser.py:1058-1069 | Empty lines never match, so an empty line yielded by the reverse reader changes nothing. |
| Scan.ScanCounts | traffic_analyser.py:953-1017 | A file's scan keeps the store consistent. Outside the match modes, the overall tree total grows by exactly the hit count. |
| Scan.HitCounted | traffic_analyser.py:876-879 | Outside the match modes, a line that returns a time adds exactly 1 to the overall tree. |
| Scan.ScanFilesConsistent | traffic_analyser.py:951-1021 | Scanning all files keeps the invariants. It records a hit count for every scanned file and leaves the other counts alone. |
| Scan.ScanFilesTotal | traffic_analyser.py:1019-1021 | With distinct file names and outside the match modes, the overall tree total grows by the sum of the recorded per-file hit counts. |
| Scan.ScanOrderNewestFirst | traffic_analyser.py:931-934 | Unless selected by the caller, the files are ordered by non-increasing modification time. Every file appears exactly once. |
| Scan.ScanLinesAppend | traffic_analyser.py:953-1017 | Scanning a concatenation scans the first part, then carries on from its cursor unless it failed or stopped. |
| Scan.SameSecondDropped | traffic_analyser.py:1011-1017 | As written, two lines stamped with the window's start and read backwards give 1 hit, where a backward read without the exit gives 2. By `Order.FileDirectionIrrelevant`, for searches that match no empty line and ignore a final newline, that read leaves the store and count of the forward `--complete` read of the same file. |
| Scan.SameSecondExample | traffic_analyser.py:1011-1017 | A concrete log of two lines in a one-second window gives 1 hit with the early exit and 2 with the corrected exit. |
| Scan.ScanLinesFixed | traffic_analyser.py:1011-1017 | The corrected exit applies to lines whose time parses but lies past the window's far bound. |
| Scan.FixedMatchesFullRead | traffic_analyser.py:989-1001 | On a log in reading order, the corrected early exit ends in exactly the cursor of a read without the exit in the same direction. By `Order.ReadOrderIrrelevant` its store and hit count are those of a read in the other direction over the same lines. |
| Lines.SplitJoin | traffic_analyser.py:1050 | `split('\n')` contains no newlines, and joining with newlines restores the text. |
| Lines.SplitAppend | traffic_analyser.py:1050-1060 | The pieces of a concatenation fuse the last piece of the first part with the first piece of the second. |
| Lines.ForwardLinesConcat | traffic_analyser.py:974-975 | Forward line iteration concatenates back to the file. |
| Lines.ForwardLinesShape | traffic_analyser.py:974-975 | Every forward line is non-empty, and every one but the last ends with its only newline. |
| Lines.ForwardLinesChomped | traffic_analyser.py:1038-1069 | The forward lines without their newlines, less the empty ones, are the non-empty fragments between newlines, in the same order. |
| Lines.SplitLineThen | traffic_analyser.py:1038-1069 | A line without newlines, a newline and a rest split into that line followed by the fragments of the rest. |
| Lines.ForwardLastLine | traffic_analyser.py:974-975 | A text has forward lines exactly when it is non-empty. The last line has no newline before its final character, and it ends with a newline exactly when the text does. |
| Lines.NonEmptyReverse | traffic_analyser.py:1064-1066 | Dropping empty lines commutes with reversal. |
| ReverseReader.ReverseReadline | traffic_analyser.py:1038-1069 | For any content and buffer size > 0, the yielded lines, reversed and without empty strings, are the non-empty newline-separated pieces of the file in order. An empty file yields nothing. |
| ReverseReader.ChunkStep | traffic_analyser.py:1044-1066 | One buffer: the segment carry (joined, or yielded first at a line boundary) keeps the round-trip invariant for the file suffix read so far. |
| ReverseReader.YieldChunkLines | traffic_analyser.py:1064-1066 | The inner loop yields the buffer's non-empty pieces after the first, from last to first. |
| Report.IpReqNumberArgs | traffic_analyser.py:669-695 | The numbers come from the first option set, with `--request` swapping the positions. The ip number is missing exactly in the ipmatch branch, and the request number exactly in the rmatch branch. Without `--nogeo` the ip number never exceeds 30. A geo limit is recorded exactly when a number above 30 was lowered. |
| Report.RequestOrderSwapped | traffic_analyser.py:675-677 | `--request a b` asks for a requests and b ip's. |
| Report.Take | traffic_analyser.py:1428-1429 | `xs[:n]` is a prefix with min(n, len) entries. A negative n drops the last -n entries. |
| Report.Remainder | traffic_analyser.py:1381-1384 | The remainder is `len - n` when that is positive and 0 otherwise. |
| Report.ShownPlusRemainder | traffic_analyser.py:1381-1391 | The shown entries plus the remainder equal the whole listing exactly when n >= 0. |
| Report.TopDominates | traffic_analyser.py:1462-1467 | In a listing sorted by count, every shown entry counts at least as much as every hidden one. |
| Report.NegativeIpNumberEvadesCap | traffic_analyser.py:689-692 | As written, `--compact -1 10` with 32 ip's lists 31 ip's for geo lookup, above the cap of 30. The remainder then reads 33. |
| Report.IpReqNumberArgsFixed | traffic_analyser.py:689-692 | The corrected numbers are never negative, the ip number stays within 30 without `--nogeo`, and they agree with the as-written numbers wherever those are not negative. |
| Report.IpListing | traffic_analyser.py:1425-1429 | `print_ip` lists a prefix of the sorted records: all of them in ipmatch mode, and otherwise exactly the first `ip_no` of them (all of them when fewer), so at most 30 without `--nogeo`. |
| Report.RequestListing | traffic_analyser.py:1460-1467 | `print_request` lists a prefix of the sorted records: all of them in rmatch mode. Otherwise it lists `min(n, len)` records for the request number `n`. |
| Report.GeoListingBounded | traffic_analyser.py:1468-1480 | The ip's listed under one entity never exceed 30 without `--nogeo`. With the remainder they cover all of that entity's ip's. |

## Left out

- Command-line parsing (`CmdArgs`): optparse, help text and `parser.error`. `Opts` and `NumberOpts` are taken as given. The evaluator does not rely on the single data option the argument checks enforce: a combination they would reject ends in `MissingRecordField` when the store lacks the field the branch reads (`Evaluator.SingleOptionFolds`, `Evaluator.CombinedOptionsFail`).
- Host and file discovery (`get_httpd_type`, `socket_number`, `httpd_port_number`, `get_log_files`) and `filesize`: these read `/proc` and the file system, and format floats.
- `calculate_start_time` and the "now" of `start_end_dates`: these read the clock. "Now" is a parameter of `SingleDateWindow`. The other window branches are not part of this model.
- All console rendering in `PrintData` (colours, columns, `print_10min`, `print_hour`, `print_date_logs`) and the geo lookup `ip_api` (HTTP, DNS, `sleep`). Only the listing numbers are modelled.
- File access: gzip decompression, real seeks in `reverse_readline` (the file is an in-memory string), the lazy generators, the progress line written to stdout and its `sleep(1)`.
- The regular-expression engine: the two searches are the `Patterns` inputs. The scan assumes that the date search does not match an empty line, which the real pattern (at least 18 characters) guarantees. Comparing a forward read with a backward read also assumes both searches return the same match on a line with or without its final newline (`Evaluator.BlindToLineEnd`). The real patterns (traffic_analyser.py:799-806) guarantee this: the date pattern matches no newline, and the request pattern ends in three digits.
- `Counters.Elements`, `&` and `most_common(n)`: the source versions rely on `repeat`, `ifilter` and `nlargest`, which it never imports. They are modelled by their intended multiset meaning. `fromkeys`, `copy`, `__delitem__` and `__repr__` are not part of this model.
- Counters.MostCommon: the order among equal counts comes from hash order and Python's sort. It is left unspecified, and the function is ghost because it chooses keys.
- Scan.ScanOrderNewestFirst: files with the same modification time are scanned in reverse input order, where the source keeps the unspecified order of the `last_modified` dict. Which of such files sets the first and last recorded times is therefore a choice of this model.
- The store kept after an exception: the run ends at that point, so its partial store is not observable.
- Analyser.AnalyseLogs.EvaluateLine: on an error result its contract does not say what the store holds, since the run then ends.
- The three forward loops of `get_data_from_logs` and the backward loop are one loop parameterised by a `Strategy` (direction and early exit). The one-pass `while True: for ... else: break` wrapper is modelled as a single pass over the files.
- Python-level string identity in `buffer[-1] is not '\n'` is modelled as character inequality. Integer widths do not arise: Python integers are unbounded.
- Report.IpListing, Report.RequestListing, Report.GeoListingBounded: these use the corrected, non-negative numbers of `Report.IpReqNumberArgsFixed`. The as-written behaviour for negative numbers is stated by `Report.NegativeIpNumberEvadesCap` and `Report.ShownPlusRemainder`.

## Findings

| source | as written | input that shows it | evidently intended | confidence | as-written member | corrected member |
|---|---|---|---|---|---|---|
| traffic_analyser.py:964-1017 | The early exit tests `<= start` (backwards) or `>= end` (forwards) only on times `evaluate_line` returned, which are in the window. So the exit fires on the first record stamped exactly at the bound, and drops the later-read records of that same second. | A window of one second, 01/Jan/2020:00:00:00, and a log whose two last lines both carry that second, read backwards in compact mode: 1 hit, where 2 are in the window. | Stop at the first line whose time lies beyond the window (before the start backwards, after the end forwards). That counts every in-window record of an ordered log. | not executed | Scan.SameSecondDropped, Scan.SameSecondExample | Scan.ScanLinesFixed, Scan.FixedMatchesFullRead |
| traffic_analyser.py:689-692 | The geo cap only lowers numbers above 30, and nothing checks the sign. `[:n]` with a negative n keeps all but the last -n ip's, each sent to the geo lookup. The remainder `len - n` then exceeds the list. | `--compact -1 10` with 32 distinct ip's: 31 geo lookups and "... and 33 more". | At most 30 lookups, with shown plus remainder equal to the list: a negative number asks for none. | not executed | Report.NegativeIpNumberEvadesCap, Report.ShownPlusRemainder | Report.IpReqNumberArgsFixed, Report.GeoListingBounded |
