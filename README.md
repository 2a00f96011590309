# log_analyze, modelled in Dafny

`log_analyze(file, threshold, output_csv, top_n)` reads a web-server access
log line by line. On each line it searches for five fixed patterns:
- a dotted-quad client address;
- a quoted request line, of which it keeps the path;
- a failed-login marker (`401` or `Invalid credentials`);
- a `DD/Mon/YYYY:HH` date fragment;
- a whitespace-delimited three-digit status code.

The loop keeps the addresses, paths and parsed hours in lists. It counts
failed attempts per address and status codes in two Counters, updated in
place. After the loop it builds four things:
- the Counters of requests per address, per path and per hour of the day;
- the most requested path;
- the addresses whose failed attempts exceed the threshold;
- the top-N views.

It then writes a five-section CSV report. An exception anywhere ends the
run with an error message. That includes a date fragment that `strptime`
rejects, and an empty hourly trend at the unpacking on line 65.

The project is organised by layer:

| module | file | what it holds |
|---|---|---|
| `Options` | `options.dfy` | `Option` and `Result` |
| `Text` | `text.dfy` | character classes (ASCII digits and word characters, Python's Unicode whitespace), word boundaries, maximal runs, and the generic leftmost `Search` of a matcher over a line |
| `Scanners` | `scanners.dfy` | the five pattern matchers, written as scanners at one start position. For the IP and endpoint patterns, a declarative predicate of what the pattern matches and a proof that the scanner agrees with it in both directions |
| `Timestamps` | `timestamps.dfy` | what `strptime(fragment, '%d/%b/%Y:%H')` accepts (English month abbreviations in any case, Gregorian month lengths, year at least 1, hour 00-23) and the hour it returns |
| `Counters` | `counters.dfy` | `collections.Counter` as a sequence of (key, count) entries in first-seen order. It has `Counter(xs)`, `c[k] += 1` (pure, and as the in-place `class Counter`), the stable `most_common(n)`, and the threshold filter of line 49 |
| `Aggregation` | `aggregation.dfy` | the loop of lines 22-43 in two forms. `Accumulate` is a method with a `while` loop over `Counter` objects. `Fold` of the loop body over each line's `Extract`ed fields specifies it. Also here: what the loop collects, and how it counts lines |
| `Report` | `report.dfy` | the values derived after the loop, `sorted(hourly_trend.items())`, and the rows of the CSV report with a reader that splits them back into sections |
| `Analyzer` | `analyzer.dfy` | the whole run as an `Outcome` (failed, or completed with its summary and rows), and the properties of a completed run |

## Model

| member | source | states |
|---|---|---|
| Analyzer.LogAnalyze | Log_analysis_script.py:8-128 | running the loop on in-place Counters, then deriving the summary, then the line-65 guard, then the report, gives exactly the outcome `Analyze` specifies |
| Analyzer.Analyze | Log_analysis_script.py:8-128 | an empty log ends with the empty-hourly-trend error, before any row is written. A strptime failure names a fragment that the date pattern found on one of the lines and that strptime rejects |
| Analyzer.AnalyzeFields | Log_analysis_script.py:22-121 | a completed run went through the whole loop without an exception, has a non-empty hourly trend and writes the report of its summary. The line-65 error is raised only after a completed loop that collected no hour |
| Analyzer.AnalyzeFails | Log_analysis_script.py:22-128 | a run fails exactly when some date fragment is rejected or no line has a date fragment. It fails at line 65 exactly when no line has one. A strptime failure reports the first rejected fragment |
| Analyzer.RunOnLines | Log_analysis_script.py:35-65 | the same, stated on the raw lines: fails at line 65 iff no line matches the date pattern; fails iff that happens or some line's fragment is rejected |
| Analyzer.CompletedCounts | Log_analysis_script.py:45-54 | a completed run holds `Counter(ips)`, `Counter(endpoints)`, the hour Counter, the status Counter, the threshold filter of the failed attempts and the two top-N views of what the lines contain, and its rows are the report of that summary |
| Analyzer.LineCounts | Log_analysis_script.py:22-50 | in a completed run, each entry of `ip_count`, `ep_count`, `errors` and `hourly_trend` is the number of lines contributing that value. The sum of each Counter is the number of lines that match the pattern. A failed attempt for an address is a line with the failure marker and that address |
| Analyzer.HourlyTrend | Log_analysis_script.py:50-65 | in a completed run the hourly trend has keys 0..23, counts equal to occurrences, a total equal to the number of parsed hours (at least one), and sorted rows strictly ascending by hour |
| Analyzer.HourlyTrendOnLines | Log_analysis_script.py:50-65 | the same hourly-trend facts for a completed run on raw lines, with the hours those lines contain |
| Analyzer.HourCounts | Log_analysis_script.py:50 | the Counter of hours bounded by 23: keys bounded, counts equal to occurrences, total equal to the number of hours, and its sorted items strictly ascending by hour |
| Analyzer.SuspiciousIps | Log_analysis_script.py:31-49 | `suspicious_ips` has distinct keys in first-seen order. It is a subsequence of the failed-attempt Counter and holds an address, with its count, exactly when the count exceeds the threshold. Each of its addresses is a key of `ip_count`, and `failed_attempts[ip] <= ip_count[ip]` |
| Analyzer.MostRequestedEndpoint | Log_analysis_script.py:46-48 | `most_ep` is present iff some line has an endpoint. It is then the first endpoint, in first-seen order, with the largest count, and `most_ep_count` is its number of occurrences |
| Analyzer.TopEndpointRow | Log_analysis_script.py:105-106 | the Top Endpoint section has one data row when some line has an endpoint, and none otherwise |
| Analyzer.TopEndpointRowOnLines | Log_analysis_script.py:105-106 | for a completed run on raw lines, the Top Endpoint section has one data row exactly when some line has an endpoint |
| Analyzer.EndpointsAreTokens | Log_analysis_script.py:27-29 | every collected endpoint is non-empty, so `if most_ep:` is true whenever an endpoint exists |
| Aggregation.Accumulate | Log_analysis_script.py:18-43 | the loop, with two `Counter` objects incremented in place, ends in the state (or the exception) that `Fold` of the loop body over the lines' fields gives |
| Aggregation.ScanLine | Log_analysis_script.py:23-43 | one iteration extends the lists and Counters as `Step` does on that line's fields. On a rejected date fragment it raises the error that ends the whole loop |
| Aggregation.Step | Log_analysis_script.py:23-43 | one iteration raises exactly when the line's date fragment is rejected, naming that fragment. Otherwise the three lists only grow, `failed_attempts[ip]` grows by one exactly for a failure line with address ip, and `errors[code]` by one exactly for a line with status code |
| Aggregation.Fold | Log_analysis_script.py:22-43 | the loop completes iff no date fragment is rejected. The lists are then the lines' addresses, paths and hours in order, and each Counter entry is the number of times its key was appended |
| Aggregation.ReadDate | Log_analysis_script.py:35-37 | a line is undated iff the date pattern does not match. A found fragment gives `Dated(HH)` exactly when its day, month, year and hour form a valid date (`StampHour`), and otherwise `Unparsable` carrying that fragment. A parsed hour is at most 23 |
| Aggregation.Extract | Log_analysis_script.py:23-41 | the fields one iteration reads from a line have the shapes the patterns force: an hour of at most 23, a non-empty path without whitespace, a status of three characters |
| Aggregation.Scan | Log_analysis_script.py:22 | the loop visits one line per entry: there are as many fields as lines |
| Aggregation.FoldMeaning | Log_analysis_script.py:22-43 | the loop completes iff no date fragment is rejected, and its state is then every address, path, hour, failed attempt and status the lines contain. Otherwise it ends on the first rejected fragment |
| Aggregation.FoldValue | Log_analysis_script.py:22-43 | the Counters built by `c[k] += 1` inside the loop are, entry for entry and in order, `Counter` of the failed-attempt addresses and `Counter` of the status codes; the lists are the collected values |
| Aggregation.FoldFirstError | Log_analysis_script.py:35-37 | a failed loop reports the first rejected fragment |
| Aggregation.FoldErrPersists | Log_analysis_script.py:35-37 | once a line raises, no later line changes the outcome |
| Aggregation.ScanAt | Log_analysis_script.py:22 | the extracted fields are one entry per line, in order |
| Aggregation.CollectCount | Log_analysis_script.py:22-43 | a value occurs in a collected column once for every line that contributes it |
| Aggregation.CollectSize | Log_analysis_script.py:22-43 | a column has one entry for every line that matches its pattern |
| Aggregation.HoursCount | Log_analysis_script.py:35-38 | hour h occurs once for every line whose date parses with hour h |
| Aggregation.ColumnCounter | Log_analysis_script.py:41-46 | the Counter of a column counts each value once per contributing line, and its total is the number of matching lines |
| Aggregation.HourCounter | Log_analysis_script.py:50 | the hour Counter counts each hour once per line dated at that hour, and its total is the number of dated lines |
| Aggregation.ColumnCounts | Log_analysis_script.py:22-50 | when every date fragment parses, each Counter entry of the address, path, status and hour columns is the number of lines contributing that value, each total is the number of matching lines, and an address's failed attempts are the failure lines with that address |
| Aggregation.FailedAreRequests | Log_analysis_script.py:23-32 | the failed-attempt addresses form a sub-multiset of the requesting addresses |
| Aggregation.SuspiciousAreRequesters | Log_analysis_script.py:31-49 | every address over the threshold is a key of `ip_count` |
| Aggregation.SuspiciousMeaning | Log_analysis_script.py:31-49 | the addresses over the threshold are a subsequence of the failed-attempt Counter with distinct keys and counts above the threshold. An address is held, with its count, iff its failed attempts exceed the threshold, and its failed attempts never exceed its requests |
| Aggregation.HoursBounded | Log_analysis_script.py:37-38 | every collected hour is 0..23 |
| Aggregation.HoursBoundedOnLines | Log_analysis_script.py:37-38 | every hour collected from the raw lines is 0..23 |
| Aggregation.ScanWellFormed | Log_analysis_script.py:13-16 | every line's fields satisfy the pattern shapes: an hour of at most 23, a non-space non-empty path, and a status of three characters |
| Report.MostRequestedOf | Log_analysis_script.py:48 | on `Counter(xs)`, `most_common(1)[0]` exists iff xs is non-empty. It is then entry k: a value of xs, with its number of occurrences, which is the maximum, and no earlier entry reaches it |
| Report.MostRequested | Log_analysis_script.py:48 | `most_common(1)[0] if ep_count else (None, 0)`: present iff the Counter is non-empty, and then an entry of it whose count no entry exceeds |
| Report.Summarize | Log_analysis_script.py:45-54 | `most_ep` is present iff some endpoint was collected, and is one of them. The Counters total the numbers of addresses, paths and hours collected. The top-N views are no longer than their Counters |
| Report.SummaryMostEp | Log_analysis_script.py:46-48 | `most_ep` is present iff some endpoint was collected. It is then the first path, in first-seen order, with the largest count, and `most_ep_count` is its number of occurrences |
| Report.MostCommonFirst | Log_analysis_script.py:48 | on a non-empty Counter, the entry returned is the first one of maximal count |
| Report.SortPairsMeaning | Log_analysis_script.py:111 | `sorted(items)` is a permutation of the items in lexicographic order |
| Report.SortPairsAscending | Log_analysis_script.py:111 | on distinct hours the sorted rows are strictly ascending by hour |
| Report.SortPairs | Log_analysis_script.py:111 | `sorted(hourly_trend.items())` has the same entries as the items, with the same multiplicities |
| Report.PairRows | Log_analysis_script.py:100 | `writerows` of (key, count) pairs writes one row per pair |
| Report.HourRows | Log_analysis_script.py:111 | `writerows` of (hour, count) pairs writes one row per pair |
| Report.EndpointRows | Log_analysis_script.py:105-106 | the Top Endpoint section has at most one data row. It is written iff `most_ep` is present and non-empty, and it reads back as the pair (`most_ep`, `most_ep_count`) |
| Report.ReadPairRows | Log_analysis_script.py:98-121 | `writerows` of (key, count) pairs reads back as the same pairs, in order |
| Report.ReadHourRows | Log_analysis_script.py:111 | `writerows` of (hour, count) pairs reads back as the same pairs, in order |
| Report.EndpointRowPresent | Log_analysis_script.py:103-106 | with non-empty paths, the Top Endpoint row is written exactly when there are endpoints |
| Report.ReportSplits | Log_analysis_script.py:98-121 | split at its blank rows, the report is exactly its five sections, in order |
| Report.ReportReadBack | Log_analysis_script.py:98-121 | the report reads back as five sections, each with the titles and headers of lines 98-120. Their data rows are the top IPs, the most requested endpoint (when truthy), the sorted hourly trend, the status counts and the suspicious IPs |
| Report.ReportRows | Log_analysis_script.py:98-121 | the report has the five titles, headers and blank separators (fourteen rows) plus one row per top IP, per most requested endpoint, per hour, per status and per suspicious IP |
| Counters.Counter.Increment | Log_analysis_script.py:41-43 | `c[key] += 1` in place keeps distinct positive entries and performs `Bump` |
| Counters.Bump | Log_analysis_script.py:41-43 | `c[k] += 1` adds exactly one to the sum of the counts |
| Counters.BumpCount | Log_analysis_script.py:31-32 | incrementing a key adds one to its count and leaves every other count alone |
| Counters.BumpValid | Log_analysis_script.py:31-32 | incrementing keeps the keys distinct and the counts positive |
| Counters.CounterOf | Log_analysis_script.py:45-46 | the counts of `Counter(xs)` sum to the length of xs |
| Counters.CounterOfCount | Log_analysis_script.py:45-46 | `Counter(xs)[k]` is the number of occurrences of k in xs |
| Counters.CounterOfMeaning | Log_analysis_script.py:45-50 | `Counter(xs)` has distinct keys, exactly the values of xs, in order of first appearance, with positive counts equal to occurrences summing to the length of xs |
| Counters.MostCommon | Log_analysis_script.py:54 | `most_common(n)` has `min(n, keys)` entries (none for n <= 0), is sorted by descending count, and takes its entries from the Counter |
| Counters.MostCommonMeaning | Log_analysis_script.py:54 | `most_common(n)` has `min(n, keys)` entries (none for n <= 0), descending by count. They are a sub-multiset of the entries, no entry left out has a larger count, and for each count the entries kept come in their original order |
| Counters.MostCommonOne | Log_analysis_script.py:48 | `most_common(1)` is a single entry, the first of maximal count |
| Counters.SortByCountHead | Log_analysis_script.py:48 | the head of the stable descending sort is the first entry of maximal count |
| Counters.SortByCountFacts | Log_analysis_script.py:86 | the stable descending sort is a permutation, sorted by count, keeping each count's entries in order |
| Counters.Above | Log_analysis_script.py:49 | every entry kept is an entry with count above the threshold, and every such entry is kept |
| Counters.AboveMeaning | Log_analysis_script.py:49 | the filter keeps a subsequence with distinct keys, holding a key with its count iff the count is strictly greater than the threshold |
| Counters.AboveKeys | Log_analysis_script.py:49 | the filter's keys are keys of the Counter it filters |
| Scanners.IpAtIsMatch | Log_analysis_script.py:13 | the IP scanner ends at e from i exactly when the IP pattern matches s[i..e]: four dot-separated groups of one to three digits, with a word boundary at both ends |
| Text.Search | Log_analysis_script.py:23 | `re.search` returns the first position at which the matcher succeeds, with what it matched. Nothing is returned only when it succeeds nowhere |
| Scanners.FindIp | Log_analysis_script.py:23-25 | `ip.group()` is the text of the leftmost match of the IP pattern, and is absent exactly when the pattern matches nowhere in the line |
| Scanners.EndpointAtIsMatch | Log_analysis_script.py:14 | the endpoint scanner captures path at i exactly when there is a quote, one of the six methods, one space, and path as the maximal non-space run after it |
| Scanners.FindEndpointIsLeftmost | Log_analysis_script.py:27-29 | group 1 of `re.search(endpoint_pattern, line)` comes from the leftmost match, and is absent only when there is none |
| Scanners.FindEndpoint | Log_analysis_script.py:27-29 | the captured path is a non-empty run of non-space characters |
| Scanners.MethodsExclusive | Log_analysis_script.py:14 | at most one method name matches at a position, so the alternation is deterministic |
| Scanners.HasFailure | Log_analysis_script.py:31 | `re.search(fail_pattern, log)` is truthy iff `401` or `Invalid credentials` occurs anywhere in the line |
| Scanners.FindStamp | Log_analysis_script.py:35 | the date fragment has the shape `DD/Mon/YYYY:HH` and is the leftmost such fragment. It is absent iff no position has one |
| Scanners.FindStatus | Log_analysis_script.py:41 | the status is three digits, those of the leftmost whitespace-digit-digit-digit-whitespace window. It is absent iff no such window exists |
| Timestamps.ParseHourIsValidity | Log_analysis_script.py:37 | a fragment of the date shape parses iff its month is an English abbreviation (any case), the year is at least 1, the day is within that month of that year, and the hour is at most 23. The result is then the hour |
| Timestamps.ParseHour | Log_analysis_script.py:37 | the hour returned is 0..23 |
| Timestamps.MonthNumber | Log_analysis_script.py:37 | `%b` accepts a name iff its lower-case form is one of the twelve abbreviations, and gives month 1..12 |

## Left out

- Plotting, lines 52-93, is left out because it is calls into matplotlib and seaborn. Only two things from that range are modelled: the unpacking on line 65, which raises on an empty trend, and the `most_common` calls on lines 54 and 86.
- `top_endpoints` (line 86) is computed in the summary, but it is only plotted and never written.
- Reading the file (lines 10-11) is I/O, and so is the `FileNotFoundError` branch (lines 125-126). The input is the sequence of lines, each keeping its trailing newline.
- The CSV writer's quoting and the opening of `output_csv` (lines 96-97) are I/O. The report is the sequence of rows, with cells that are strings or integers.
- The console messages (lines 123-128) are output only. So is the module-level call on lines 130-131. The exception handler of line 127 becomes the `Failed` outcome.
- `\w`, `\b` and `\d` are restricted to ASCII, so Unicode letters and digits are not word characters or digits here. `\s` and `[^\s]` use Python's full set of Unicode whitespace. `%b` is the English C locale, matched case-insensitively.
- Only the hour of the `datetime` object is kept, because nothing else of it is used.
- The regular-expression engine itself is not modelled. Each pattern is a hand-written scanner, and the IP and endpoint scanners are proved equal to declarative readings of their patterns.
- Defaults of the parameters (`threshold=10`, `top_n=5`) and the name of the output file are not modelled. The model takes `threshold` and `top_n` as inputs. `output_csv` is not modelled, because no file is written.
- A date fragment that `strptime` rejects is not skipped. Its ValueError leaves the loop and ends the run at line 127.
- A log with no parsed date fails at line 65, before any row is written. No header-only report is produced.
- The last section has no trailing blank row. The Top Endpoint section holds only `most_ep`, not a top-N list.
