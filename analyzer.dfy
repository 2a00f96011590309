/**
 * `log_analyze` as a whole: the loop, the values derived from its state, the
 * unpacking of the hourly trend (line 65, which raises on an empty trend),
 * and the rows of the CSV report. The exception handlers of lines 125-128
 * become the `Failed` outcome.
 */
module Analyzer {
  import opened Options
  import opened Counters
  import opened Aggregation
  import opened Report
  import Scanners

  /** How a run ends: on an exception, or with the report written. */
  datatype Outcome =
    | Failed(error: RunError)
    | Completed(summary: Summary, rows: seq<Row>)

  /** The run on the fields of the lines. */
  function AnalyzeFields(fs: seq<Fields>, threshold: int, topN: int): (r: Outcome)
    ensures r.Completed? ==> Fold(fs).Ok? && r.summary.hourly != [] && r.rows == ReportRows(r.summary)
    ensures r == Failed(EmptyHourlyTrend) ==> Fold(fs).Ok? && HoursOf(fs) == []
  {
    match Fold(fs)
    case Err(e) => Failed(e)
    case Ok(t) =>
      var s := Summarize(t, threshold, topN);
      if s.hourly == [] then Failed(EmptyHourlyTrend) else Completed(s, ReportRows(s))
  }

  /** `log_analyze(file, threshold, output_csv, top_n)` on the lines of the file. */
  function Analyze(lines: seq<string>, threshold: int, topN: int): (r: Outcome)
    ensures lines == [] ==> r == Failed(EmptyHourlyTrend)
    ensures r.Failed? && r.error.BadTimestamp? ==>
      exists j :: 0 <= j < |lines| && ReadDate(lines[j]) == Unparsable(r.error.stamp)
  {
    ScanDates(lines);
    FoldMeaning(Scan(lines));
    AnalyzeFields(Scan(lines), threshold, topN)
  }

  /** Lines 8-128, with the loop run on Counters updated in place. */
  method LogAnalyze(lines: seq<string>, threshold: int, topN: int) returns (o: Outcome)
    ensures o == Analyze(lines, threshold, topN)
  {
    var r := Accumulate(lines);
    if r.Err? {
      return Failed(r.error);
    }
    var s := Summarize(r.value, threshold, topN);
    if s.hourly == [] {
      return Failed(EmptyHourlyTrend);
    }
    o := Completed(s, ReportRows(s));
  }

  lemma {:induction false} HoursOfEmpty(fs: seq<Fields>)
    ensures HoursOf(fs) == [] <==> forall j :: 0 <= j < |fs| ==> !fs[j].date.Dated?
  {
    if fs != [] {
      var init := fs[..|fs| - 1];
      HoursOfEmpty(init);
      assert forall j :: 0 <= j < |init| ==> init[j] == fs[j];
    }
  }

  /**
   * A run fails exactly when some date fragment is rejected (the first one is
   * reported) or no line has a date at all (line 65 has nothing to unpack).
   */
  lemma AnalyzeFails(fs: seq<Fields>, threshold: int, topN: int)
    ensures AnalyzeFields(fs, threshold, topN).Failed? <==>
      (exists j :: 0 <= j < |fs| && fs[j].date.Unparsable?) || (forall j :: 0 <= j < |fs| ==> fs[j].date.Undated?)
    ensures AnalyzeFields(fs, threshold, topN) == Failed(EmptyHourlyTrend) <==>
      forall j :: 0 <= j < |fs| ==> fs[j].date.Undated?
    ensures AnalyzeFields(fs, threshold, topN).Failed? && AnalyzeFields(fs, threshold, topN).error.BadTimestamp? ==>
      exists k: nat :: FirstUnparsable(fs, k) &&
        AnalyzeFields(fs, threshold, topN).error == BadTimestamp(fs[k].date.stamp)
  {
    FoldMeaning(fs);
    HoursOfEmpty(fs);
    if Fold(fs).Ok? {
      CounterOfKeys(Fold(fs).value.hours);
      if Fold(fs).value.hours != [] {
        assert Fold(fs).value.hours[0] in Keys(CounterOf(Fold(fs).value.hours));
      }
    }
  }

  /** A completed run counts every address, path, hour and status the lines contain. */
  lemma CompletedCounts(fs: seq<Fields>, threshold: int, topN: int)
    requires AnalyzeFields(fs, threshold, topN).Completed?
    ensures var s := AnalyzeFields(fs, threshold, topN).summary;
      && s.ipCount == CounterOf(IpsOf(fs))
      && s.epCount == CounterOf(EndpointsOf(fs))
      && s.hourly == CounterOf(HoursOf(fs))
      && s.errors == CounterOf(StatusesOf(fs))
      && s.suspicious == Above(CounterOf(FailedIpsOf(fs)), threshold)
      && s.topIps == MostCommon(s.ipCount, topN)
      && s.topEndpoints == MostCommon(s.epCount, topN)
      && AnalyzeFields(fs, threshold, topN).rows == ReportRows(s)
  {
    FoldMeaning(fs);
  }

  /**
   * The Counters of a completed run, value by value: `ip_count[x]`,
   * `ep_count[x]`, `errors[x]` and `hourly_trend[h]` are the numbers of lines
   * contributing x (or a date with hour h), and their totals the numbers of
   * lines with a match (every date fragment parses in a completed run); a
   * failed attempt for x is a line with the failure marker whose address is x.
   */
  lemma LineCounts(fs: seq<Fields>, threshold: int, topN: int)
    requires AnalyzeFields(fs, threshold, topN).Completed?
    ensures var s := AnalyzeFields(fs, threshold, topN).summary;
      && (forall x :: Count(s.ipCount, x) == |Where(fs, (f: Fields) => Found(f, IpColumn) == Some(x))|)
      && Total(s.ipCount) == |Where(fs, (f: Fields) => Found(f, IpColumn).Some?)|
      && (forall x :: Count(s.epCount, x) == |Where(fs, (f: Fields) => Found(f, EndpointColumn) == Some(x))|)
      && Total(s.epCount) == |Where(fs, (f: Fields) => Found(f, EndpointColumn).Some?)|
      && (forall x :: Count(s.errors, x) == |Where(fs, (f: Fields) => Found(f, StatusColumn) == Some(x))|)
      && Total(s.errors) == |Where(fs, (f: Fields) => Found(f, StatusColumn).Some?)|
      && (forall h: nat :: Count(s.hourly, h) == |Where(fs, (f: Fields) => f.date == Dated(h))|)
      && Total(s.hourly) == |Where(fs, (f: Fields) => !f.date.Undated?)|
      && (forall x :: multiset(FailedIpsOf(fs))[x] == |Where(fs, (f: Fields) => Found(f, FailedIpColumn) == Some(x))|)
  {
    CompletedCounts(fs, threshold, topN);
    assert Fold(fs).Ok?;
    ColumnCounts(fs);
  }

  /**
   * The hourly trend of a completed run: hours 0..23, each counted as often
   * as it occurs, at least one request, and rows in ascending hour order.
   */
  lemma HourlyTrend(fs: seq<Fields>, threshold: int, topN: int)
    requires AnalyzeFields(fs, threshold, topN).Completed?
    requires forall j :: 0 <= j < |fs| ==> WellFormed(fs[j])
    ensures var s := AnalyzeFields(fs, threshold, topN).summary;
      && (forall i :: 0 <= i < |s.hourly| ==> s.hourly[i].0 <= 23 && s.hourly[i].1 == multiset(HoursOf(fs))[s.hourly[i].0])
      && Total(s.hourly) == |HoursOf(fs)| >= 1
      && (forall i, j :: 0 <= i < j < |SortPairs(s.hourly)| ==> SortPairs(s.hourly)[i].0 < SortPairs(s.hourly)[j].0)
  {
    CompletedCounts(fs, threshold, topN);
    HoursBounded(fs);
    HourCounts(HoursOf(fs));
  }

  /** The Counter of hours of the day, as line 50 builds it. */
  lemma HourCounts(hours: seq<nat>)
    requires forall h :: h in hours ==> h <= 23
    ensures var c := CounterOf(hours);
      && (forall i :: 0 <= i < |c| ==> c[i].0 <= 23 && c[i].1 == multiset(hours)[c[i].0])
      && Total(c) == |hours|
      && (c != [] ==> hours != [])
      && (forall i, j :: 0 <= i < j < |SortPairs(c)| ==> SortPairs(c)[i].0 < SortPairs(c)[j].0)
  {
    var c := CounterOf(hours);
    CounterOfMeaning(hours);
    SortPairsAscending(c);
    forall i | 0 <= i < |c| ensures c[i].0 <= 23 {
      assert c[i].0 in Keys(c);
    }
  }

  /**
   * `suspicious_ips` of a completed run: an address is listed with its number
   * of failed attempts exactly when that number exceeds the threshold, and it
   * never exceeds the address's number of requests.
   */
  lemma SuspiciousIps(fs: seq<Fields>, threshold: int, topN: int)
    requires AnalyzeFields(fs, threshold, topN).Completed?
    ensures var s := AnalyzeFields(fs, threshold, topN).summary;
      && DistinctKeys(s.suspicious)
      && IsSubsequence(s.suspicious, CounterOf(FailedIpsOf(fs)))
      && (forall i :: 0 <= i < |s.suspicious| ==> s.suspicious[i].1 > threshold)
      && (forall i :: 0 <= i < |s.suspicious| ==> s.suspicious[i].0 in Keys(s.ipCount))
      && forall ip ::
           && Count(s.suspicious, ip) ==
                (if multiset(FailedIpsOf(fs))[ip] > threshold then multiset(FailedIpsOf(fs))[ip] else 0)
           && multiset(FailedIpsOf(fs))[ip] <= Count(s.ipCount, ip)
  {
    CompletedCounts(fs, threshold, topN);
    SuspiciousMeaning(fs, threshold);
  }

  /**
   * `most_ep` is present exactly when some line has an endpoint; it is then
   * the first endpoint, in order of first appearance, with the largest
   * number of requests, and `most_ep_count` is that number.
   */
  lemma MostRequestedEndpoint(fs: seq<Fields>, threshold: int, topN: int)
    requires AnalyzeFields(fs, threshold, topN).Completed?
    ensures var s := AnalyzeFields(fs, threshold, topN).summary;
      && (s.mostEp.Some? <==> EndpointsOf(fs) != [])
      && (s.mostEp.Some? ==> exists k ::
            && 0 <= k < |s.epCount| && s.epCount[k] == (s.mostEp.value, s.mostEpCount)
            && s.mostEpCount == multiset(EndpointsOf(fs))[s.mostEp.value]
            && (forall p :: multiset(EndpointsOf(fs))[p] <= s.mostEpCount)
            && (forall j :: 0 <= j < k ==> s.epCount[j].1 < s.mostEpCount))
  {
    var t := Fold(fs).value;
    assert AnalyzeFields(fs, threshold, topN).summary == Summarize(t, threshold, topN);
    assert t.endpoints == EndpointsOf(fs);
    SummaryMostEp(t, threshold, topN);
  }

  /** The Top Endpoint section has its data row exactly when some line has an endpoint. */
  lemma TopEndpointRow(fs: seq<Fields>, threshold: int, topN: int)
    requires AnalyzeFields(fs, threshold, topN).Completed?
    requires forall j :: 0 <= j < |fs| ==> WellFormed(fs[j])
    ensures var s := AnalyzeFields(fs, threshold, topN).summary;
      |EndpointRows(s)| == if EndpointsOf(fs) == [] then 0 else 1
  {
    FoldMeaning(fs);
    EndpointsAreTokens(fs);
    EndpointRowPresent(Fold(fs).value, threshold, topN);
  }

  /** The hourly trend of a completed run on the lines of a log, whose fields are always well formed. */
  lemma HourlyTrendOnLines(lines: seq<string>, threshold: int, topN: int)
    requires Analyze(lines, threshold, topN).Completed?
    ensures var s, fs := Analyze(lines, threshold, topN).summary, Scan(lines);
      && (forall i :: 0 <= i < |s.hourly| ==> s.hourly[i].0 <= 23 && s.hourly[i].1 == multiset(HoursOf(fs))[s.hourly[i].0])
      && Total(s.hourly) == |HoursOf(fs)| >= 1
      && (forall i, j :: 0 <= i < j < |SortPairs(s.hourly)| ==> SortPairs(s.hourly)[i].0 < SortPairs(s.hourly)[j].0)
  {
    ScanWellFormed(lines);
    HourlyTrend(Scan(lines), threshold, topN);
  }

  /** On the lines of a log, the Top Endpoint row is written exactly when some line has an endpoint. */
  lemma TopEndpointRowOnLines(lines: seq<string>, threshold: int, topN: int)
    requires Analyze(lines, threshold, topN).Completed?
    ensures var s := Analyze(lines, threshold, topN).summary;
      |EndpointRows(s)| == if EndpointsOf(Scan(lines)) == [] then 0 else 1
  {
    ScanWellFormed(lines);
    TopEndpointRow(Scan(lines), threshold, topN);
  }

  lemma {:induction false} EndpointsAreTokens(fs: seq<Fields>)
    requires forall j :: 0 <= j < |fs| ==> WellFormed(fs[j])
    ensures forall p :: p in EndpointsOf(fs) ==> p != ""
  {
    if fs != [] {
      EndpointsAreTokens(fs[..|fs| - 1]);
      assert WellFormed(fs[|fs| - 1]);
    }
  }

  /**
   * On the lines themselves: the run fails on line 65 exactly when no line
   * has a date fragment, and it fails at all exactly when that happens or
   * some line's date fragment is one strptime rejects.
   */
  lemma RunOnLines(lines: seq<string>, threshold: int, topN: int)
    ensures Analyze(lines, threshold, topN) == Failed(EmptyHourlyTrend) <==>
      forall j :: 0 <= j < |lines| ==> Scanners.FindStamp(lines[j]).None?
    ensures Analyze(lines, threshold, topN).Failed? <==>
      (exists j :: 0 <= j < |lines| && ReadDate(lines[j]).Unparsable?) ||
      (forall j :: 0 <= j < |lines| ==> Scanners.FindStamp(lines[j]).None?)
  {
    var fs := Scan(lines);
    ScanDates(lines);
    AnalyzeFails(fs, threshold, topN);
    assert forall j :: 0 <= j < |lines| ==> (fs[j].date.Undated? <==> Scanners.FindStamp(lines[j]).None?);
  }
}
