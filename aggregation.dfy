/**
 * The extraction-and-aggregation loop of `log_analyze`: every line is searched
 * with the five patterns; IPs, endpoints and hours are appended to lists, and
 * the failed-attempt and status Counters are incremented in place. A date
 * fragment that strptime rejects raises out of the loop and ends the run.
 *
 * The loop's specification is layered: `Extract` is what the patterns find in
 * one line, `Scan` maps it over the lines, and `Fold` runs the loop body over
 * the extracted fields. The properties of the loop are proved about `Fold`.
 */
module Aggregation {
  import opened Options
  import opened Scanners
  import opened Timestamps
  import opened Counters
  import opened Text

  /** The date fragment of a line, and what `datetime.strptime(..., '%d/%b/%Y:%H')` makes of it. */
  datatype Date =
    | Undated                    // the date pattern does not match
    | Dated(hour: nat)           // the fragment parses; only its hour is kept
    | Unparsable(stamp: string)  // strptime raises ValueError on the fragment

  /**
   * Lines 35-37: the date pattern, then strptime on the fragment it finds. A
   * found fragment gives its hour `HH` when it is a valid date (a known month,
   * a year of at least 1, a day within that month, an hour 00-23), and raises
   * otherwise.
   */
  function ReadDate(line: string): (r: Date)
    ensures r.Undated? <==> FindStamp(line).None?
    ensures r.Dated? ==> r.hour <= 23
    ensures r.Unparsable? ==> FindStamp(line) == Some(r.stamp) && IsStampShape(r.stamp)
    ensures FindStamp(line).Some? ==>
      r == match StampHour(FindStamp(line).value)
           case Some(hour) => Dated(hour)
           case None => Unparsable(FindStamp(line).value)
  {
    match FindStamp(line)
    case None => Undated
    case Some(stamp) =>
      ParseHourIsValidity(stamp);
      match ParseHour(stamp)
      case None => Unparsable(stamp)
      case Some(hour) => Dated(hour)
  }

  /** What the five patterns find in one line. */
  datatype Fields = Fields(
    ip: Option<string>,
    endpoint: Option<string>,
    failure: bool,
    date: Date,
    status: Option<string>)

  /** Lines 23-41: the five searches of one iteration; what they find has the shapes the patterns force. */
  function Extract(line: string): (r: Fields)
    ensures WellFormed(r)
  {
    Fields(FindIp(line), FindEndpoint(line), HasFailure(line), ReadDate(line), FindStatus(line))
  }

  /** The fields of every line, in order. */
  function Scan(lines: seq<string>): (r: seq<Fields>)
    ensures |r| == |lines|
  {
    if lines == [] then [] else Scan(lines[..|lines| - 1]) + [Extract(lines[|lines| - 1])]
  }

  /** The state the loop builds: `ips`, `endpoints`, the hours of `timestamps`, `failed_attempts`, `errors`. */
  datatype Tally = Tally(
    ips: seq<string>,
    endpoints: seq<string>,
    hours: seq<nat>,
    failedAttempts: Items<string>,
    errors: Items<string>)

  /** The exceptions the run can end on. */
  datatype RunError =
    | BadTimestamp(stamp: string)   // strptime rejected the fragment
    | EmptyHourlyTrend              // `zip(*sorted(hourly_trend.items()))` had nothing to unpack

  function AsSeq<T>(o: Option<T>): seq<T> {
    if o.Some? then [o.value] else []
  }

  /** The hour a line contributes to `timestamps`, if any. */
  function HourIn(d: Date): seq<nat> {
    if d.Dated? then [d.hour] else []
  }

  /** The address a line contributes to `failed_attempts`, if any. */
  function FailedIn(f: Fields): seq<string> {
    if f.failure && f.ip.Some? then [f.ip.value] else []
  }

  /** The loop body on a line whose pattern matches are f, starting from state t. */
  function Step(t: Tally, f: Fields): (r: Result<Tally, RunError>)
    ensures r.Err? <==> f.date.Unparsable?
    ensures r.Err? ==> r.error == BadTimestamp(f.date.stamp)
    ensures r.Ok? ==> t.ips <= r.value.ips && t.endpoints <= r.value.endpoints && t.hours <= r.value.hours
    ensures r.Ok? ==> forall k ::
      Count(r.value.failedAttempts, k) == Count(t.failedAttempts, k) + (if f.failure && f.ip == Some(k) then 1 else 0)
    ensures r.Ok? ==> forall k ::
      Count(r.value.errors, k) == Count(t.errors, k) + (if f.status == Some(k) then 1 else 0)
  {
    if f.date.Unparsable? then Err(BadTimestamp(f.date.stamp))
    else
      assert f.failure && f.ip.Some? ==> forall k ::
          Count(Bump(t.failedAttempts, f.ip.value), k) == Count(t.failedAttempts, k) + (if f.ip == Some(k) then 1 else 0) by {
        if f.failure && f.ip.Some? { BumpCounts(t.failedAttempts, f.ip.value); }
      }
      assert f.status.Some? ==> forall k ::
          Count(Bump(t.errors, f.status.value), k) == Count(t.errors, k) + (if f.status == Some(k) then 1 else 0) by {
        if f.status.Some? { BumpCounts(t.errors, f.status.value); }
      }
      Ok(Tally(
        t.ips + AsSeq(f.ip),
        t.endpoints + AsSeq(f.endpoint),
        t.hours + HourIn(f.date),
        if f.failure && f.ip.Some? then Bump(t.failedAttempts, f.ip.value) else t.failedAttempts,
        if f.status.Some? then Bump(t.errors, f.status.value) else t.errors))
  }

  /** The outcome of the loop over the lines' fields: the state after the last one, or the first exception. */
  function Fold(fs: seq<Fields>): (r: Result<Tally, RunError>)
    ensures r.Ok? <==> forall j :: 0 <= j < |fs| ==> !fs[j].date.Unparsable?
    ensures r.Ok? ==> Tracks(r.value, fs)
    ensures r.Err? ==> r.error.BadTimestamp?
  {
    if fs == [] then Ok(Tally([], [], [], [], []))
    else
      assert forall j :: 0 <= j < |fs| - 1 ==> fs[..|fs| - 1][j] == fs[j];
      match Fold(fs[..|fs| - 1])
      case Err(e) => Err(e)
      case Ok(t) =>
        if fs[|fs| - 1].date.Unparsable? then Step(t, fs[|fs| - 1])
        else
          StepTracks(t, fs);
          Step(t, fs[|fs| - 1])
  }

  /**
   * The state after the lines fs: the lists hold the lines' addresses, paths and hours in
   * order, and the Counters hold, per key, how often the key was appended.
   */
  ghost predicate Tracks(t: Tally, fs: seq<Fields>) {
    && t.ips == IpsOf(fs) && t.endpoints == EndpointsOf(fs) && t.hours == HoursOf(fs)
    && (forall k :: Count(t.failedAttempts, k) == multiset(FailedIpsOf(fs))[k])
    && (forall k :: Count(t.errors, k) == multiset(StatusesOf(fs))[k])
  }

  lemma StepTracks(t: Tally, fs: seq<Fields>)
    requires fs != [] && !fs[|fs| - 1].date.Unparsable?
    requires Tracks(t, fs[..|fs| - 1])
    ensures Tracks(Step(t, fs[|fs| - 1]).value, fs)
  {
    var r := Step(t, fs[|fs| - 1]).value;
    assert r.ips == IpsOf(fs) && r.endpoints == EndpointsOf(fs) && r.hours == HoursOf(fs);
    forall k ensures Count(r.failedAttempts, k) == multiset(FailedIpsOf(fs))[k] {
      StepFailedCount(t, fs, k);
    }
    forall k ensures Count(r.errors, k) == multiset(StatusesOf(fs))[k] {
      StepErrorCount(t, fs, k);
    }
  }

  lemma StepFailedCount(t: Tally, fs: seq<Fields>, k: string)
    requires fs != [] && !fs[|fs| - 1].date.Unparsable?
    requires Count(t.failedAttempts, k) == multiset(FailedIpsOf(fs[..|fs| - 1]))[k]
    ensures Count(Step(t, fs[|fs| - 1]).value.failedAttempts, k) == multiset(FailedIpsOf(fs))[k]
  {
    var f := fs[|fs| - 1];
    assert Count(Step(t, f).value.failedAttempts, k) == Count(t.failedAttempts, k) + (if f.failure && f.ip == Some(k) then 1 else 0);
    AppendedCount(FailedIpsOf(fs[..|fs| - 1]), FailedIn(f), k);
  }

  lemma StepErrorCount(t: Tally, fs: seq<Fields>, k: string)
    requires fs != [] && !fs[|fs| - 1].date.Unparsable?
    requires Count(t.errors, k) == multiset(StatusesOf(fs[..|fs| - 1]))[k]
    ensures Count(Step(t, fs[|fs| - 1]).value.errors, k) == multiset(StatusesOf(fs))[k]
  {
    var f := fs[|fs| - 1];
    assert Count(Step(t, f).value.errors, k) == Count(t.errors, k) + (if f.status == Some(k) then 1 else 0);
    AppendedCount(StatusesOf(fs[..|fs| - 1]), AsSeq(f.status), k);
  }

  lemma AppendedCount(xs: seq<string>, ys: seq<string>, k: string)
    ensures multiset(xs + ys)[k] == multiset(xs)[k] + multiset(ys)[k]
  {
    assert multiset(xs + ys) == multiset(xs) + multiset(ys);
  }

  lemma ScanNext(lines: seq<string>, i: nat)
    requires i < |lines|
    ensures Scan(lines[..i + 1]) == Scan(lines[..i]) + [Extract(lines[i])]
  {
    assert lines[..i + 1][..i] == lines[..i];
  }

  /** `Scan` yields one entry per line, that line's fields. */
  lemma {:induction false} ScanAt(lines: seq<string>)
    ensures |Scan(lines)| == |lines|
    ensures forall j :: 0 <= j < |lines| ==> Scan(lines)[j] == Extract(lines[j])
  {
    if lines != [] {
      var init := lines[..|lines| - 1];
      ScanAt(init);
      var r := Scan(lines);
      assert r == Scan(init) + [Extract(lines[|lines| - 1])];
      forall j | 0 <= j < |lines| ensures r[j] == Extract(lines[j]) {
        if j < |init| {
          assert r[j] == Scan(init)[j] && init[j] == lines[j];
        }
      }
    }
  }

  /** The date of each scanned entry is its line's date. */
  lemma ScanDates(lines: seq<string>)
    ensures |Scan(lines)| == |lines|
    ensures forall j :: 0 <= j < |lines| ==> Scan(lines)[j].date == ReadDate(lines[j])
  {
    ScanAt(lines);
  }

  lemma FoldNext(fs: seq<Fields>, f: Fields)
    ensures Fold(fs + [f]) == if Fold(fs).Err? then Fold(fs) else Step(Fold(fs).value, f)
  {
    assert (fs + [f])[..|fs|] == fs;
  }

  /** Once an exception is raised, later lines change nothing: it is the outcome of the loop. */
  lemma {:induction false} FoldErrPersists(fs: seq<Fields>, j: nat)
    requires j <= |fs| && Fold(fs[..j]).Err?
    ensures Fold(fs) == Fold(fs[..j])
    decreases |fs|
  {
    if j < |fs| {
      var init := fs[..|fs| - 1];
      assert init[..j] == fs[..j];
      FoldErrPersists(init, j);
    } else {
      assert fs[..j] == fs;
    }
  }

  /** Scanning a longer prefix extends the fields of the shorter one. */
  lemma {:induction false} ScanPrefix(lines: seq<string>, j: nat)
    requires j <= |lines|
    ensures Scan(lines)[..j] == Scan(lines[..j])
    decreases |lines|
  {
    ScanAt(lines);
    ScanAt(lines[..j]);
  }

  /** An exception raised on one of the first j lines is the outcome of the loop over all of them. */
  lemma ScanErrPersists(lines: seq<string>, j: nat)
    requires j <= |lines| && Fold(Scan(lines[..j])).Err?
    ensures Fold(Scan(lines)) == Fold(Scan(lines[..j]))
  {
    ScanPrefix(lines, j);
    FoldErrPersists(Scan(lines), j);
  }

  /**
   * One pass of the loop body (lines 23-43) on line i: the lists come in and
   * go out as values, the two Counters are incremented in place. A rejected
   * date fragment is reported as the exception the line raises, which is
   * then the outcome of the whole loop.
   */
  method ScanLine(lines: seq<string>, i: nat, ips: seq<string>, endpoints: seq<string>, hours: seq<nat>,
                  failedAttempts: Counter<string>, errors: Counter<string>)
    returns (raised: Option<RunError>, ips': seq<string>, endpoints': seq<string>, hours': seq<nat>)
    requires i < |lines|
    requires failedAttempts != errors && failedAttempts.Valid() && errors.Valid()
    requires Fold(Scan(lines[..i])) == Ok(Tally(ips, endpoints, hours, failedAttempts.items, errors.items))
    modifies failedAttempts, errors
    ensures failedAttempts.Valid() && errors.Valid()
    ensures raised.None? ==>
      Fold(Scan(lines[..i + 1])) == Ok(Tally(ips', endpoints', hours', failedAttempts.items, errors.items))
    ensures raised.Some? ==> Fold(Scan(lines)) == Err(raised.value)
  {
    ghost var before := Tally(ips, endpoints, hours, failedAttempts.items, errors.items);
    var line := lines[i];
    ghost var f := Extract(line);
    ScanNext(lines, i);
    FoldNext(Scan(lines[..i]), f);
    ips', endpoints', hours' := ips, endpoints, hours;
    var ip := FindIp(line);
    if ip.Some? {
      ips' := ips' + [ip.value];
    }
    assert ips' == before.ips + AsSeq(f.ip);
    var endpoint := FindEndpoint(line);
    if endpoint.Some? {
      endpoints' := endpoints' + [endpoint.value];
    }
    assert endpoints' == before.endpoints + AsSeq(f.endpoint);
    if HasFailure(line) && ip.Some? {
      failedAttempts.Increment(ip.value);
    }
    assert failedAttempts.items ==
      if f.failure && f.ip.Some? then Bump(before.failedAttempts, f.ip.value) else before.failedAttempts;
    var date := ReadDate(line);
    match date {
      case Unparsable(stamp) =>
        ScanErrPersists(lines, i + 1);
        return Some(BadTimestamp(stamp)), ips', endpoints', hours';
      case Dated(hour) =>
        hours' := hours' + [hour];
      case Undated =>
        assert hours' + [] == hours';
    }
    assert hours' == before.hours + HourIn(f.date);
    var status := FindStatus(line);
    if status.Some? {
      errors.Increment(status.value);
    }
    raised := None;
  }

  /** `for log in logs: ...` (lines 22-43), on Counters updated in place. */
  method Accumulate(lines: seq<string>) returns (r: Result<Tally, RunError>)
    ensures r == Fold(Scan(lines))
  {
    var ips: seq<string>, endpoints: seq<string>, hours: seq<nat> := [], [], [];
    var failedAttempts := new Counter<string>();
    var errors := new Counter<string>();
    var i := 0;
    while i < |lines|
      invariant 0 <= i <= |lines|
      invariant failedAttempts != errors
      invariant failedAttempts.Valid() && errors.Valid()
      invariant Fold(Scan(lines[..i])) == Ok(Tally(ips, endpoints, hours, failedAttempts.items, errors.items))
    {
      var raised;
      raised, ips, endpoints, hours := ScanLine(lines, i, ips, endpoints, hours, failedAttempts, errors);
      if raised.Some? {
        return Err(raised.value);
      }
      i := i + 1;
    }
    assert lines[..i] == lines;
    r := Ok(Tally(ips, endpoints, hours, failedAttempts.items, errors.items));
  }

  // ------------------------------------------------- what the loop collects

  /** The four string-valued things the loop collects. */
  datatype Column = IpColumn | EndpointColumn | StatusColumn | FailedIpColumn

  /** What a line contributes to a column, if anything. */
  function Found(f: Fields, c: Column): Option<string> {
    match c
    case IpColumn => f.ip
    case EndpointColumn => f.endpoint
    case StatusColumn => f.status
    case FailedIpColumn => if f.failure then f.ip else None
  }

  /** The addresses appended to `ips`, field by field. */
  function IpsOf(fs: seq<Fields>): seq<string> {
    if fs == [] then [] else IpsOf(fs[..|fs| - 1]) + AsSeq(fs[|fs| - 1].ip)
  }

  /** The paths appended to `endpoints`. */
  function EndpointsOf(fs: seq<Fields>): seq<string> {
    if fs == [] then [] else EndpointsOf(fs[..|fs| - 1]) + AsSeq(fs[|fs| - 1].endpoint)
  }

  /** The hours of the parsed date fragments. */
  function HoursOf(fs: seq<Fields>): seq<nat> {
    if fs == [] then [] else HoursOf(fs[..|fs| - 1]) + HourIn(fs[|fs| - 1].date)
  }

  /** The addresses of the lines that hold both an address and a failure marker. */
  function FailedIpsOf(fs: seq<Fields>): seq<string> {
    if fs == [] then [] else FailedIpsOf(fs[..|fs| - 1]) + FailedIn(fs[|fs| - 1])
  }

  /** The status codes. */
  function StatusesOf(fs: seq<Fields>): seq<string> {
    if fs == [] then [] else StatusesOf(fs[..|fs| - 1]) + AsSeq(fs[|fs| - 1].status)
  }

  /** The values a column receives. */
  function Collect(fs: seq<Fields>, c: Column): seq<string> {
    match c
    case IpColumn => IpsOf(fs)
    case EndpointColumn => EndpointsOf(fs)
    case StatusColumn => StatusesOf(fs)
    case FailedIpColumn => FailedIpsOf(fs)
  }

  /** Each line appends to a column what it contributes to it. */
  lemma CollectSnoc(fs: seq<Fields>, c: Column)
    requires fs != []
    ensures Collect(fs, c) == Collect(fs[..|fs| - 1], c) + AsSeq(Found(fs[|fs| - 1], c))
  {
  }

  /** The loop's state when no line raises, stated field by field. */
  function Collected(fs: seq<Fields>): Tally {
    Tally(IpsOf(fs), EndpointsOf(fs), HoursOf(fs), CounterOf(FailedIpsOf(fs)), CounterOf(StatusesOf(fs)))
  }

  /** k is the first line whose date fragment strptime rejects. */
  predicate FirstUnparsable(fs: seq<Fields>, k: nat) {
    k < |fs| && fs[k].date.Unparsable? && forall j :: 0 <= j < k ==> !fs[j].date.Unparsable?
  }

  /** One more line that does not raise keeps the loop's state equal to what has been collected. */
  lemma FoldOkStep(fs: seq<Fields>)
    requires fs != [] && !fs[|fs| - 1].date.Unparsable?
    requires Fold(fs[..|fs| - 1]) == Ok(Collected(fs[..|fs| - 1]))
    ensures Fold(fs) == Ok(Collected(fs))
  {
    var init, f := fs[..|fs| - 1], fs[|fs| - 1];
    if f.failure && f.ip.Some? {
      CounterOfSnoc(FailedIpsOf(init), f.ip.value);
    } else {
      assert FailedIpsOf(init) + [] == FailedIpsOf(init);
    }
    if f.status.Some? {
      CounterOfSnoc(StatusesOf(init), f.status.value);
    } else {
      assert StatusesOf(init) + [] == StatusesOf(init);
    }
  }

  /**
   * The loop completes exactly when no date fragment is rejected, and then
   * holds every address, path, hour and status the lines contain, with the
   * Counters counting them; otherwise it ends on the first rejected fragment.
   */
  lemma {:induction false} FoldMeaning(fs: seq<Fields>)
    ensures Fold(fs).Ok? <==> forall j :: 0 <= j < |fs| ==> !fs[j].date.Unparsable?
    ensures Fold(fs).Ok? ==> Fold(fs).value == Collected(fs)
    ensures Fold(fs).Err? ==> exists k: nat :: (FirstUnparsable(fs, k) &&
      Fold(fs).error == BadTimestamp(fs[k].date.stamp))
  {
    FoldValue(fs);
    FoldFirstError(fs);
  }

  lemma {:induction false} FoldValue(fs: seq<Fields>)
    ensures Fold(fs).Ok? ==> Fold(fs).value == Collected(fs)
  {
    if fs != [] && Fold(fs).Ok? {
      FoldValue(fs[..|fs| - 1]);
      FoldOkStep(fs);
    }
  }

  lemma {:induction false} FoldFirstError(fs: seq<Fields>)
    ensures Fold(fs).Err? ==> exists k: nat :: (FirstUnparsable(fs, k) &&
      Fold(fs).error == BadTimestamp(fs[k].date.stamp))
  {
    if fs != [] && Fold(fs).Err? {
      var init := fs[..|fs| - 1];
      FoldFirstError(init);
      if Fold(init).Err? {
        var k: nat :| FirstUnparsable(init, k) && Fold(init).error == BadTimestamp(init[k].date.stamp);
        FirstUnparsableExtends(fs, k);
      } else {
        assert Fold(fs) == Step(Fold(init).value, fs[|fs| - 1]);
        assert fs == init + [fs[|fs| - 1]];
        FirstUnparsableLast(init, fs[|fs| - 1]);
      }
    }
  }

  lemma FirstUnparsableExtends(fs: seq<Fields>, k: nat)
    requires fs != [] && FirstUnparsable(fs[..|fs| - 1], k)
    ensures FirstUnparsable(fs, k) && fs[k] == fs[..|fs| - 1][k]
  {
    var init := fs[..|fs| - 1];
    assert forall j :: 0 <= j < |init| ==> init[j] == fs[j];
  }

  lemma FirstUnparsableLast(init: seq<Fields>, last: Fields)
    requires last.date.Unparsable?
    requires forall j :: 0 <= j < |init| ==> !init[j].date.Unparsable?
    ensures FirstUnparsable(init + [last], |init|)
  {
    var fs := init + [last];
    assert forall j :: 0 <= j < |init| ==> fs[j] == init[j];
  }

  // ------------------------------------------- counting lines per value

  /** The lines of fs that satisfy p, by index. */
  ghost function Where(fs: seq<Fields>, p: Fields -> bool): set<int> {
    set j | 0 <= j < |fs| && p(fs[j])
  }

  /** One more line adds its index exactly when it satisfies p. */
  lemma WhereSnoc(fs: seq<Fields>, p: Fields -> bool)
    requires fs != []
    ensures |Where(fs, p)| == |Where(fs[..|fs| - 1], p)| + if p(fs[|fs| - 1]) then 1 else 0
  {
    var init, n := fs[..|fs| - 1], |fs| - 1;
    var before, after := Where(init, p), Where(fs, p);
    assert n !in before;
    if p(fs[n]) {
      assert after == before + {n} by {
        forall j ensures j in after <==> j in before + {n} {
          if 0 <= j < |init| {
            assert init[j] == fs[j];
          }
        }
      }
    } else {
      assert after == before by {
        forall j ensures j in after <==> j in before {
          if 0 <= j < |init| {
            assert init[j] == fs[j];
          }
        }
      }
    }
  }

  lemma MultisetSnoc(xs: seq<string>, o: Option<string>, x: string)
    ensures multiset(xs + AsSeq(o))[x] == multiset(xs)[x] + if o == Some(x) then 1 else 0
  {
    assert multiset(xs + AsSeq(o)) == multiset(xs) + multiset(AsSeq(o));
  }

  /** The value x occurs in a column once for every line that contributes x. */
  lemma {:induction false} CollectCount(fs: seq<Fields>, c: Column, x: string)
    ensures multiset(Collect(fs, c))[x] == |Where(fs, (f: Fields) => Found(f, c) == Some(x))|
  {
    if fs != [] {
      CollectCount(fs[..|fs| - 1], c, x);
      CollectSnoc(fs, c);
      WhereSnoc(fs, (f: Fields) => Found(f, c) == Some(x));
      MultisetSnoc(Collect(fs[..|fs| - 1], c), Found(fs[|fs| - 1], c), x);
    }
  }

  /** A column has one entry for every line that contributes to it. */
  lemma {:induction false} CollectSize(fs: seq<Fields>, c: Column)
    ensures |Collect(fs, c)| == |Where(fs, (f: Fields) => Found(f, c).Some?)|
  {
    if fs != [] {
      CollectSize(fs[..|fs| - 1], c);
      CollectSnoc(fs, c);
      WhereSnoc(fs, (f: Fields) => Found(f, c).Some?);
    }
  }

  /** Hour h occurs in `timestamps` once for every line whose date parses with hour h. */
  lemma {:induction false} HoursCount(fs: seq<Fields>, h: nat)
    ensures multiset(HoursOf(fs))[h] == |Where(fs, (f: Fields) => f.date == Dated(h))|
  {
    if fs != [] {
      var init, last := fs[..|fs| - 1], fs[|fs| - 1];
      HoursCount(init, h);
      WhereSnoc(fs, (f: Fields) => f.date == Dated(h));
      assert multiset(HoursOf(fs)) == multiset(HoursOf(init)) + multiset(HourIn(last.date));
    }
  }

  /** `timestamps` has one entry for every line whose date parses. */
  lemma {:induction false} HoursSize(fs: seq<Fields>)
    ensures |HoursOf(fs)| == |Where(fs, (f: Fields) => f.date.Dated?)|
  {
    if fs != [] {
      HoursSize(fs[..|fs| - 1]);
      WhereSnoc(fs, (f: Fields) => f.date.Dated?);
    }
  }

  /** The Counter of a column: each value counted once per line that contributes it. */
  lemma ColumnCounter(fs: seq<Fields>, c: Column)
    ensures forall x ::
      Count(CounterOf(Collect(fs, c)), x) == |Where(fs, (f: Fields) => Found(f, c) == Some(x))|
    ensures Total(CounterOf(Collect(fs, c))) == |Where(fs, (f: Fields) => Found(f, c).Some?)|
  {
    forall x
      ensures Count(CounterOf(Collect(fs, c)), x) == |Where(fs, (f: Fields) => Found(f, c) == Some(x))|
    {
      CounterOfCount(Collect(fs, c), x);
      CollectCount(fs, c, x);
    }
    CollectSize(fs, c);
  }

  /** `Counter(ips)`, `Counter(endpoints)` and the status Counter: each value counted once per line that contributes it. */
  lemma StringCounters(fs: seq<Fields>)
    ensures forall x :: Count(CounterOf(IpsOf(fs)), x) == |Where(fs, (f: Fields) => Found(f, IpColumn) == Some(x))|
    ensures Total(CounterOf(IpsOf(fs))) == |Where(fs, (f: Fields) => Found(f, IpColumn).Some?)|
    ensures forall x :: Count(CounterOf(EndpointsOf(fs)), x) == |Where(fs, (f: Fields) => Found(f, EndpointColumn) == Some(x))|
    ensures Total(CounterOf(EndpointsOf(fs))) == |Where(fs, (f: Fields) => Found(f, EndpointColumn).Some?)|
    ensures forall x :: Count(CounterOf(StatusesOf(fs)), x) == |Where(fs, (f: Fields) => Found(f, StatusColumn) == Some(x))|
    ensures Total(CounterOf(StatusesOf(fs))) == |Where(fs, (f: Fields) => Found(f, StatusColumn).Some?)|
  {
    assert (forall x :: Count(CounterOf(IpsOf(fs)), x) == |Where(fs, (f: Fields) => Found(f, IpColumn) == Some(x))|)
      && Total(CounterOf(IpsOf(fs))) == |Where(fs, (f: Fields) => Found(f, IpColumn).Some?)| by {
      ColumnCounter(fs, IpColumn);
      assert Collect(fs, IpColumn) == IpsOf(fs);
    }
    assert (forall x :: Count(CounterOf(EndpointsOf(fs)), x) == |Where(fs, (f: Fields) => Found(f, EndpointColumn) == Some(x))|)
      && Total(CounterOf(EndpointsOf(fs))) == |Where(fs, (f: Fields) => Found(f, EndpointColumn).Some?)| by {
      ColumnCounter(fs, EndpointColumn);
      assert Collect(fs, EndpointColumn) == EndpointsOf(fs);
    }
    assert (forall x :: Count(CounterOf(StatusesOf(fs)), x) == |Where(fs, (f: Fields) => Found(f, StatusColumn) == Some(x))|)
      && Total(CounterOf(StatusesOf(fs))) == |Where(fs, (f: Fields) => Found(f, StatusColumn).Some?)| by {
      ColumnCounter(fs, StatusColumn);
      assert Collect(fs, StatusColumn) == StatusesOf(fs);
    }
  }

  /** The Counter of the hours: each hour counted once per line whose date parses with that hour. */
  lemma HourCounter(fs: seq<Fields>)
    ensures forall h: nat :: Count(CounterOf(HoursOf(fs)), h) == |Where(fs, (f: Fields) => f.date == Dated(h))|
    ensures Total(CounterOf(HoursOf(fs))) == |Where(fs, (f: Fields) => f.date.Dated?)|
  {
    forall h: nat ensures Count(CounterOf(HoursOf(fs)), h) == |Where(fs, (f: Fields) => f.date == Dated(h))| {
      CounterOfCount(HoursOf(fs), h);
      HoursCount(fs, h);
    }
    HoursSize(fs);
  }

  /** The Counters of the columns, value by value, when every date fragment parses. */
  lemma ColumnCounts(fs: seq<Fields>)
    requires forall j :: 0 <= j < |fs| ==> !fs[j].date.Unparsable?
    ensures forall x :: Count(CounterOf(IpsOf(fs)), x) == |Where(fs, (f: Fields) => Found(f, IpColumn) == Some(x))|
    ensures Total(CounterOf(IpsOf(fs))) == |Where(fs, (f: Fields) => Found(f, IpColumn).Some?)|
    ensures forall x :: Count(CounterOf(EndpointsOf(fs)), x) == |Where(fs, (f: Fields) => Found(f, EndpointColumn) == Some(x))|
    ensures Total(CounterOf(EndpointsOf(fs))) == |Where(fs, (f: Fields) => Found(f, EndpointColumn).Some?)|
    ensures forall x :: Count(CounterOf(StatusesOf(fs)), x) == |Where(fs, (f: Fields) => Found(f, StatusColumn) == Some(x))|
    ensures Total(CounterOf(StatusesOf(fs))) == |Where(fs, (f: Fields) => Found(f, StatusColumn).Some?)|
    ensures forall h: nat :: Count(CounterOf(HoursOf(fs)), h) == |Where(fs, (f: Fields) => f.date == Dated(h))|
    ensures Total(CounterOf(HoursOf(fs))) == |Where(fs, (f: Fields) => !f.date.Undated?)|
    ensures forall x :: multiset(FailedIpsOf(fs))[x] == |Where(fs, (f: Fields) => Found(f, FailedIpColumn) == Some(x))|
  {
    StringCounters(fs);
    HourCounter(fs);
    assert Where(fs, (f: Fields) => f.date.Dated?) == Where(fs, (f: Fields) => !f.date.Undated?);
    FailedIpsCount(fs);
  }

  /** An address occurs among the failed attempts once for every line with the failure marker and that address. */
  lemma FailedIpsCount(fs: seq<Fields>)
    ensures forall x :: multiset(FailedIpsOf(fs))[x] == |Where(fs, (f: Fields) => Found(f, FailedIpColumn) == Some(x))|
  {
    forall x ensures multiset(FailedIpsOf(fs))[x] == |Where(fs, (f: Fields) => Found(f, FailedIpColumn) == Some(x))| {
      CollectCount(fs, FailedIpColumn, x);
    }
  }

  /** Every address counted as a failed attempt is also one of the requests: `failed_attempts[ip] <= ip_count[ip]`. */
  lemma {:induction false} FailedAreRequests(fs: seq<Fields>)
    ensures multiset(FailedIpsOf(fs)) <= multiset(IpsOf(fs))
  {
    if fs != [] {
      FailedAreRequests(fs[..|fs| - 1]);
    }
  }

  /**
   * `suspicious_ips`: the failed-attempt entries above the threshold, in their order; each
   * address there also made requests, at least as many as its failed attempts.
   */
  lemma SuspiciousMeaning(fs: seq<Fields>, threshold: int)
    ensures var sus := Above(CounterOf(FailedIpsOf(fs)), threshold);
      && DistinctKeys(sus)
      && IsSubsequence(sus, CounterOf(FailedIpsOf(fs)))
      && (forall i :: 0 <= i < |sus| ==> sus[i].1 > threshold)
      && (forall i :: 0 <= i < |sus| ==> sus[i].0 in Keys(CounterOf(IpsOf(fs))))
      && forall ip ::
           && Count(sus, ip) ==
                (if multiset(FailedIpsOf(fs))[ip] > threshold then multiset(FailedIpsOf(fs))[ip] else 0)
           && multiset(FailedIpsOf(fs))[ip] <= Count(CounterOf(IpsOf(fs)), ip)
  {
    CounterOfKeys(FailedIpsOf(fs));
    AboveMeaning(CounterOf(FailedIpsOf(fs)), threshold);
    SuspiciousCounts(fs, threshold);
    SuspiciousAreRequesters(fs, threshold);
  }

  lemma SuspiciousCounts(fs: seq<Fields>, threshold: int)
    ensures var sus := Above(CounterOf(FailedIpsOf(fs)), threshold);
      forall ip ::
        && Count(sus, ip) ==
             (if multiset(FailedIpsOf(fs))[ip] > threshold then multiset(FailedIpsOf(fs))[ip] else 0)
        && multiset(FailedIpsOf(fs))[ip] <= Count(CounterOf(IpsOf(fs)), ip)
  {
    var failed := CounterOf(FailedIpsOf(fs));
    CounterOfKeys(FailedIpsOf(fs));
    AboveMeaning(failed, threshold);
    FailedAreRequests(fs);
    forall ip ensures Count(failed, ip) == multiset(FailedIpsOf(fs))[ip]
      && multiset(FailedIpsOf(fs))[ip] <= Count(CounterOf(IpsOf(fs)), ip)
    {
      CounterOfCount(FailedIpsOf(fs), ip);
      CounterOfCount(IpsOf(fs), ip);
    }
  }

  /** Every address over the threshold of failed attempts is a key of `ip_count`. */
  lemma SuspiciousAreRequesters(fs: seq<Fields>, threshold: int)
    ensures var sus := Above(CounterOf(FailedIpsOf(fs)), threshold);
      forall i :: 0 <= i < |sus| ==> sus[i].0 in Keys(CounterOf(IpsOf(fs)))
  {
    var failed := CounterOf(FailedIpsOf(fs));
    var sus := Above(failed, threshold);
    AboveKeys(failed, threshold);
    CounterOfKeys(FailedIpsOf(fs));
    CounterOfKeys(IpsOf(fs));
    FailedAreRequests(fs);
    forall i | 0 <= i < |sus| ensures sus[i].0 in Keys(CounterOf(IpsOf(fs))) {
      var ip := sus[i].0;
      assert Keys(sus)[i] == ip;
      assert ip in FailedIpsOf(fs);
      assert ip in multiset(IpsOf(fs));
    }
  }

  /** A non-empty run of non-whitespace characters, as `[^\s]+` matches. */
  predicate IsToken(t: string) {
    |t| >= 1 && forall j :: 0 <= j < |t| ==> !IsSpace(t[j])
  }

  /** What one line's fields always satisfy, whatever the line. */
  predicate WellFormed(f: Fields) {
    && (f.date.Dated? ==> f.date.hour <= 23)
    && (f.endpoint.Some? ==> IsToken(f.endpoint.value))
    && (f.status.Some? ==> |f.status.value| == 3)
  }

  /** Every hour in `timestamps` is 0..23. */
  lemma {:induction false} HoursBounded(fs: seq<Fields>)
    requires forall j :: 0 <= j < |fs| ==> WellFormed(fs[j])
    ensures forall h :: h in HoursOf(fs) ==> h <= 23
  {
    if fs != [] {
      HoursBounded(fs[..|fs| - 1]);
      assert WellFormed(fs[|fs| - 1]);
    }
  }

  /** Every hour collected from raw lines is 0..23. */
  lemma HoursBoundedOnLines(lines: seq<string>)
    ensures forall h :: h in HoursOf(Scan(lines)) ==> h <= 23
  {
    ScanWellFormed(lines);
    HoursBounded(Scan(lines));
  }

  lemma ScanWellFormed(lines: seq<string>)
    ensures forall j :: 0 <= j < |Scan(lines)| ==> WellFormed(Scan(lines)[j])
  {
    ScanAt(lines);
  }
}
