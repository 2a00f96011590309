/**
 * What `log_analyze` derives once the loop is done (lines 45-50 and the top-N
 * views of lines 54 and 86), the unpacking of the hourly trend on line 65,
 * and the rows it writes to the CSV report (lines 96-121).
 */
module Report {
  import opened Options
  import opened Counters
  import opened Aggregation

  // ------------------------------------------------------------ summary

  /** The values computed after the loop. */
  datatype Summary = Summary(
    ipCount: Items<string>,        // ip_count = Counter(ips)
    epCount: Items<string>,        // ep_count = Counter(endpoints)
    mostEp: Option<string>,        // most_ep; None when ep_count is empty
    mostEpCount: nat,              // most_ep_count
    suspicious: Items<string>,     // suspicious_ips
    hourly: Items<nat>,            // hourly_trend = Counter(t.hour for t in timestamps)
    errors: Items<string>,         // errors
    topIps: Items<string>,         // top_ips = ip_count.most_common(top_n)
    topEndpoints: Items<string>)   // top_endpoints = ep_count.most_common(top_n)

  /** `ep_count.most_common(1)[0]` on a non-empty Counter: the first entry of maximal count. */
  function MostCommonFirst(items: Items<string>): (r: (string, nat))
    requires items != []
    ensures exists k :: (&& 0 <= k < |items| && items[k] == r
      && (forall j :: 0 <= j < |items| ==> items[j].1 <= r.1)
      && (forall j :: 0 <= j < k ==> items[j].1 < r.1))
  {
    MostCommonOne(items);
    MostCommon(items, 1)[0]
  }

  /** Line 48: `ep_count.most_common(1)[0] if ep_count else (None, 0)`, with None for the pair. */
  function MostRequested(c: Items<string>): (r: Option<(string, nat)>)
    ensures r.Some? <==> c != []
    ensures r.Some? ==> r.value in c && r.value.0 in Keys(c)
    ensures r.Some? ==> forall j :: 0 <= j < |c| ==> c[j].1 <= r.value.1
  {
    if c != [] then
      var m := MostCommonFirst(c);
      var k :| 0 <= k < |c| && c[k] == m;
      assert Keys(c)[k] == m.0;
      Some(m)
    else None
  }

  /**
   * On the Counter of a list, the most requested entry exists exactly when
   * the list is non-empty; it is then entry k, the first value, in order of
   * first appearance, of the largest number of occurrences, with that number.
   */
  lemma MostRequestedOf(xs: seq<string>) returns (k: nat)
    ensures MostRequested(CounterOf(xs)).Some? <==> xs != []
    ensures var c := CounterOf(xs); var m := MostRequested(c);
      m.Some? ==> (&& k < |c| && c[k] == m.value
        && m.value.0 in xs
        && m.value.1 == multiset(xs)[m.value.0]
        && (forall p :: multiset(xs)[p] <= m.value.1)
        && (forall j :: 0 <= j < k ==> c[j].1 < m.value.1))
  {
    CounterOfKeys(xs);
    var c := CounterOf(xs);
    if xs != [] {
      assert xs[0] in Keys(c);
      SortByCountFacts(c);
      k := SortByCountHead(c);
      var r := c[k];
      assert MostCommon(c, 1)[0] == SortByCount(c)[0];
      assert Keys(c)[k] == r.0;
      CountAtEntry(c, k);
      CounterOfCount(xs, r.0);
      CounterOfBound(xs, r.1);
    } else {
      k := 0;
      assert c == [];
    }
  }

  /** Lines 45-50, 54 and 86 on the loop's final state. */
  function Summarize(t: Tally, threshold: int, topN: int): (s: Summary)
    ensures s.mostEp.Some? <==> t.endpoints != []
    ensures s.mostEp.Some? ==> s.mostEp.value in t.endpoints
    ensures Total(s.ipCount) == |t.ips| && Total(s.epCount) == |t.endpoints| && Total(s.hourly) == |t.hours|
    ensures |s.topIps| <= |s.ipCount| && |s.topEndpoints| <= |s.epCount|
  {
    CounterOfMeaning(t.endpoints);
    assert t.endpoints != [] ==> t.endpoints[0] in Keys(CounterOf(t.endpoints));
    var ipCount := CounterOf(t.ips);
    var epCount := CounterOf(t.endpoints);
    var most := MostRequested(epCount);
    Summary(
      ipCount,
      epCount,
      if most.Some? then Some(most.value.0) else None,
      if most.Some? then most.value.1 else 0,
      Above(t.failedAttempts, threshold),
      CounterOf(t.hours),
      t.errors,
      MostCommon(ipCount, topN),
      MostCommon(epCount, topN))
  }

  // ------------------------------------------------------- hourly trend

  /** Lexicographic order on (hour, count) pairs, the order `sorted` uses on tuples. */
  predicate PairLe(a: (nat, nat), b: (nat, nat)) {
    a.0 < b.0 || (a.0 == b.0 && a.1 <= b.1)
  }

  predicate SortedPairs(s: Items<nat>) {
    forall i, j :: 0 <= i < j < |s| ==> PairLe(s[i], s[j])
  }

  function InsertPair(e: (nat, nat), s: Items<nat>): Items<nat> {
    if s == [] || PairLe(e, s[0]) then [e] + s else [s[0]] + InsertPair(e, s[1..])
  }

  /** `sorted(hourly_trend.items())`. */
  function SortPairs(items: Items<nat>): (r: Items<nat>)
    ensures |r| == |items| && multiset(r) == multiset(items)
  {
    if items == [] then []
    else
      InsertPairPermutes(items[0], SortPairs(items[1..]));
      assert items == [items[0]] + items[1..];
      InsertPair(items[0], SortPairs(items[1..]))
  }

  lemma {:induction false} InsertPairPermutes(e: (nat, nat), s: Items<nat>)
    ensures multiset(InsertPair(e, s)) == multiset(s) + multiset{e}
    ensures |InsertPair(e, s)| == |s| + 1
  {
    if s != [] && !PairLe(e, s[0]) {
      InsertPairPermutes(e, s[1..]);
      assert s == [s[0]] + s[1..];
    }
  }

  lemma {:induction false} InsertPairSorted(e: (nat, nat), s: Items<nat>)
    requires SortedPairs(s)
    ensures SortedPairs(InsertPair(e, s))
  {
    InsertPairPermutes(e, s);
    if s != [] && !PairLe(e, s[0]) {
      InsertPairSorted(e, s[1..]);
      var r := InsertPair(e, s[1..]);
      InsertPairPermutes(e, s[1..]);
      forall j | 0 <= j < |r| ensures PairLe(s[0], r[j]) {
        assert r[j] in multiset(r);
        assert r[j] in multiset(s[1..]) + multiset{e};
        if r[j] != e {
          assert r[j] in s[1..];
        }
      }
    }
  }

  /** The sorted hourly trend holds the same (hour, count) pairs, in ascending order. */
  lemma {:induction false} SortPairsMeaning(items: Items<nat>)
    ensures multiset(SortPairs(items)) == multiset(items)
    ensures SortedPairs(SortPairs(items))
  {
    if items != [] {
      SortPairsMeaning(items[1..]);
      InsertPairPermutes(items[0], SortPairs(items[1..]));
      InsertPairSorted(items[0], SortPairs(items[1..]));
      assert items == [items[0]] + items[1..];
    }
  }

  lemma {:induction false} InsertPairDistinct(e: (nat, nat), s: Items<nat>)
    requires DistinctKeys(s) && forall x :: x in s ==> x.0 != e.0
    ensures DistinctKeys(InsertPair(e, s))
  {
    if s != [] && !PairLe(e, s[0]) {
      InsertPairDistinct(e, s[1..]);
      var r := InsertPair(e, s[1..]);
      InsertPairPermutes(e, s[1..]);
      forall j | 0 <= j < |r| ensures r[j].0 != s[0].0 {
        assert r[j] in multiset(s[1..]) + multiset{e};
        if r[j] != e {
          assert r[j] in s[1..];
          var k :| 0 <= k < |s[1..]| && s[1..][k] == r[j];
          assert s[k + 1] == r[j];
        }
      }
      var all := [s[0]] + r;
      forall i, j | 0 <= i < j < |all| ensures all[i].0 != all[j].0 {
        if i > 0 {
          assert all[i] == r[i - 1] && all[j] == r[j - 1];
        }
      }
    }
  }

  lemma {:induction false} SortPairsDistinct(items: Items<nat>)
    requires DistinctKeys(items)
    ensures DistinctKeys(SortPairs(items))
  {
    if items != [] {
      var rest := items[1..];
      assert DistinctKeys(rest) by {
        forall i, j | 0 <= i < j < |rest| ensures rest[i].0 != rest[j].0 {
          assert rest[i] == items[i + 1] && rest[j] == items[j + 1];
        }
      }
      SortPairsDistinct(rest);
      SortPairsMeaning(rest);
      forall x | x in SortPairs(rest) ensures x.0 != items[0].0 {
        assert x in multiset(rest);
        var k :| 0 <= k < |rest| && rest[k] == x;
        assert items[k + 1] == x;
      }
      InsertPairDistinct(items[0], SortPairs(rest));
    }
  }

  /** With distinct hours (as in a Counter), the sorted trend is strictly ascending by hour. */
  lemma SortPairsAscending(items: Items<nat>)
    requires DistinctKeys(items)
    ensures forall i, j :: 0 <= i < j < |SortPairs(items)| ==> SortPairs(items)[i].0 < SortPairs(items)[j].0
  {
    SortPairsMeaning(items);
    SortPairsDistinct(items);
  }

  // ---------------------------------------------------------- CSV rows

  /** A CSV cell as `csv.writer` receives it: a string or an integer. */
  datatype Cell = Str(text: string) | Num(value: int)

  type Row = seq<Cell>

  /** `writer.writerows(pairs)` for (key, count) pairs with string keys. */
  function PairRows(items: Items<string>): (r: seq<Row>)
    ensures |r| == |items|
  {
    if items == [] then [] else [[Str(items[0].0), Num(items[0].1)]] + PairRows(items[1..])
  }

  /** `writer.writerows(pairs)` for (hour, count) pairs. */
  function HourRows(items: Items<nat>): (r: seq<Row>)
    ensures |r| == |items|
  {
    if items == [] then [] else [[Num(items[0].0), Num(items[0].1)]] + HourRows(items[1..])
  }

  /** Reading data rows back as (key, count) pairs: each row must be a string and a count. */
  function ReadPairs(rows: seq<Row>): Option<Items<string>> {
    if rows == [] then Some([])
    else if |rows[0]| == 2 && rows[0][0].Str? && rows[0][1].Num? && rows[0][1].value >= 0 then
      var rest :- ReadPairs(rows[1..]);
      Some([(rows[0][0].text, rows[0][1].value as nat)] + rest)
    else None
  }

  /** Reading data rows back as (hour, count) pairs. */
  function ReadHours(rows: seq<Row>): Option<Items<nat>> {
    if rows == [] then Some([])
    else if |rows[0]| == 2 && rows[0][0].Num? && rows[0][1].Num? && rows[0][0].value >= 0 && rows[0][1].value >= 0 then
      var rest :- ReadHours(rows[1..]);
      Some([(rows[0][0].value as nat, rows[0][1].value as nat)] + rest)
    else None
  }

  lemma {:induction false} ReadPairRows(items: Items<string>)
    ensures ReadPairs(PairRows(items)) == Some(items)
  {
    if items != [] {
      ReadPairRows(items[1..]);
      var rows := PairRows(items);
      assert rows[0] == [Str(items[0].0), Num(items[0].1)];
      assert rows[1..] == PairRows(items[1..]);
      assert (rows[0][0].text, rows[0][1].value as nat) == items[0];
      assert items == [items[0]] + items[1..];
    }
  }

  lemma {:induction false} ReadHourRows(items: Items<nat>)
    ensures ReadHours(HourRows(items)) == Some(items)
  {
    if items != [] {
      ReadHourRows(items[1..]);
      var rows := HourRows(items);
      assert rows[0] == [Num(items[0].0), Num(items[0].1)];
      assert rows[1..] == HourRows(items[1..]);
      assert (rows[0][0].value as nat, rows[0][1].value as nat) == items[0];
      assert items == [items[0]] + items[1..];
    }
  }

  predicate NoBlank(rows: seq<Row>) {
    forall i :: 0 <= i < |rows| ==> rows[i] != []
  }

  lemma {:induction false} PairRowsNoBlank(items: Items<string>)
    ensures NoBlank(PairRows(items))
  {
    if items != [] {
      PairRowsNoBlank(items[1..]);
    }
  }

  lemma {:induction false} HourRowsNoBlank(items: Items<nat>)
    ensures NoBlank(HourRows(items))
  {
    if items != [] {
      HourRowsNoBlank(items[1..]);
    }
  }

  /** A title row, a header row, then the data rows. */
  function Section(title: string, header: Row, data: seq<Row>): seq<Row> {
    [[Str(title)], header] + data
  }

  /** Reading a section back: its title, its header and its data rows. */
  function ReadSection(rows: seq<Row>): Option<(string, Row, seq<Row>)> {
    if |rows| >= 2 && |rows[0]| == 1 && rows[0][0].Str? then Some((rows[0][0].text, rows[1], rows[2..])) else None
  }

  const Titles: seq<string> :=
    ["Top Requests by IP", "Top Endpoint", "Hourly Request Trend", "HTTP Status Code Analysis", "Suspicious IPs"]

  const Headers: seq<Row> := [
    [Str("IP Address"), Str("Requests")],
    [Str("Endpoint"), Str("Access Count")],
    [Str("Hour"), Str("Requests")],
    [Str("Status Code"), Str("Count")],
    [Str("IP Address"), Str("Failed Logins")]]

  /** Lines 105-106: the row of the most requested endpoint, written only when `most_ep` is truthy. */
  function EndpointRows(s: Summary): (r: seq<Row>)
    ensures |r| <= 1
    ensures r != [] <==> s.mostEp.Some? && s.mostEp.value != ""
    ensures r != [] ==> ReadPairs(r) == Some([(s.mostEp.value, s.mostEpCount)])
  {
    if s.mostEp.Some? && s.mostEp.value != "" then
      var pair := [(s.mostEp.value, s.mostEpCount)];
      ReadPairRows(pair);
      assert PairRows(pair) == [[Str(s.mostEp.value), Num(s.mostEpCount)]];
      [[Str(s.mostEp.value), Num(s.mostEpCount)]]
    else []
  }

  /** With non-empty paths, the Top Endpoint row is written exactly when there are endpoints. */
  lemma EndpointRowPresent(t: Tally, threshold: int, topN: int)
    requires forall p :: p in t.endpoints ==> p != ""
    ensures |EndpointRows(Summarize(t, threshold, topN))| == if t.endpoints == [] then 0 else 1
  {
    var k := MostRequestedOf(t.endpoints);
  }

  /** `most_ep` and `most_ep_count` of a summary, in terms of the endpoints appended by the loop. */
  lemma SummaryMostEp(t: Tally, threshold: int, topN: int)
    ensures var s := Summarize(t, threshold, topN);
      && (s.mostEp.Some? <==> t.endpoints != [])
      && (s.mostEp.Some? ==> exists k ::
            && 0 <= k < |s.epCount| && s.epCount[k] == (s.mostEp.value, s.mostEpCount)
            && s.mostEpCount == multiset(t.endpoints)[s.mostEp.value]
            && (forall p :: multiset(t.endpoints)[p] <= s.mostEpCount)
            && (forall j :: 0 <= j < k ==> s.epCount[j].1 < s.mostEpCount))
  {
    var k := MostRequestedOf(t.endpoints);
  }

  /** The data rows of the five sections (lines 100, 106, 111, 116, 121). */
  function DataRows(s: Summary): seq<seq<Row>> {
    [PairRows(s.topIps), EndpointRows(s), HourRows(SortPairs(s.hourly)), PairRows(s.errors), PairRows(s.suspicious)]
  }

  /** Lines 98-121: the five sections of the report, separated by blank rows. */
  function ReportRows(s: Summary): (r: seq<Row>)
    ensures |r| == 14 + |s.topIps| + |EndpointRows(s)| + |s.hourly| + |s.errors| + |s.suspicious|
  {
    var d := DataRows(s);
    Section(Titles[0], Headers[0], d[0]) + [[]] +
    (Section(Titles[1], Headers[1], d[1]) + [[]] +
     (Section(Titles[2], Headers[2], d[2]) + [[]] +
      (Section(Titles[3], Headers[3], d[3]) + [[]] +
       Section(Titles[4], Headers[4], d[4]))))
  }

  /** A reader's view of the file: the groups of rows between blank rows. */
  function SplitAtBlanks(rows: seq<Row>): (r: seq<seq<Row>>)
    ensures |r| >= 1
  {
    if rows == [] then [[]]
    else if rows[0] == [] then [[]] + SplitAtBlanks(rows[1..])
    else
      var rest := SplitAtBlanks(rows[1..]);
      [[rows[0]] + rest[0]] + rest[1..]
  }

  lemma {:induction false} SplitJoin(a: seq<Row>, b: seq<Row>)
    requires NoBlank(a)
    ensures SplitAtBlanks(a + [[]] + b) == [a] + SplitAtBlanks(b)
  {
    if a != [] {
      SplitJoin(a[1..], b);
      assert (a + [[]] + b)[1..] == a[1..] + [[]] + b;
      assert [a[0]] + a[1..] == a;
    } else {
      assert a + [[]] + b == [[]] + b;
    }
  }

  lemma {:induction false} SplitNoBlank(a: seq<Row>)
    requires NoBlank(a)
    ensures SplitAtBlanks(a) == [a]
  {
    if a != [] {
      SplitNoBlank(a[1..]);
      assert [a[0]] + a[1..] == a;
    }
  }

  lemma SectionNoBlank(title: string, header: Row, data: seq<Row>)
    requires header != [] && NoBlank(data)
    ensures NoBlank(Section(title, header, data))
  {
    var r := Section(title, header, data);
    forall i | 2 <= i < |r| ensures r[i] != [] {
      assert r[i] == data[i - 2];
    }
  }

  lemma DataRowsNoBlank(s: Summary)
    ensures forall k :: 0 <= k < 5 ==> NoBlank(DataRows(s)[k])
  {
    PairRowsNoBlank(s.topIps);
    PairRowsNoBlank(s.errors);
    PairRowsNoBlank(s.suspicious);
    HourRowsNoBlank(SortPairs(s.hourly));
  }

  /** Split at its blank rows, the report is its five sections, in order. */
  lemma ReportSplits(s: Summary)
    ensures SplitAtBlanks(ReportRows(s)) ==
      seq(5, k requires 0 <= k < 5 => Section(Titles[k], Headers[k], DataRows(s)[k]))
  {
    var d := DataRows(s);
    DataRowsNoBlank(s);
    var p := seq(5, k requires 0 <= k < 5 => Section(Titles[k], Headers[k], d[k]));
    forall k | 0 <= k < 5 ensures NoBlank(p[k]) {
      SectionNoBlank(Titles[k], Headers[k], d[k]);
    }
    assert p[0] == Section(Titles[0], Headers[0], d[0]) && p[1] == Section(Titles[1], Headers[1], d[1]);
    assert p[2] == Section(Titles[2], Headers[2], d[2]) && p[3] == Section(Titles[3], Headers[3], d[3]);
    assert p[4] == Section(Titles[4], Headers[4], d[4]);
    assert ReportRows(s) == p[0] + [[]] + (p[1] + [[]] + (p[2] + [[]] + (p[3] + [[]] + p[4])));
    SplitNoBlank(p[4]);
    SplitJoin(p[3], p[4]);
    SplitJoin(p[2], p[3] + [[]] + p[4]);
    SplitJoin(p[1], p[2] + [[]] + (p[3] + [[]] + p[4]));
    SplitJoin(p[0], p[1] + [[]] + (p[2] + [[]] + (p[3] + [[]] + p[4])));
    assert SplitAtBlanks(ReportRows(s)) == [p[0], p[1], p[2], p[3], p[4]];
  }

  /**
   * Read back at the blank rows, the report holds exactly five sections with
   * the titles and headers of lines 98-120, and their data rows read back as
   * the top IPs, the most requested endpoint, the sorted hourly trend, the
   * status counts and the suspicious IPs.
   */
  lemma ReportReadBack(s: Summary)
    ensures var parts := SplitAtBlanks(ReportRows(s));
      && |parts| == 5
      && (forall k :: 0 <= k < 5 ==>
            ReadSection(parts[k]).Some? && ReadSection(parts[k]).value.0 == Titles[k] &&
            ReadSection(parts[k]).value.1 == Headers[k])
      && ReadPairs(ReadSection(parts[0]).value.2) == Some(s.topIps)
      && ReadPairs(ReadSection(parts[1]).value.2) ==
           Some(if s.mostEp.Some? && s.mostEp.value != "" then [(s.mostEp.value, s.mostEpCount)] else [])
      && ReadHours(ReadSection(parts[2]).value.2) == Some(SortPairs(s.hourly))
      && ReadPairs(ReadSection(parts[3]).value.2) == Some(s.errors)
      && ReadPairs(ReadSection(parts[4]).value.2) == Some(s.suspicious)
  {
    ReportSplits(s);
    var d := DataRows(s);
    forall k | 0 <= k < 5 ensures ReadSection(Section(Titles[k], Headers[k], d[k])) == Some((Titles[k], Headers[k], d[k])) {
      assert Section(Titles[k], Headers[k], d[k])[2..] == d[k];
    }
    ReadPairRows(s.topIps);
    ReadPairRows(s.errors);
    ReadPairRows(s.suspicious);
    ReadHourRows(SortPairs(s.hourly));
    if s.mostEp.Some? && s.mostEp.value != "" {
      ReadPairRows([(s.mostEp.value, s.mostEpCount)]);
      assert PairRows([(s.mostEp.value, s.mostEpCount)]) == EndpointRows(s);
    }
  }
}
