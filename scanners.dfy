/**
 * The five fixed patterns that `log_analyze` searches each log line for.
 * Each pattern is a matcher at one start position (`IpAt`, `EndpointAt`,
 * `FailureAt`, `StampAt`, `StatusAt`) written as a scanner, and the search
 * is `Text.Search` from position 0. For the two patterns whose scanner
 * is not a literal reading of the pattern (the IP and the endpoint), a
 * declarative predicate states what the pattern matches and a lemma proves
 * the scanner agrees with it in both directions.
 */
module Scanners {
  import opened Options
  import opened Text

  // ---------------------------------------------------------------- IP
  // \b(?:[0-9]{1,3}\.){3}[0-9]{1,3}\b

  /**
   * One `[0-9]{1,3}` group at p. Within the IP pattern a group is always
   * followed by `.` or by `\b`, neither of which can follow a digit that
   * continues the run, so the group is the whole digit run at p.
   */
  function Octet(s: string, p: nat): (r: Option<nat>)
    requires p <= |s|
    ensures r.Some? ==> p < r.value <= |s|
  {
    var k := Run(s, p, Digit);
    if 1 <= k <= 3 then Some(p + k) else None
  }

  /** `[0-9]{1,3}\.` at p: the position after the dot. */
  function OctetDot(s: string, p: nat): (r: Option<nat>)
    requires p <= |s|
    ensures r.Some? ==> p < r.value <= |s|
  {
    var e :- Octet(s, p);
    if e < |s| && s[e] == '.' then Some(e + 1) else None
  }

  /** The IP pattern at start position i: where the match ends, if it matches there. */
  function IpAt(s: string, i: nat): (r: Option<nat>)
    ensures r.Some? ==> i < r.value <= |s|
  {
    if i > |s| || !WordBoundary(s, i) then None
    else
      var p1 :- OctetDot(s, i);
      var p2 :- OctetDot(s, p1);
      var p3 :- OctetDot(s, p2);
      var e :- Octet(s, p3);
      if WordBoundary(s, e) then Some(e) else None
  }

  /** s[a..b] is one `[0-9]{1,3}` group. */
  predicate OctetSpan(s: string, a: nat, b: nat) {
    a < b <= |s| && b - a <= 3 && forall j :: a <= j < b ==> IsDigit(s[j])
  }

  /** s[i..e] reads group `.` group `.` group `.` group, with the dots at a, b and c. */
  predicate DottedQuad(s: string, i: nat, a: nat, b: nat, c: nat, e: nat) {
    && OctetSpan(s, i, a) && a < |s| && s[a] == '.'
    && OctetSpan(s, a + 1, b) && b < |s| && s[b] == '.'
    && OctetSpan(s, b + 1, c) && c < |s| && s[c] == '.'
    && OctetSpan(s, c + 1, e)
  }

  /** The IP pattern matches exactly s[i..e]: four dotted groups and a word boundary at each end. */
  ghost predicate IsIpMatch(s: string, i: nat, e: nat) {
    && i <= e <= |s|
    && WordBoundary(s, i)
    && WordBoundary(s, e)
    && exists a: nat, b: nat, c: nat :: DottedQuad(s, i, a, b, c, e)
  }

  lemma OctetOfSpan(s: string, a: nat, b: nat)
    requires OctetSpan(s, a, b)
    requires b == |s| || !IsDigit(s[b])
    ensures Octet(s, a) == Some(b)
  {
    RunIsMaximal(s, a, Digit, b - a);
  }

  lemma SpanOfOctet(s: string, p: nat)
    requires p <= |s| && Octet(s, p).Some?
    ensures OctetSpan(s, p, Octet(s, p).value)
  {
  }

  lemma SpanOfOctetDot(s: string, p: nat)
    requires p <= |s| && OctetDot(s, p).Some?
    ensures var q := OctetDot(s, p).value; q >= 1 && OctetSpan(s, p, q - 1) && s[q - 1] == '.'
  {
    SpanOfOctet(s, p);
  }

  lemma IpAtSound(s: string, i: nat, e: nat)
    requires IpAt(s, i) == Some(e)
    ensures IsIpMatch(s, i, e)
  {
    SpanOfOctetDot(s, i);
    var p1 := OctetDot(s, i).value;
    SpanOfOctetDot(s, p1);
    var p2 := OctetDot(s, p1).value;
    SpanOfOctetDot(s, p2);
    var p3 := OctetDot(s, p2).value;
    SpanOfOctet(s, p3);
    assert Octet(s, p3) == Some(e);
    assert DottedQuad(s, i, p1 - 1, p2 - 1, p3 - 1, e);
  }

  lemma IpAtComplete(s: string, i: nat, e: nat)
    requires IsIpMatch(s, i, e)
    ensures IpAt(s, i) == Some(e)
  {
    var a: nat, b: nat, c: nat :| DottedQuad(s, i, a, b, c, e);
    assert IsDigit(s[e - 1]);
    IpAtOfQuad(s, i, a, b, c, e);
  }

  /** The scanner on four dotted groups between two word boundaries. */
  lemma IpAtOfQuad(s: string, i: nat, a: nat, b: nat, c: nat, e: nat)
    requires DottedQuad(s, i, a, b, c, e) && WordBoundary(s, i) && WordBoundary(s, e)
    requires e == |s| || !IsDigit(s[e])
    ensures IpAt(s, i) == Some(e)
  {
    var p1, p2, p3 := a + 1, b + 1, c + 1;
    assert OctetSpan(s, i, a) && OctetSpan(s, p1, b) && OctetSpan(s, p2, c) && OctetSpan(s, p3, e);
    OctetDotOfSpan(s, i, a);
    OctetDotOfSpan(s, p1, b);
    OctetDotOfSpan(s, p2, c);
    OctetOfSpan(s, p3, e);
    IpAtOfGroups(s, i, p1, p2, p3, e);
  }

  lemma OctetDotOfSpan(s: string, a: nat, b: nat)
    requires OctetSpan(s, a, b) && b < |s| && s[b] == '.'
    ensures OctetDot(s, a) == Some(b + 1)
  {
    OctetOfSpan(s, a, b);
  }

  /** The scanner on four groups found in turn. */
  lemma IpAtOfGroups(s: string, i: nat, p1: nat, p2: nat, p3: nat, e: nat)
    requires i <= |s| && WordBoundary(s, i)
    requires OctetDot(s, i) == Some(p1) && OctetDot(s, p1) == Some(p2) && OctetDot(s, p2) == Some(p3)
    requires Octet(s, p3) == Some(e) && WordBoundary(s, e)
    ensures IpAt(s, i) == Some(e)
  {
  }

  /** The scanner finds a match at i exactly when the pattern matches s[i..e]; so there is at most one e. */
  lemma IpAtIsMatch(s: string, i: nat, e: nat)
    ensures IpAt(s, i) == Some(e) <==> IsIpMatch(s, i, e)
  {
    if IpAt(s, i) == Some(e) {
      IpAtSound(s, i, e);
    }
    if IsIpMatch(s, i, e) {
      IpAtComplete(s, i, e);
    }
  }

  /** `re.search(ip_pattern, line)`: the leftmost start and end of a match. */
  function IpSearch(s: string): Option<(nat, nat)> {
    Search(s, IpAt, 0)
  }

  /**
   * `ip.group()`: the text of the leftmost match of the IP pattern, and
   * nothing only when the pattern matches nowhere in the line.
   */
  function FindIp(s: string): (r: Option<string>)
    ensures r.None? <==> forall i: nat, e: nat :: !IsIpMatch(s, i, e)
    ensures r.Some? ==> exists i: nat, e: nat ::
      && IsIpMatch(s, i, e) && r.value == s[i..e]
      && forall i': nat, e': nat :: i' < i ==> !IsIpMatch(s, i', e')
  {
    IpSearchIsLeftmost(s);
    match IpSearch(s)
    case None => None
    case Some((i, e)) => assert IpAt(s, i) == Some(e); Some(s[i..e])
  }

  /** The search returns the leftmost match of the IP pattern, and nothing only when the line has none. */
  lemma IpSearchIsLeftmost(s: string)
    ensures IpSearch(s).Some? ==>
      var (i, e) := IpSearch(s).value;
      IsIpMatch(s, i, e) && forall i': nat, e': nat :: i' < i ==> !IsIpMatch(s, i', e')
    ensures IpSearch(s).None? ==> forall i': nat, e': nat :: !IsIpMatch(s, i', e')
  {
    forall i': nat, e': nat
      ensures IsIpMatch(s, i', e') ==> IpSearch(s).Some? && IpSearch(s).value.0 <= i'
    {
      IpAtIsMatch(s, i', e');
    }
    if IpSearch(s).Some? {
      var (i, e) := IpSearch(s).value;
      IpAtIsMatch(s, i, e);
    }
  }

  // ---------------------------------------------------------- Endpoint
  // \"(?:GET|POST|PUT|DELETE|HEAD|OPTIONS) ([^\s]+)

  /** The alternatives of the method group, in the order the pattern tries them. */
  const Methods: seq<string> := ["GET", "POST", "PUT", "DELETE", "HEAD", "OPTIONS"]

  /** `([^\s]+)` at q: the greedy, hence maximal, non-empty run of non-space characters. */
  function PathAt(s: string, q: nat): (r: Option<string>)
    requires q <= |s|
  {
    var k := Run(s, q, NonSpace);
    if k >= 1 then Some(s[q..q + k]) else None
  }

  /**
   * The method alternation followed by ` ([^\s]+)` at p, trying the
   * alternatives in order and backtracking to the next one when the rest fails.
   */
  function MethodThenPath(s: string, p: nat, alts: seq<string>): (r: Option<string>)
    decreases |alts|
  {
    if alts == [] then None
    else
      var q := p + |alts[0]|;
      if StartsAt(s, p, alts[0]) && q < |s| && s[q] == ' ' && PathAt(s, q + 1).Some?
      then PathAt(s, q + 1)
      else MethodThenPath(s, p, alts[1..])
  }

  /** The endpoint pattern at start position i: the captured path, if it matches there. */
  function EndpointAt(s: string, i: nat): Option<string> {
    if i < |s| && s[i] == '"' then MethodThenPath(s, i + 1, Methods) else None
  }

  /** Method m matches at i and is followed by one space, and the path is the maximal non-space run after it. */
  ghost predicate IsEndpointMatchWith(s: string, i: nat, m: string, path: string) {
    var q := i + 2 + |m|;
    && i < |s| && s[i] == '"'
    && StartsAt(s, i + 1, m)
    && q <= |s| && s[q - 1] == ' '
    && |path| >= 1
    && StartsAt(s, q, path)
    && (forall j :: q <= j < q + |path| ==> !IsSpace(s[j]))
    && (q + |path| == |s| || IsSpace(s[q + |path|]))
  }

  /** The endpoint pattern matches at i with group 1 equal to path. */
  ghost predicate IsEndpointMatch(s: string, i: nat, path: string) {
    exists m :: m in Methods && IsEndpointMatchWith(s, i, m, path)
  }

  /** No method name is a prefix of another, so at most one of them matches at a position. */
  lemma MethodsExclusive(s: string, p: nat, m1: string, m2: string)
    requires m1 in Methods && m2 in Methods
    requires StartsAt(s, p, m1) && StartsAt(s, p, m2)
    ensures m1 == m2
  {
    assert s[p] == s[p..p + |m1|][0] == m1[0];
    assert s[p] == s[p..p + |m2|][0] == m2[0];
    assert s[p + 1] == s[p..p + |m1|][1] == m1[1];
    assert s[p + 1] == s[p..p + |m2|][1] == m2[1];
  }

  lemma PathAtIsRun(s: string, q: nat, path: string)
    requires q <= |s|
    ensures PathAt(s, q) == Some(path) <==>
      && |path| >= 1
      && StartsAt(s, q, path)
      && (forall j :: q <= j < q + |path| ==> !IsSpace(s[j]))
      && (q + |path| == |s| || IsSpace(s[q + |path|]))
  {
    if |path| >= 1 && StartsAt(s, q, path)
       && (forall j :: q <= j < q + |path| ==> !IsSpace(s[j]))
       && (q + |path| == |s| || IsSpace(s[q + |path|]))
    {
      RunIsMaximal(s, q, NonSpace, |path|);
    }
  }

  /** Method m, one space and the path, right after the quote at p - 1. */
  lemma MethodThenPathHere(s: string, p: nat, m: string, path: string)
    requires 1 <= p <= |s| && s[p - 1] == '"'
    requires StartsAt(s, p, m) && p + |m| < |s| && s[p + |m|] == ' '
    requires PathAt(s, p + |m| + 1) == Some(path)
    ensures IsEndpointMatchWith(s, p - 1, m, path)
  {
    PathAtIsRun(s, p + |m| + 1, path);
  }

  lemma {:induction false} MethodThenPathSound(s: string, p: nat, alts: seq<string>, path: string) returns (m: string)
    requires 1 <= p <= |s| && s[p - 1] == '"'
    requires MethodThenPath(s, p, alts) == Some(path)
    ensures m in alts && IsEndpointMatchWith(s, p - 1, m, path)
    decreases |alts|
  {
    var q := p + |alts[0]|;
    if StartsAt(s, p, alts[0]) && q < |s| && s[q] == ' ' && PathAt(s, q + 1).Some? {
      m := alts[0];
      MethodThenPathHere(s, p, m, path);
    } else {
      m := MethodThenPathSound(s, p, alts[1..], path);
    }
  }

  lemma {:induction false} MethodThenPathComplete(s: string, p: nat, alts: seq<string>, m: string, path: string)
    requires p >= 1
    requires m in alts && IsEndpointMatchWith(s, p - 1, m, path)
    requires forall m' :: m' in alts && StartsAt(s, p, m') ==> m' == m
    ensures MethodThenPath(s, p, alts) == Some(path)
    decreases |alts|
  {
    PathAtIsRun(s, p + |m| + 1, path);
    if alts[0] != m {
      assert !StartsAt(s, p, alts[0]);
      MethodThenPathComplete(s, p, alts[1..], m, path);
    }
  }

  /** The scanner captures path at i exactly when the endpoint pattern matches there with that group. */
  lemma EndpointAtIsMatch(s: string, i: nat, path: string)
    ensures EndpointAt(s, i) == Some(path) <==> IsEndpointMatch(s, i, path)
  {
    if EndpointAt(s, i) == Some(path) {
      var m := MethodThenPathSound(s, i + 1, Methods, path);
    }
    if IsEndpointMatch(s, i, path) {
      var m :| m in Methods && IsEndpointMatchWith(s, i, m, path);
      forall m' | m' in Methods && StartsAt(s, i + 1, m') ensures m' == m {
        MethodsExclusive(s, i + 1, m, m');
      }
      MethodThenPathComplete(s, i + 1, Methods, m, path);
    }
  }

  /** `endpoint.group(1)` of `re.search(endpoint_pattern, line)`. */
  function FindEndpoint(s: string): (r: Option<string>)
    ensures r.Some? ==> |r.value| >= 1 && forall j :: 0 <= j < |r.value| ==> !IsSpace(r.value[j])
  {
    match Search(s, EndpointAt, 0)
    case None => None
    case Some((i, path)) =>
      EndpointIsToken(s, i, path);
      Some(path)
  }

  lemma EndpointIsToken(s: string, i: nat, path: string)
    requires EndpointAt(s, i) == Some(path)
    ensures |path| >= 1 && forall j :: 0 <= j < |path| ==> !IsSpace(path[j])
  {
    EndpointAtIsMatch(s, i, path);
    var m :| m in Methods && IsEndpointMatchWith(s, i, m, path);
    assert forall j :: 0 <= j < |path| ==> path[j] == s[i + 2 + |m| + j];
  }

  /** The path found is group 1 of the leftmost match of the endpoint pattern. */
  lemma FindEndpointIsLeftmost(s: string)
    ensures FindEndpoint(s).Some? ==>
      exists i: nat :: IsEndpointMatch(s, i, FindEndpoint(s).value) &&
        forall i': nat, p' :: i' < i ==> !IsEndpointMatch(s, i', p')
    ensures FindEndpoint(s).None? ==> forall i': nat, p' :: !IsEndpointMatch(s, i', p')
  {
    forall i': nat, p'
      ensures IsEndpointMatch(s, i', p') ==>
        Search(s, EndpointAt, 0).Some? && Search(s, EndpointAt, 0).value.0 <= i'
    {
      EndpointAtIsMatch(s, i', p');
    }
    if Search(s, EndpointAt, 0).Some? {
      var (i, path) := Search(s, EndpointAt, 0).value;
      EndpointAtIsMatch(s, i, path);
    }
  }

  // ----------------------------------------------------------- Failure
  // (401|Invalid credentials)

  /** The failure pattern at i: its two alternatives, in order. */
  function FailureAt(s: string, i: nat): Option<string> {
    if StartsAt(s, i, "401") then Some("401")
    else if StartsAt(s, i, "Invalid credentials") then Some("Invalid credentials")
    else None
  }

  /** `re.search(fail_pattern, line)` is truthy: `401` or `Invalid credentials` occurs anywhere in the line. */
  function HasFailure(s: string): (r: bool)
    ensures r <==> Occurs(s, "401") || Occurs(s, "Invalid credentials")
  {
    FailureSearch(s);
    Search(s, FailureAt, 0).Some?
  }

  /** w is a substring of s. */
  ghost predicate Occurs(s: string, w: string) {
    exists i, j :: 0 <= i <= j <= |s| && s[i..j] == w
  }

  lemma FailureSearch(s: string)
    ensures Search(s, FailureAt, 0).Some? <==> Occurs(s, "401") || Occurs(s, "Invalid credentials")
  {
    if Search(s, FailureAt, 0).Some? {
      var (i, w) := Search(s, FailureAt, 0).value;
      assert s[i..i + |w|] == w;
    }
    if Occurs(s, "401") || Occurs(s, "Invalid credentials") {
      var w := if Occurs(s, "401") then "401" else "Invalid credentials";
      var i, j :| 0 <= i <= j <= |s| && s[i..j] == w;
      assert FailureAt(s, i).Some?;
    }
  }

  // -------------------------------------------------------------- Date
  // \d{2}/[A-Za-z]{3}/\d{4}:\d{2}

  /** t has the 14-character shape `DD/Mon/YYYY:HH`. */
  predicate IsStampShape(t: string) {
    && |t| == 14
    && IsDigit(t[0]) && IsDigit(t[1]) && t[2] == '/'
    && IsAsciiLetter(t[3]) && IsAsciiLetter(t[4]) && IsAsciiLetter(t[5]) && t[6] == '/'
    && IsDigit(t[7]) && IsDigit(t[8]) && IsDigit(t[9]) && IsDigit(t[10]) && t[11] == ':'
    && IsDigit(t[12]) && IsDigit(t[13])
  }

  /** The date pattern at i. */
  function StampAt(s: string, i: nat): Option<string> {
    if i + 14 <= |s| && IsStampShape(s[i..i + 14]) then Some(s[i..i + 14]) else None
  }

  /** `timestamp.group()` of `re.search(date_pattern, line)`: the leftmost `DD/Mon/YYYY:HH` fragment. */
  function FindStamp(s: string): (r: Option<string>)
    ensures r.Some? ==> IsStampShape(r.value)
    ensures r.Some? ==> exists i :: (0 <= i <= |s| - 14 && StampAt(s, i) == r &&
      forall j :: 0 <= j < i ==> StampAt(s, j).None?)
    ensures r.None? <==> forall i :: 0 <= i <= |s| ==> StampAt(s, i).None?
  {
    match Search(s, StampAt, 0)
    case None => None
    case Some((i, t)) => Some(t)
  }

  // ------------------------------------------------------------ Status
  // \s(\d{3})\s

  /** The status pattern at i: group 1, the three digits between two whitespace characters. */
  function StatusAt(s: string, i: nat): Option<string> {
    if i + 5 <= |s| && IsSpace(s[i]) && IsDigit(s[i + 1]) && IsDigit(s[i + 2]) && IsDigit(s[i + 3]) && IsSpace(s[i + 4])
    then Some(s[i + 1..i + 4])
    else None
  }

  /** `status_code.group(1)`: the three digits of the leftmost whitespace-delimited three-digit token. */
  function FindStatus(s: string): (r: Option<string>)
    ensures r.Some? ==> |r.value| == 3 && forall j :: 0 <= j < 3 ==> IsDigit(r.value[j])
    ensures r.Some? ==> exists i :: (0 <= i <= |s| - 5 && StatusAt(s, i) == r &&
      forall j :: 0 <= j < i ==> StatusAt(s, j).None?)
    ensures r.None? <==> forall i :: 0 <= i <= |s| ==> StatusAt(s, i).None?
  {
    match Search(s, StatusAt, 0)
    case None => None
    case Some((i, code)) => Some(code)
  }
}
