/**
 * Character classes and the search discipline shared by the five fixed
 * patterns of the log analyzer: Python's `re.search` tries each start
 * position from the left and returns the first position at which the
 * pattern matches.
 */
module Text {
  import opened Options

  /** `[0-9]`; also used for `\d`, restricted to ASCII digits. */
  predicate IsDigit(c: char) { '0' <= c <= '9' }

  /** `[A-Za-z]`. */
  predicate IsAsciiLetter(c: char) { 'a' <= c <= 'z' || 'A' <= c <= 'Z' }

  /** `\w`, restricted to ASCII letters, digits and underscore. */
  predicate IsWordChar(c: char) { IsDigit(c) || IsAsciiLetter(c) || c == '_' }

  /** `\s` on a `str` pattern: the code points Python classifies as whitespace. */
  predicate IsSpace(c: char) {
    || '\t' <= c <= '\r'
    || '\U{1C}' <= c <= '\U{1F}'
    || c == ' '
    || c == '\U{85}'
    || c == '\U{A0}'
    || c == '\U{1680}'
    || '\U{2000}' <= c <= '\U{200A}'
    || c == '\U{2028}'
    || c == '\U{2029}'
    || c == '\U{202F}'
    || c == '\U{205F}'
    || c == '\U{3000}'
  }

  /** The two classes the patterns repeat with a quantifier: `[0-9]` and `[^\s]`. */
  datatype CharClass = Digit | NonSpace

  predicate InClass(cls: CharClass, c: char) {
    match cls
    case Digit => IsDigit(c)
    case NonSpace => !IsSpace(c)
  }

  /** `\b` at position i: exactly one of the characters around i is a word character. */
  predicate WordBoundary(s: string, i: nat)
    requires i <= |s|
  {
    (i > 0 && IsWordChar(s[i - 1])) != (i < |s| && IsWordChar(s[i]))
  }

  /** The literal w occurs in s at position p. */
  predicate StartsAt(s: string, p: nat, w: string) {
    p + |w| <= |s| && s[p..p + |w|] == w
  }

  /** The length of the maximal run of characters of class `cls` starting at p. */
  function Run(s: string, p: nat, cls: CharClass): (k: nat)
    requires p <= |s|
    ensures p + k <= |s|
    ensures forall j :: p <= j < p + k ==> InClass(cls, s[j])
    ensures p + k == |s| || !InClass(cls, s[p + k])
    decreases |s| - p
  {
    if p < |s| && InClass(cls, s[p]) then 1 + Run(s, p + 1, cls) else 0
  }

  /** A run is determined by where it stops: a class run ending on a non-member (or the end) is the maximal one. */
  lemma RunIsMaximal(s: string, p: nat, cls: CharClass, k: nat)
    requires p + k <= |s|
    requires forall j :: p <= j < p + k ==> InClass(cls, s[j])
    requires p + k == |s| || !InClass(cls, s[p + k])
    ensures Run(s, p, cls) == k
  {
  }

  /**
   * `re.search`: the first position `from <= i <= |s|` at which the matcher
   * `at` succeeds, with what it matched there.
   */
  function Search<T>(s: string, at: (string, nat) -> Option<T>, from: nat): (r: Option<(nat, T)>)
    ensures r.Some? ==> from <= r.value.0 <= |s| && at(s, r.value.0) == Some(r.value.1)
    ensures forall j :: from <= j <= |s| && (r.None? || j < r.value.0) ==> at(s, j).None?
    decreases |s| + 1 - from
  {
    if from > |s| then None
    else match at(s, from)
      case Some(v) => Some((from, v))
      case None => Search(s, at, from + 1)
  }
}
