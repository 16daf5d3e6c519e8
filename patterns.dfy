/** The pattern search the buffer delegates to: "the first match of the pattern anywhere in a string".
    The regular-expression engine itself is not modelled; a finder is any function from the search
    string to an optional half-open span, and the only thing the buffer relies on is that the span
    lies inside the string. A literal-substring finder is given as one instance. */
module Patterns {
  import opened Blocks

  /** A match as the half-open character range [first, last) of the search string. */
  datatype Hit = Hit(first: nat, last: nat)

  type Finder = string -> Option<Hit>

  ghost predicate HitWithin(hit: Option<Hit>, s: string) {
    hit.Some? ==> hit.value.first <= hit.value.last <= |s|
  }

  /** What the buffer needs of its search engine: every reported match lies inside the searched string. */
  ghost predicate IsOracle(find: Finder) {
    forall s :: HitWithin(find(s), s)
  }

  ghost predicate OccursAt(p: string, s: string, k: nat) {
    k + |p| <= |s| && s[k..k + |p|] == p
  }

  /** The leftmost occurrence of `p` in `s` at or after position `from`. */
  function FindFrom(p: string, s: string, from: nat): (r: Option<Hit>)
    requires from <= |s|
    ensures r.Some? ==> from <= r.value.first && r.value.last == r.value.first + |p|
                        && OccursAt(p, s, r.value.first)
                        && forall k :: from <= k < r.value.first ==> !OccursAt(p, s, k)
    ensures r.None? ==> forall k :: from <= k <= |s| ==> !OccursAt(p, s, k)
    decreases |s| - from
  {
    if from + |p| > |s| then None
    else if s[from..from + |p|] == p then Some(Hit(from, from + |p|))
    else if from == |s| then None
    else FindFrom(p, s, from + 1)
  }

  /** Searching for the literal text `p`. */
  function LiteralFinder(p: string): Finder {
    s => FindFrom(p, s, 0)
  }

  lemma LiteralFinderIsOracle(p: string)
    ensures IsOracle(LiteralFinder(p))
  {
    forall s ensures HitWithin(LiteralFinder(p)(s), s) {
      var r := FindFrom(p, s, 0);
      assert r.Some? ==> OccursAt(p, s, r.value.first);
    }
  }
}
