/** Order-preserving selection from a sequence: a list comprehension with an `if` filter. */
module Sequences {

  /** `[x for x in s if keep(x)]`: the elements `keep` accepts, in their original order. */
  function Filter<T>(s: seq<T>, keep: T -> bool): (r: seq<T>)
    ensures |r| <= |s|
    ensures forall k :: 0 <= k < |r| ==> keep(r[k])
  {
    if s == [] then []
    else
      var init := Filter(s[..|s| - 1], keep);
      if keep(s[|s| - 1]) then init + [s[|s| - 1]] else init
  }

  /** Filtering one more element of `s` appends it exactly when it is kept. */
  lemma FilterExtend<T>(s: seq<T>, i: nat, keep: T -> bool)
    requires i < |s|
    ensures Filter(s[..i + 1], keep) == Filter(s[..i], keep) + (if keep(s[i]) then [s[i]] else [])
  {
    assert s[..i + 1][..i] == s[..i];
  }

  /** The positions of the elements `keep` accepts, in increasing order, each exactly once. */
  function KeptIndices<T>(s: seq<T>, keep: T -> bool): (r: seq<nat>)
    ensures forall k :: 0 <= k < |r| ==> r[k] < |s| && keep(s[r[k]])
    ensures forall k, l :: 0 <= k < l < |r| ==> r[k] < r[l]
    ensures forall i :: 0 <= i < |s| && keep(s[i]) ==> i in r
  {
    if s == [] then []
    else
      var init := KeptIndices(s[..|s| - 1], keep);
      if keep(s[|s| - 1]) then init + [|s| - 1] else init
  }

  /**
   * The filter keeps every accepted element exactly once and in input
   * order: its k-th element is the element at the k-th accepted position.
   */
  lemma {:induction false} FilterFollowsKeptIndices<T>(s: seq<T>, keep: T -> bool)
    ensures |Filter(s, keep)| == |KeptIndices(s, keep)|
    ensures forall k :: 0 <= k < |Filter(s, keep)| ==> Filter(s, keep)[k] == s[KeptIndices(s, keep)[k]]
  {
    if s != [] {
      var init := s[..|s| - 1];
      FilterFollowsKeptIndices(init, keep);
      forall k | 0 <= k < |KeptIndices(init, keep)|
        ensures s[KeptIndices(init, keep)[k]] == init[KeptIndices(init, keep)[k]]
      {
      }
    }
  }

  /** `any(p(x) for x in s)`. */
  predicate Any<T>(s: seq<T>, p: T -> bool) {
    exists k :: 0 <= k < |s| && p(s[k])
  }

  /** One more element makes `Any` true exactly when it satisfies `p` or the prefix already did. */
  lemma AnyExtend<T>(s: seq<T>, i: nat, p: T -> bool)
    requires i < |s|
    ensures Any(s[..i + 1], p) <==> Any(s[..i], p) || p(s[i])
  {
    var t := s[..i + 1];
    assert t[i] == s[i];
    if Any(s[..i], p) {
      var k :| 0 <= k < i && p(s[..i][k]);
      assert t[k] == s[..i][k];
    }
    if Any(t, p) {
      var k :| 0 <= k <= i && p(t[k]);
      if k < i { assert s[..i][k] == t[k]; }
    }
  }
}
