/** Exchanges in sequences, and counting facts about finite sets of indices. */
module Finite {

  function Swap<T>(a: seq<T>, i: nat, j: nat): seq<T>
    requires i < |a| && j < |a|
  {
    a[i := a[j]][j := a[i]]
  }

  ghost function Below(n: nat): (r: set<nat>)
    ensures |r| == n && forall t: nat :: t in r <==> t < n
  {
    if n == 0 then {} else Below(n - 1) + {n - 1}
  }

  lemma SubsetSize(x: set<nat>, y: set<nat>)
    requires x <= y
    ensures |x| <= |y|
    ensures |x| == |y| ==> x == y
  {
    assert y == x + (y - x);
    assert |y| == |x| + |y - x|;
  }

  lemma FullSet(n: nat, x: set<nat>)
    requires forall t :: t in x ==> t < n
    ensures |x| <= n
    ensures |x| == n ==> forall t :: 0 <= t < n ==> t in x
  {
    assert x <= Below(n);
    SubsetSize(x, Below(n));
  }

  ghost predicate Distinct(p: seq<nat>) {
    forall i, j :: 0 <= i < j < |p| ==> p[i] != p[j]
  }

  /** A sequence that lists the numbers below its length, each once. */
  ghost predicate Permutation(p: seq<nat>) {
    Distinct(p) && forall i :: 0 <= i < |p| ==> p[i] < |p|
  }

  ghost function Elements(p: seq<nat>): (r: set<nat>)
    ensures forall x :: x in r <==> x in p
  {
    if p == [] then {}
    else
      var n := |p| - 1;
      assert p == p[..n] + [p[n]];
      Elements(p[..n]) + {p[n]}
  }

  lemma {:induction false} DistinctSize(p: seq<nat>)
    requires Distinct(p)
    ensures |Elements(p)| == |p|
  {
    if p != [] {
      var n := |p| - 1;
      DistinctSize(p[..n]);
      assert p[n] !in p[..n];
    }
  }

  /** A permutation misses nothing. */
  lemma PermutationCovers(p: seq<nat>, x: nat)
    requires Permutation(p) && x < |p|
    ensures x in p
  {
    DistinctSize(p);
    FullSet(|p|, Elements(p));
  }
}
