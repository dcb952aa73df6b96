/** `build_perm`: the shuffle that decides the order of random frees. */
module Shuffle {
  import opened Finite

  /** One draw below i for each i from n down to 2. */
  predicate Draws(n: nat, draws: seq<nat>) {
    if n <= 1 then draws == []
    else |draws| > 0 && draws[0] < n && Draws(n - 1, draws[1..])
  }

  /** Settles positions n - 1 down to 1. */
  function Shuffled(a: seq<nat>, n: nat, draws: seq<nat>): (b: seq<nat>)
    requires n <= |a| && Draws(n, draws)
    ensures |b| == |a|
    decreases n
  {
    if n <= 1 then a else Shuffled(Swap(a, n - 1, draws[0]), n - 1, draws[1..])
  }

  lemma SwapPermutes(a: seq<nat>, i: nat, j: nat)
    requires i < |a| && j < |a| && Permutation(a)
    ensures Permutation(Swap(a, i, j))
  {
  }

  /** Whatever is drawn, the result is a permutation. */
  lemma {:induction false} ShuffledPermutes(a: seq<nat>, n: nat, draws: seq<nat>)
    requires n <= |a| && Draws(n, draws) && Permutation(a)
    ensures Permutation(Shuffled(a, n, draws))
    decreases n
  {
    if n > 1 {
      SwapPermutes(a, n - 1, draws[0]);
      ShuffledPermutes(Swap(a, n - 1, draws[0]), n - 1, draws[1..]);
    }
  }

  lemma {:induction false} Settled(a: seq<nat>, n: nat, draws: seq<nat>, k: nat)
    requires n <= k < |a| && Draws(n, draws)
    ensures Shuffled(a, n, draws)[k] == a[k]
    decreases n
  {
    if n > 1 {
      Settled(Swap(a, n - 1, draws[0]), n - 1, draws[1..], k);
    }
  }

  /** The first draw settles the last of the n entries, and the other draws shuffle the rest, with
      the entry it displaced in the place it was drawn from. */
  lemma FirstDrawSettles(a: seq<nat>, n: nat, draws: seq<nat>)
    requires 1 < n <= |a| && Draws(n, draws)
    ensures Shuffled(a, n, draws)[n - 1] == a[draws[0]]
    ensures Shuffled(a, n, draws) == Shuffled(a[draws[0] := a[n - 1]][n - 1 := a[draws[0]]], n - 1, draws[1..])
  {
    assert a[draws[0] := a[n - 1]][n - 1 := a[draws[0]]] == Swap(a, n - 1, draws[0]);
    Settled(Swap(a, n - 1, draws[0]), n - 1, draws[1..], n - 1);
  }

  /** Different draws give different permutations. */
  lemma {:induction false} OneToOne(a: seq<nat>, n: nat, draws: seq<nat>, draws': seq<nat>)
    requires n <= |a| && Permutation(a) && Draws(n, draws) && Draws(n, draws')
    requires Shuffled(a, n, draws) == Shuffled(a, n, draws')
    ensures draws == draws'
    decreases n
  {
    if n > 1 {
      var b, b' := Swap(a, n - 1, draws[0]), Swap(a, n - 1, draws'[0]);
      Settled(b, n - 1, draws[1..], n - 1);
      Settled(b', n - 1, draws'[1..], n - 1);
      assert a[draws[0]] == a[draws'[0]];
      assert draws[0] == draws'[0];
      SwapPermutes(a, n - 1, draws[0]);
      OneToOne(b, n - 1, draws[1..], draws'[1..]);
    }
  }

  /** The draw that puts p's entry in place at position n - 1. */
  lemma NextDraw(a: seq<nat>, n: nat, p: seq<nat>) returns (j: nat)
    requires 0 < n <= |a| == |p| && Permutation(a) && Permutation(p)
    requires forall k :: n <= k < |a| ==> a[k] == p[k]
    ensures j < n && a[j] == p[n - 1]
    ensures forall k :: n - 1 <= k < |a| ==> Swap(a, n - 1, j)[k] == p[k]
    ensures n == 1 ==> a == p
  {
    PermutationCovers(a, p[n - 1]);
    j :| 0 <= j < |a| && a[j] == p[n - 1];
  }

  /** Every permutation is drawn: with OneToOne, equally likely draw sequences make every
      order of frees equally likely. */
  lemma {:induction false} Onto(a: seq<nat>, n: nat, p: seq<nat>) returns (draws: seq<nat>)
    requires n <= |a| == |p| && Permutation(a) && Permutation(p)
    requires forall k :: n <= k < |a| ==> a[k] == p[k]
    ensures Draws(n, draws) && Shuffled(a, n, draws) == p
    decreases n
  {
    hide Permutation;
    if n == 0 {
      draws := [];
    } else {
      var j := NextDraw(a, n, p);
      if n == 1 {
        draws := [];
      } else {
        SwapPermutes(a, n - 1, j);
        var rest := Onto(Swap(a, n - 1, j), n - 1, p);
        draws := [j] + rest;
        assert draws[1..] == rest;
      }
    }
  }

  function Identity(n: nat): (p: seq<nat>)
    ensures |p| == n && forall i :: 0 <= i < n ==> p[i] == i
  {
    seq(n, i => i)
  }

  method BuildPerm(perm: array<nat>, n: nat, draws: seq<nat>)
    requires n <= perm.Length && Draws(n, draws)
    modifies perm
    ensures perm[..n] == Shuffled(Identity(n), n, draws) && Permutation(perm[..n])
    ensures perm[n..] == old(perm[n..])
  {
    for i := 0 to n
      invariant forall k :: 0 <= k < i ==> perm[k] == k
      invariant perm[n..] == old(perm[n..])
    {
      perm[i] := i;
    }
    assert perm[..n] == Identity(n) && draws[0..] == draws;
    var i, d := n, 0;
    while i > 1
      invariant i <= n && d <= |draws| && Draws(i, draws[d..])
      invariant Shuffled(perm[..n], i, draws[d..]) == Shuffled(Identity(n), n, draws)
      invariant perm[n..] == old(perm[n..])
    {
      var j := draws[d];
      ghost var next := Swap(perm[..n], i - 1, j);
      assert draws[d..][1..] == draws[d + 1..];
      var t := perm[i - 1];
      perm[i - 1] := perm[j];
      perm[j] := t;
      assert perm[..n] == next;
      i, d := i - 1, d + 1;
    }
    ShuffledPermutes(Identity(n), n, draws);
  }
}
