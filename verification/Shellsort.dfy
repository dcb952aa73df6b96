/** The Ciura-gap shellsort that orders latency samples before percentiles are read.

    The source is a template over the element type; the elements here are reals under
    their usual total order, which contains every 64-bit tick count. */
module Shellsort {
  import opened Finite

  const GAPS: seq<nat> := [701, 301, 132, 57, 23, 10, 4, 1]

  /** Position p and the one h further on are in order, where both exist. */
  ghost predicate LeAt(a: seq<real>, p: nat, h: nat) {
    p + h < |a| ==> a[p] <= a[p + h]
  }

  ghost predicate GapSorted(a: seq<real>, h: nat) {
    forall p :: LeAt(a, p, h)
  }

  ghost predicate Sorted(a: seq<real>) {
    forall p, q :: 0 <= p <= q < |a| ==> a[p] <= a[q]
  }

  // ----- counting along a chain p, p + h, p + 2h, ... -----

  /** How many entries at p, p + h, p + 2h, ... are at most w. */
  ghost function CountLe(a: seq<real>, p: nat, h: nat, w: real): nat
    requires h > 0
    decreases |a| - p
  {
    if p >= |a| then 0 else (if a[p] <= w then 1 else 0) + CountLe(a, p + h, h, w)
  }

  /** b rearranges a inside each chain of stride h, as far as counting can tell. */
  ghost predicate SameChains(a: seq<real>, b: seq<real>, h: nat)
    requires h > 0
  {
    |a| == |b| && forall c, w :: 0 <= c < h ==> CountLe(a, c, h, w) == CountLe(b, c, h, w)
  }

  /** p reaches q in steps of h. */
  ghost predicate OnChain(p: nat, q: nat, h: nat)
    requires h > 0
    decreases q - p
  {
    p == q || (p + h <= q && OnChain(p + h, q, h))
  }

  /** The chain of q starts below h. */
  lemma {:induction false} ChainRoot(p: nat, q: nat, h: nat) returns (c: nat)
    requires h > 0 && OnChain(p, q, h)
    ensures c < h && OnChain(c, q, h)
  {
    if p < h {
      c := p;
    } else {
      c := ChainRoot(p - h, q, h);
    }
  }

  lemma {:induction false} ChainShift(p: nat, q: nat, h: nat, k: nat)
    requires h > 0 && OnChain(p, q, h)
    ensures OnChain(p + k, q + k, h)
    decreases q - p
  {
    if p != q {
      ChainShift(p + h, q, h, k);
    }
  }

  lemma {:induction false} ChainOrdered(a: seq<real>, p: nat, q: nat, h: nat)
    requires h > 0 && GapSorted(a, h) && OnChain(p, q, h) && q < |a|
    ensures a[p] <= a[q]
    decreases q - p
  {
    if p != q {
      assert LeAt(a, p, h);
      ChainOrdered(a, p + h, q, h);
    }
  }

  // ----- Theorem K of Knuth, TAOCP vol. 3, section 5.2.1 -----

  lemma {:induction false} NoneLe(a: seq<real>, p: nat, h: nat, w: real)
    requires h > 0 && GapSorted(a, h) && (p < |a| ==> w < a[p])
    ensures CountLe(a, p, h, w) == 0
    decreases |a| - p
  {
    assert LeAt(a, p, h);
    if p < |a| {
      NoneLe(a, p + h, h, w);
    }
  }

  /** In a k-sorted array, the chain k further on has no more small entries. */
  lemma {:induction false} Lockstep(a: seq<real>, p: nat, h: nat, k: nat, w: real)
    requires h > 0 && GapSorted(a, k)
    ensures CountLe(a, p + k, h, w) <= CountLe(a, p, h, w)
    decreases |a| - p
  {
    if p + k < |a| {
      assert LeAt(a, p, k);
      Lockstep(a, p + h, h, k, w);
      assert (p + h) + k == (p + k) + h;
    }
  }

  /** Dropping leading entries that are small in b keeps b's count below a's. */
  lemma {:induction false} DropSmall(a: seq<real>, b: seq<real>, p: nat, e: nat, q: nat, h: nat)
    requires h > 0 && |a| == |b| && GapSorted(b, h) && OnChain(p, e, h) && OnChain(e, q, h) && q < |b|
    requires CountLe(b, p, h, b[q]) <= CountLe(a, p, h, b[q])
    ensures CountLe(b, e, h, b[q]) <= CountLe(a, e, h, b[q])
    decreases e - p
  {
    if p != e {
      ChainOrdered(b, p, e, h);
      ChainOrdered(b, e, q, h);
      DropSmall(a, b, p + h, e, q, h);
    }
  }

  /** If the chain through i + k has no more small entries than the chain through i, then
      b[i] is itself small. */
  lemma {:induction false} MatchUp(b: seq<real>, p: nat, i: nat, h: nat, k: nat)
    requires h > 0 && GapSorted(b, h) && OnChain(p, i, h) && i + k < |b|
    requires CountLe(b, p + k, h, b[i + k]) <= CountLe(b, p, h, b[i + k])
    ensures b[i] <= b[i + k]
    decreases i - p
  {
    var w := b[i + k];
    ChainShift(p, i, h, k);
    ChainOrdered(b, p + k, i + k, h);
    if w < b[p] {
      NoneLe(b, p, h, w);
    } else if p != i {
      assert (p + h) + k == (p + k) + h;
      MatchUp(b, p + h, i, h, k);
    }
  }

  /** Sorting every chain of stride h keeps a k-sorted array k-sorted. */
  lemma KeepsGapOrder(a: seq<real>, b: seq<real>, h: nat, k: nat)
    requires h > 0 && GapSorted(a, k) && SameChains(a, b, h) && GapSorted(b, h)
    ensures GapSorted(b, k)
  {
    forall i: nat ensures LeAt(b, i, k) {
      if i + k < |b| {
        var c := ChainRoot(i, i, h);
        var r := ChainRoot(c + k, c + k, h);
        ChainShift(c, i, h, k);
        DropSmall(a, b, r, c + k, i + k, h);
        Lockstep(a, c, h, k, b[i + k]);
        MatchUp(b, c, i, h, k);
      }
    }
  }

  // ----- rearranging inside chains -----

  lemma {:induction false} UnchangedCount(a: seq<real>, b: seq<real>, p: nat, e: nat, h: nat, w: real)
    requires h > 0 && |a| == |b| && e < p
    requires forall q :: e < q < |a| ==> a[q] == b[q]
    ensures CountLe(a, p, h, w) == CountLe(b, p, h, w)
    decreases |a| - p
  {
    if p < |a| {
      UnchangedCount(a, b, p + h, e, h, w);
    }
  }

  lemma {:induction false} SwapKeepsCount(a: seq<real>, j: nat, p: nat, h: nat, w: real)
    requires h > 0 && j + h < |a| && p != j + h
    ensures CountLe(a, p, h, w) == CountLe(Swap(a, j, j + h), p, h, w)
    decreases |a| - p
  {
    var b := Swap(a, j, j + h);
    if p == j {
      UnchangedCount(a, b, j + h + h, j + h, h, w);
      assert CountLe(a, j, h, w) == (if a[j] <= w then 1 else 0) + CountLe(a, j + h, h, w);
      assert CountLe(b, j, h, w) == (if b[j] <= w then 1 else 0) + CountLe(b, j + h, h, w);
    } else if p < |a| {
      SwapKeepsCount(a, j, p + h, h, w);
    }
  }

  /** b is a rearrangement of a that moves entries only along chains of stride h. */
  ghost predicate Rearranges(a: seq<real>, b: seq<real>, h: nat)
    requires h > 0
  {
    SameChains(a, b, h) && multiset(a) == multiset(b)
  }

  lemma SwapRearranges(o: seq<real>, a: seq<real>, j: nat, h: nat)
    requires h > 0 && j + h < |a| && Rearranges(o, a, h)
    ensures Rearranges(o, Swap(a, j, j + h), h)
  {
    var b := Swap(a, j, j + h);
    forall c, w | 0 <= c < h ensures CountLe(o, c, h, w) == CountLe(b, c, h, w) {
      SwapKeepsCount(a, j, c, h, w);
    }
  }

  // ----- the algorithm -----

  /** Entries up to i are in h-order, looking past position j. */
  ghost predicate OrderedExcept(a: seq<real>, h: nat, i: int, j: int) {
    forall p: nat :: p + h <= i && p != j && p + h != j ==> LeAt(a, p, h)
  }

  /** Entries up to i are in order but for a hole at k, and tmp may still go further down. */
  ghost predicate HoleOrder(s: seq<real>, h: nat, i: nat, k: nat, tmp: real) {
    && k <= i < |s|
    && OrderedExcept(s, h, i, k)
    && (k + h <= i ==> tmp < s[k + h])
    && (h <= k && k + h <= i ==> s[k - h] <= s[k + h])
  }

  /** s is o with the entry tmp lifted out and a hole at k. */
  ghost predicate Hole(o: seq<real>, s: seq<real>, h: nat, i: nat, k: nat, tmp: real)
    requires h > 0
  {
    && |s| == |o|
    && HoleOrder(s, h, i, k, tmp)
    && Rearranges(o, s[k := tmp], h)
    && forall q :: i < q < |s| ==> s[q] == o[q]
  }

  lemma HoleOrderDown(s: seq<real>, h: nat, i: nat, k: nat, tmp: real)
    requires 0 < h <= k && HoleOrder(s, h, i, k, tmp) && s[k - h] > tmp
    ensures HoleOrder(s[k := s[k - h]], h, i, k - h, tmp)
  {
    var t := s[k := s[k - h]];
    assert k - h >= h ==> LeAt(s, k - h - h, h);
    forall p: nat | p + h <= i && p != k - h && p + h != k - h ensures LeAt(t, p, h) {
      assert p != k ==> LeAt(s, p, h);
    }
  }

  lemma HoleOpened(o: seq<real>, h: nat, i: nat)
    requires 0 < h <= i < |o| && OrderedExcept(o, h, i - 1, -1)
    ensures Hole(o, o, h, i, i, o[i])
  {
    forall p: nat | p + h <= i && p != i && p + h != i ensures LeAt(o, p, h) {
      assert p + h <= i - 1 && p != -1 && p + h != -1;
    }
    assert o[i := o[i]] == o;
  }

  /** Moving the hole one place down is an exchange of chain neighbours. */
  lemma HoleSwap(s: seq<real>, j: nat, h: nat, tmp: real)
    requires j + h < |s|
    ensures s[j + h := s[j]][j := tmp] == Swap(s[j + h := tmp], j, j + h)
  {
  }

  lemma HoleDown(o: seq<real>, s: seq<real>, h: nat, i: nat, k: nat, tmp: real)
    requires 0 < h <= k && Hole(o, s, h, i, k, tmp) && s[k - h] > tmp
    ensures Hole(o, s[k := s[k - h]], h, i, k - h, tmp)
  {
    hide SameChains, OrderedExcept, Swap;
    HoleOrderDown(s, h, i, k, tmp);
    var j, r := k - h, s[k := tmp];
    HoleSwap(s, j, h, tmp);
    SwapRearranges(o, r, j, h);
    assert Rearranges(o, s[k := s[j]][j := tmp], h);
  }

  /** b is o with o[i] inserted into its chain. */
  ghost predicate Inserted(o: seq<real>, b: seq<real>, h: nat, i: nat)
    requires h > 0
  {
    && i < |o| == |b|
    && OrderedExcept(b, h, i, -1)
    && Rearranges(o, b, h)
    && forall q :: i < q < |b| ==> b[q] == o[q]
  }

  lemma HoleFilled(o: seq<real>, s: seq<real>, h: nat, i: nat, k: nat)
    requires h > 0 && i < |o| && Hole(o, s, h, i, k, o[i]) && (k >= h ==> s[k - h] <= o[i])
    ensures Inserted(o, s[k := o[i]], h, i)
  {
    var b := s[k := o[i]];
    forall p: nat | p + h <= i ensures LeAt(b, p, h) {
      assert p != k && p + h != k ==> LeAt(s, p, h);
    }
  }

  lemma {:induction false} PrefixCount(o: seq<real>, b: seq<real>, n: nat, p: nat, h: nat, w: real)
    requires h > 0 && n <= |o| == |b| && o[n..] == b[n..]
    ensures CountLe(o, p, h, w) - CountLe(o[..n], p, h, w) == CountLe(b, p, h, w) - CountLe(b[..n], p, h, w)
    decreases |o| - p
  {
    if p < |o| {
      PrefixCount(o, b, n, p + h, h, w);
      assert p >= n ==> o[p] == o[n..][p - n] && b[p] == b[n..][p - n];
    }
  }

  lemma PrefixOrder(b: seq<real>, n: nat, h: nat, i: int)
    requires i < n <= |b|
    ensures OrderedExcept(b[..n], h, i, -1) <==> OrderedExcept(b, h, i, -1)
  {
    var c := b[..n];
    assert forall p: nat | p + h <= i :: LeAt(c, p, h) <==> LeAt(b, p, h);
  }

  lemma PrefixMultiset(o: seq<real>, b: seq<real>, n: nat)
    requires n <= |o| == |b| && o[n..] == b[n..] && multiset(o) == multiset(b)
    ensures multiset(o[..n]) == multiset(b[..n])
  {
    assert o == o[..n] + o[n..] && b == b[..n] + b[n..];
    assert multiset(o[..n]) == multiset(o) - multiset(o[n..]);
    assert multiset(b[..n]) == multiset(b) - multiset(b[n..]);
  }

  /** An insertion below n is an insertion into the first n entries alone. */
  lemma InsertedPrefix(o: seq<real>, b: seq<real>, n: nat, h: nat, i: nat)
    requires h > 0 && i < n <= |o| && Inserted(o, b, h, i)
    ensures Inserted(o[..n], b[..n], h, i) && o[n..] == b[n..]
  {
    assert o[n..] == b[n..];
    PrefixOrder(b, n, h, i);
    PrefixMultiset(o, b, n);
    forall c, w | 0 <= c < h ensures CountLe(o[..n], c, h, w) == CountLe(b[..n], c, h, w) {
      PrefixCount(o, b, n, c, h, w);
    }
  }

  // ----- counting moves -----

  /** How many entries at i - h, i - 2h, ... are greater than w. */
  ghost function CountGt(a: seq<real>, i: nat, h: nat, w: real): nat
    requires h > 0 && i <= |a|
  {
    if i < h then 0 else (if a[i - h] > w then 1 else 0) + CountGt(a, i - h, h, w)
  }

  /** Pairs on the same chain, both below n, that are out of order. */
  ghost function Inversions(a: seq<real>, h: nat, n: nat): nat
    requires h > 0 && n <= |a|
  {
    if n == 0 then 0 else Inversions(a, h, n - 1) + CountGt(a, n - 1, h, a[n - 1])
  }

  lemma {:induction false} CountGtLocal(a: seq<real>, b: seq<real>, i: nat, h: nat, w: real)
    requires h > 0 && i <= |a| && i <= |b| && forall q :: 0 <= q < i ==> a[q] == b[q]
    ensures CountGt(a, i, h, w) == CountGt(b, i, h, w)
  {
    if i >= h {
      CountGtLocal(a, b, i - h, h, w);
    }
  }

  /** Below a small entry of an ordered chain nothing is greater. */
  lemma {:induction false} NoneGt(a: seq<real>, i: nat, h: nat, w: real)
    requires h > 0 && i <= |a| && (i >= h ==> a[i - h] <= w) && forall p :: 0 <= p && p + h < i ==> LeAt(a, p, h)
    ensures CountGt(a, i, h, w) == 0
  {
    if i >= h {
      assert i >= 2 * h ==> LeAt(a, i - 2 * h, h);
      NoneGt(a, i - h, h, w);
    }
  }

  /** Along a chain from p to i, what is not counted as small is counted as great. */
  lemma {:induction false} CountsTrade(a: seq<real>, b: seq<real>, p: nat, i: nat, h: nat, w: real)
    requires h > 0 && OnChain(p, i, h) && i <= |a| == |b|
    ensures CountGt(a, i, h, w) - CountGt(a, p, h, w) + CountLe(a, p, h, w) - CountLe(a, i, h, w) ==
            CountGt(b, i, h, w) - CountGt(b, p, h, w) + CountLe(b, p, h, w) - CountLe(b, i, h, w)
    decreases i - p
  {
    if p != i {
      CountsTrade(a, b, p + h, i, h, w);
    }
  }

  /** Rearranging the front of a chain leaves as many greater entries before i. */
  lemma SameGreater(o: seq<real>, b: seq<real>, i: nat, h: nat)
    requires h > 0 && i < |o| && SameChains(o, b, h) && forall q :: i <= q < |o| ==> b[q] == o[q]
    ensures CountGt(b, i, h, b[i]) == CountGt(o, i, h, o[i])
  {
    var w := o[i];
    var c := ChainRoot(i, i, h);
    CountsTrade(o, b, c, i, h, w);
    UnchangedCount(o, b, i + h, i, h, w);
  }

  lemma {:induction false} NoInversions(a: seq<real>, h: nat, n: nat)
    requires h > 0 && n <= h && n <= |a|
    ensures Inversions(a, h, n) == 0
  {
    if n > 0 {
      NoInversions(a, h, n - 1);
    }
  }

  /** The inner loop: slides the hole left by a[i] down its chain until a[i] fits at k, past
      every greater entry. */
  method SlideHole(a: array<real>, gap: nat, i: nat) returns (k: nat, ghost moves: nat)
    requires 0 < gap <= i < a.Length
    requires OrderedExcept(a[..], gap, i - 1, -1)
    modifies a
    ensures Hole(old(a[..]), a[..], gap, i, k, old(a[i]))
    ensures k >= gap ==> a[k - gap] <= old(a[i])
    ensures moves == CountGt(old(a[..]), i, gap, old(a[i]))
  {
    hide Rearranges, OrderedExcept;
    ghost var o, s := a[..], a[..];
    var tmp := a[i];
    k, moves := i, 0;
    HoleOpened(o, gap, i);
    while k >= gap && a[k - gap] > tmp
      invariant k <= i
      invariant a[..] == s
      invariant Hole(o, s, gap, i, k, tmp)
      invariant moves + CountGt(s, k, gap, tmp) == CountGt(o, i, gap, tmp)
    {
      HoleDown(o, s, gap, i, k, tmp);
      CountGtLocal(s, s[k := s[k - gap]], k - gap, gap, tmp);
      s := s[k := s[k - gap]];
      a[k] := a[k - gap];
      k := k - gap;
      moves := moves + 1;
    }
    HoleAtRest(o, s, gap, i, k, tmp);
  }

  lemma HoleAtRest(o: seq<real>, s: seq<real>, h: nat, i: nat, k: nat, tmp: real)
    requires h > 0 && Hole(o, s, h, i, k, tmp) && (k >= h ==> s[k - h] <= tmp)
    ensures CountGt(s, k, h, tmp) == 0
  {
    NoneGt(s, k, h, tmp);
  }

  /** Moves a[i] down its chain to its place, one step for each greater entry before it. */
  method InsertAt(a: array<real>, n: nat, gap: nat, i: nat) returns (ghost moves: nat)
    requires 0 < gap <= i < n <= a.Length
    requires OrderedExcept(a[..n], gap, i - 1, -1)
    modifies a
    ensures Inserted(old(a[..n]), a[..n], gap, i)
    ensures moves == CountGt(old(a[..n]), i, gap, old(a[i]))
    ensures a[n..] == old(a[n..])
  {
    ghost var o := a[..];
    assert o[..n] == a[..n] && o[n..] == a[n..];
    PrefixOrder(o, n, gap, i - 1);
    var tmp := a[i];
    var k;
    k, moves := SlideHole(a, gap, i);
    CountGtLocal(o, o[..n], i, gap, tmp);
    HoleFilled(o, a[..], gap, i, k);
    ghost var b := a[..][k := tmp];
    a[k] := tmp;
    assert a[..] == b;
    InsertedPrefix(o, b, n, gap, i);
    assert b[..n] == a[..n] && b[n..] == a[n..];
  }

  // ----- what the earlier gaps buy: the last pass is linear -----

  /** Entries at least 30 apart are already in order. */
  ghost predicate FarSorted(a: seq<real>) {
    forall p, q :: 0 <= p < q < |a| && p + 30 <= q ==> a[p] <= a[q]
  }

  /** Every distance from 30 up is a sum of 4s, 10s and 23s. */
  lemma {:induction false} FarOrdered(a: seq<real>, p: nat, q: nat)
    requires GapSorted(a, 4) && GapSorted(a, 10) && GapSorted(a, 23) && p + 30 <= q < |a|
    ensures a[p] <= a[q]
    decreases q - p
  {
    if q - p >= 34 {
      FarOrdered(a, p + 4, q);
      assert LeAt(a, p, 4);
    } else if q - p == 30 {
      assert LeAt(a, p, 10) && LeAt(a, p + 10, 10) && LeAt(a, p + 20, 10);
    } else if q - p == 31 {
      assert LeAt(a, p, 4) && LeAt(a, p + 4, 4) && LeAt(a, p + 8, 23);
    } else if q - p == 32 {
      assert LeAt(a, p, 4) && LeAt(a, p + 4, 4) && LeAt(a, p + 8, 4) && LeAt(a, p + 12, 10) && LeAt(a, p + 22, 10);
    } else {
      assert LeAt(a, p, 10) && LeAt(a, p + 10, 23);
    }
  }

  /** In a far-sorted array only the 29 entries before q can be greater. */
  lemma {:induction false} ShortMove(a: seq<real>, i: nat, q: nat)
    requires FarSorted(a) && i <= q < |a|
    ensures CountGt(a, i, 1, a[q]) <= if i + 29 <= q then 0 else i + 29 - q
  {
    if i > 0 {
      ShortMove(a, i - 1, q);
    }
  }

  lemma {:induction false} FewInversions(a: seq<real>, n: nat)
    requires FarSorted(a) && n <= |a|
    ensures Inversions(a, 1, n) <= 29 * n
  {
    if n > 0 {
      FewInversions(a, n - 1);
      ShortMove(a, n - 1, n - 1);
    }
  }

  lemma {:induction false} PrefixOrdered(a: seq<real>, i: nat, p: nat, q: nat)
    requires OrderedExcept(a, 1, i, -1) && p <= q <= i < |a|
    ensures a[p] <= a[q]
    decreases q - p
  {
    if p < q {
      PrefixOrdered(a, i, p + 1, q);
      assert LeAt(a, p, 1);
    }
  }

  // ----- passes and sorts -----

  /** One gap pass: the chains are sorted, nothing leaves its chain, and every pair of a chain
      that was out of order costs exactly one move. */
  method GapPass(a: array<real>, n: nat, gap: nat) returns (ghost moves: nat)
    requires gap > 0 && n <= a.Length
    modifies a
    ensures GapSorted(a[..n], gap)
    ensures Rearranges(old(a[..n]), a[..n], gap)
    ensures moves == Inversions(old(a[..n]), gap, n)
    ensures a[n..] == old(a[n..])
  {
    ghost var o := a[..n];
    moves := 0;
    var i := gap;
    NoInversions(o, gap, if gap < n then gap else n);
    while i < n
      invariant gap <= i
      invariant moves == Inversions(o, gap, if i < n then i else n)
      invariant OrderedExcept(a[..n], gap, i - 1, -1)
      invariant Rearranges(o, a[..n], gap)
      invariant forall q :: i <= q < n ==> a[q] == o[q]
      invariant a[n..] == old(a[n..])
    {
      SameGreater(o, a[..n], i, gap);
      ghost var m := InsertAt(a, n, gap, i);
      moves := moves + m;
      i := i + 1;
    }
  }

  lemma SortedFromGap1(a: seq<real>)
    requires GapSorted(a, 1)
    ensures Sorted(a)
  {
    forall p, q | 0 <= p <= q < |a| ensures a[p] <= a[q] {
      PrefixOrdered(a, |a| - 1, p, q);
    }
  }

  ghost function Before(o: seq<real>, passes: seq<seq<real>>, x: nat): seq<real>
    requires x <= |passes|
  {
    if x == 0 then o else passes[x - 1]
  }

  /** `passes[x]`, the array after gap number x, is the array before it rearranged along the
      chains of that gap, in order at that gap and at every earlier one, whether or not the
      array was long enough for it to run. */
  ghost predicate PassDone(o: seq<real>, passes: seq<seq<real>>, x: nat)
    requires x < |passes| <= |GAPS|
  {
    && Rearranges(Before(o, passes, x), passes[x], GAPS[x])
    && forall g :: 0 <= g <= x ==> GapSorted(passes[x], GAPS[g])
  }

  ghost predicate KeepsAllGaps(o: seq<real>, passes: seq<seq<real>>) {
    |passes| <= |GAPS| && forall x :: 0 <= x < |passes| ==> PassDone(o, passes, x)
  }

  lemma AddPass(o: seq<real>, passes: seq<seq<real>>, b: seq<real>)
    requires |passes| < |GAPS| && KeepsAllGaps(o, passes)
    requires PassDone(o, passes + [b], |passes|)
    ensures KeepsAllGaps(o, passes + [b])
  {
    var next := passes + [b];
    forall x | 0 <= x < |next| ensures PassDone(o, next, x) {
      if x < |passes| {
        assert PassDone(o, passes, x) && next[x] == passes[x] && Before(o, next, x) == Before(o, passes, x);
      }
    }
  }

  /** A pass that sorts its own chains keeps the order of every gap before it. */
  lemma NextPass(o: seq<real>, passes: seq<seq<real>>, b: seq<real>)
    requires |passes| < |GAPS| && KeepsAllGaps(o, passes)
    requires Rearranges(Before(o, passes, |passes|), b, GAPS[|passes|]) && GapSorted(b, GAPS[|passes|])
    ensures KeepsAllGaps(o, passes + [b])
  {
    var m, next := |passes|, passes + [b];
    assert next[m] == b && Before(o, next, m) == Before(o, passes, m);
    forall g | 0 <= g < m ensures GapSorted(b, GAPS[g]) {
      assert PassDone(o, passes, m - 1);
      KeepsGapOrder(passes[m - 1], b, GAPS[m], GAPS[g]);
    }
    AddPass(o, passes, b);
  }

  lemma LongGapsDone(o: seq<real>, passes: seq<seq<real>>)
    requires |passes| == 7 && KeepsAllGaps(o, passes)
    ensures FarSorted(passes[6])
  {
    var a := passes[6];
    assert PassDone(o, passes, 6) && GapSorted(a, GAPS[4]) && GapSorted(a, GAPS[5]) && GapSorted(a, GAPS[6]);
    forall p, q | 0 <= p < q < |a| && p + 30 <= q ensures a[p] <= a[q] {
      FarOrdered(a, p, q);
    }
  }

  /** Every pass costs one move for each pair of its chains that is out of order before it. */
  ghost predicate ExactMoves(o: seq<real>, passes: seq<seq<real>>, moves: seq<nat>, n: nat) {
    && |moves| == |passes| <= |GAPS|
    && forall x :: 0 <= x < |moves| ==>
         |Before(o, passes, x)| == n && moves[x] == Inversions(Before(o, passes, x), GAPS[x], n)
  }

  lemma AddMoves(o: seq<real>, passes: seq<seq<real>>, moves: seq<nat>, b: seq<real>, m: nat, n: nat)
    requires |passes| < |GAPS| && ExactMoves(o, passes, moves, n) && |Before(o, passes, |passes|)| == n
    requires m == Inversions(Before(o, passes, |passes|), GAPS[|passes|], n)
    ensures ExactMoves(o, passes + [b], moves + [m], n)
  {
    var next := passes + [b];
    forall x | 0 <= x < |next|
      ensures |Before(o, next, x)| == n && (moves + [m])[x] == Inversions(Before(o, next, x), GAPS[x], n)
    {
      assert Before(o, next, x) == Before(o, passes, x);
    }
  }

  lemma LastPassLinear(o: seq<real>, passes: seq<seq<real>>, moves: seq<nat>, n: nat)
    requires |passes| == 8 && KeepsAllGaps(o, passes) && ExactMoves(o, passes, moves, n)
    ensures moves[7] <= 29 * n
  {
    var front := passes[..7];
    forall x | 0 <= x < 7 ensures PassDone(o, front, x) {
      assert PassDone(o, passes, x) && front[x] == passes[x] && Before(o, front, x) == Before(o, passes, x);
    }
    LongGapsDone(o, front);
    assert front[6] == passes[6] == Before(o, passes, 7);
    FewInversions(passes[6], n);
  }

  /** `__shellsort` on the first n entries: gaps no smaller than n are skipped. */
  method Sort(a: array<real>, n: nat) returns (ghost passes: seq<seq<real>>, ghost moves: seq<nat>)
    requires n <= a.Length
    modifies a
    ensures Sorted(a[..n])
    ensures multiset(a[..n]) == multiset(old(a[..n]))
    ensures a[n..] == old(a[n..])
    ensures |passes| == |GAPS| && passes[|GAPS| - 1] == a[..n]
    ensures KeepsAllGaps(old(a[..n]), passes)
    ensures ExactMoves(old(a[..n]), passes, moves, n) && moves[|GAPS| - 1] <= 29 * n
  {
    ghost var o := a[..n];
    passes, moves := [], [];
    for gi := 0 to |GAPS|
      invariant |passes| == gi && KeepsAllGaps(o, passes) && ExactMoves(o, passes, moves, n)
      invariant a[..n] == Before(o, passes, gi)
      invariant multiset(a[..n]) == multiset(o)
      invariant a[n..] == old(a[n..])
    {
      var gap := GAPS[gi];
      ghost var m := 0;
      if gap < n {
        m := GapPass(a, n, gap);
      } else {
        NoInversions(a[..n], gap, n);
      }
      NextPass(o, passes, a[..n]);
      AddMoves(o, passes, moves, a[..n], m, n);
      passes, moves := passes + [a[..n]], moves + [m];
    }
    LastPassLinear(o, passes, moves, n);
    assert PassDone(o, passes, 7) && GapSorted(passes[7], GAPS[7]);
    SortedFromGap1(a[..n]);
  }

  /** `sort_u64`: the same sort without the skip. */
  method SortU64(a: array<real>, n: nat)
    requires n <= a.Length
    modifies a
    ensures Sorted(a[..n])
    ensures multiset(a[..n]) == multiset(old(a[..n]))
    ensures a[n..] == old(a[n..])
  {
    for gi := 0 to |GAPS|
      invariant multiset(a[..n]) == multiset(old(a[..n]))
      invariant gi == |GAPS| ==> GapSorted(a[..n], 1)
      invariant a[n..] == old(a[n..])
    {
      ghost var moves := GapPass(a, n, GAPS[gi]);
    }
    SortedFromGap1(a[..n]);
  }
}
