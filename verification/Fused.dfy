/** The hand-fused loops of the lazy-chain bench against the pipelines they stand for.

    Elements are 32-bit; a product or an index that does not fit wraps. */
module Fused {
  import opened Words

  type i32 = x: int | -0x8000_0000 <= x < 0x8000_0000

  /** Conversion to 32 bits, two's complement. */
  function ToI32(x: int): i32 {
    (x + 0x8000_0000) % 0x1_0000_0000 - 0x8000_0000
  }

  /** The 32-bit number that differs from x by a multiple of 2^32. */
  lemma ToI32Wraps(x: int)
    ensures exists q: int :: x == 0x1_0000_0000 * q + ToI32(x)
  {
    var y := x + 0x8000_0000;
    assert x == 0x1_0000_0000 * (y / 0x1_0000_0000) + ToI32(x);
  }

  function Times3(x: i32): i32 {
    ToI32(x as int * 3)
  }

  // ----- pipelines -----

  function Filter(s: seq<i32>): (r: seq<i32>)
    ensures |r| <= |s|
  {
    if s == [] then [] else Filter(s[..|s| - 1]) + (if s[|s| - 1] > 0 then [s[|s| - 1]] else [])
  }

  function Triple(s: seq<i32>): (r: seq<i32>)
    ensures |r| == |s|
  {
    seq(|s|, i requires 0 <= i < |s| => Times3(s[i]))
  }

  function Take(s: seq<i32>, k: nat): seq<i32> {
    if |s| <= k then s else s[..k]
  }

  /** Positions of the positive elements. */
  function Positions(s: seq<i32>): (r: seq<nat>)
    ensures |r| <= |s|
  {
    if s == [] then [] else Positions(s[..|s| - 1]) + (if s[|s| - 1] > 0 then [|s| - 1] else [])
  }

  function Sum(s: seq<i32>): int {
    if s == [] then 0 else Sum(s[..|s| - 1]) + s[|s| - 1]
  }

  lemma FilterSnoc(s: seq<i32>, i: nat)
    requires i < |s|
    ensures Filter(s[..i + 1]) == Filter(s[..i]) + (if s[i] > 0 then [s[i]] else [])
    ensures Positions(s[..i + 1]) == Positions(s[..i]) + (if s[i] > 0 then [i] else [])
  {
    assert s[..i + 1][..i] == s[..i];
  }

  lemma SumSnoc(s: seq<i32>, i: nat)
    requires i < |s|
    ensures Sum(s[..i + 1]) == Sum(s[..i]) + s[i]
  {
    assert s[..i + 1][..i] == s[..i];
  }

  lemma SumFour(s: seq<i32>, i: nat)
    requires i + 4 <= |s|
    ensures Sum(s[..i + 4]) == Sum(s[..i]) + s[i] + s[i + 1] + s[i + 2] + s[i + 3]
  {
    hide Sum;
    SumSnoc(s, i);
    SumSnoc(s, i + 1);
    SumSnoc(s, i + 2);
    SumSnoc(s, i + 3);
  }

  lemma {:induction false} FilterPrefix(s: seq<i32>, i: nat)
    requires i <= |s|
    ensures Filter(s[..i]) <= Filter(s)
    decreases |s| - i
  {
    if i < |s| {
      FilterSnoc(s, i);
      FilterPrefix(s, i + 1);
    } else {
      assert s[..i] == s;
    }
  }

  /** Positions index exactly what Filter keeps, in order. */
  lemma {:induction false} PositionsIndexFilter(s: seq<i32>)
    ensures |Positions(s)| == |Filter(s)|
    ensures forall k :: 0 <= k < |Positions(s)| ==> Positions(s)[k] < |s| && s[Positions(s)[k]] == Filter(s)[k]
    ensures forall j, k :: 0 <= j < k < |Positions(s)| ==> Positions(s)[j] < Positions(s)[k]
  {
    if s != [] {
      PositionsIndexFilter(s[..|s| - 1]);
    }
  }

  // ----- loops -----

  /** filter|collect: compaction into a buffer of n. */
  method FilterCollect(a: array<i32>, n: nat) returns (out: array<i32>, k: nat)
    requires n <= a.Length
    ensures fresh(out) && k <= out.Length == n && out[..k] == Filter(a[..n])
  {
    out := new i32[n];
    k := 0;
    for i := 0 to n
      invariant k <= i && out[..k] == Filter(a[..n][..i])
    {
      FilterSnoc(a[..n], i);
      if a[i] > 0 {
        ghost var before := out[..k];
        out[k] := a[i];
        k := k + 1;
        assert out[..k] == before + [a[i]];
      }
    }
    assert a[..n][..n] == a[..n];
  }

  lemma TripleSnoc(s: seq<i32>, i: nat)
    requires i < |s|
    ensures Triple(Filter(s[..i + 1])) == Triple(Filter(s[..i])) + (if s[i] > 0 then [Times3(s[i])] else [])
  {
    hide Filter, Times3;
    FilterSnoc(s, i);
  }

  /** filter|fmap|take(n / 8): stops reading at the k-th survivor, and still gives the first k
      of all of them. */
  method FilterMapTake(a: array<i32>, n: nat) returns (out: array<i32>, w: nat, ghost seen: nat)
    requires n <= a.Length
    ensures fresh(out) && w <= out.Length == n / 8
    ensures out[..w] == Take(Triple(Filter(a[..n])), n / 8)
    ensures seen <= n && |Filter(a[..n][..seen])| == w && (seen < n ==> w == n / 8)
    ensures forall j :: 0 <= j < seen ==> |Filter(a[..n][..j])| < n / 8
  {
    hide Filter, Triple, Times3;
    var k := n / 8;
    out := new i32[k];
    w := 0;
    var i := 0;
    ghost var s := a[..n];
    while i < n && w < k
      invariant i <= n && w <= k && a[..n] == s
      invariant out[..w] == Triple(Filter(s[..i]))
      invariant forall j :: 0 <= j < i ==> |Filter(s[..j])| < k
    {
      TripleSnoc(s, i);
      if a[i] > 0 {
        ghost var before := out[..w];
        out[w] := Times3(a[i]);
        w := w + 1;
        assert out[..w] == before + [Times3(a[i])];
      }
      i := i + 1;
    }
    seen := i;
    EarlyExit(s, i, w, k);
  }

  /** Stopping with enough, or at the end, is taking from the whole. */
  lemma EarlyExit(s: seq<i32>, i: nat, w: nat, k: nat)
    requires i <= |s| && w <= k && |Filter(s[..i])| == w && (i == |s| || w == k)
    ensures Triple(Filter(s[..i])) == Take(Triple(Filter(s)), k)
  {
    FilterPrefix(s, i);
    if i == |s| {
      assert s[..i] == s;
    } else {
      assert Triple(Filter(s))[..k] == Triple(Filter(s[..i]));
    }
  }

  /** The mapped values are the true products if and only if every survivor is at most
      715827882, a third of the largest 32-bit number. */
  lemma TripleExact(s: seq<i32>)
    ensures (forall i :: 0 <= i < |Filter(s)| ==> Triple(Filter(s))[i] == Filter(s)[i] as int * 3) <==>
            (forall i :: 0 <= i < |s| ==> s[i] <= 715_827_882)
  {
    var f := Filter(s);
    if forall i :: 0 <= i < |s| ==> s[i] <= 715_827_882 {
      forall i | 0 <= i < |f| ensures Triple(f)[i] == f[i] as int * 3 {
        Survivor(s, i);
      }
    } else {
      var k :| 0 <= k < |s| && s[k] > 715_827_882;
      var i := Survives(s, k);
      assert Triple(f)[i] != f[i] as int * 3;
    }
  }

  /** Every filtered element is a positive element of the input. */
  lemma Survivor(s: seq<i32>, i: nat)
    requires i < |Filter(s)|
    ensures Filter(s)[i] > 0 && Filter(s)[i] in s
  {
    PositionsIndexFilter(s);
    PositivePositions(s, i);
  }

  lemma {:induction false} PositivePositions(s: seq<i32>, i: nat)
    requires i < |Filter(s)|
    ensures Filter(s)[i] > 0
  {
    if i < |Filter(s[..|s| - 1])| {
      PositivePositions(s[..|s| - 1], i);
    }
  }

  lemma {:induction false} Survives(s: seq<i32>, k: nat) returns (i: nat)
    requires k < |s| && s[k] > 0
    ensures i < |Filter(s)| && Filter(s)[i] == s[k]
  {
    if k == |s| - 1 {
      i := |Filter(s)| - 1;
    } else {
      i := Survives(s[..|s| - 1], k);
    }
  }

  function Narrowed(p: seq<nat>): (r: seq<i32>)
    ensures |r| == |p| && forall k :: 0 <= k < |p| ==> r[k] == ToI32(p[k])
  {
    seq(|p|, k requires 0 <= k < |p| => ToI32(p[k]))
  }

  /** The narrowed positions are the positions if and only if no element from 2^31 on is
      positive. */
  lemma NarrowedExact(s: seq<i32>)
    ensures (forall k :: 0 <= k < |Positions(s)| ==> Narrowed(Positions(s))[k] == Positions(s)[k]) <==>
            (forall i :: 0x8000_0000 <= i < |s| ==> s[i] <= 0)
  {
    PositionsIndexFilter(s);
    var p := Positions(s);
    forall k | 0 <= k < |p| ensures Narrowed(p)[k] == p[k] <==> p[k] < 0x8000_0000 {
      NarrowFits(p[k]);
    }
    forall k | 0 <= k < |p| ensures s[p[k]] > 0 {
      PositivePositions(s, k);
    }
    if i :| 0x8000_0000 <= i < |s| && s[i] > 0 {
      var k := PositionOf(s, i);
      assert Narrowed(p)[k] != p[k];
    }
  }

  lemma NarrowFits(i: nat)
    ensures ToI32(i) == i <==> i < 0x8000_0000
  {
  }

  lemma {:induction false} PositionOf(s: seq<i32>, i: nat) returns (k: nat)
    requires i < |s| && s[i] > 0
    ensures k < |Positions(s)| && Positions(s)[k] == i
  {
    if i == |s| - 1 {
      k := |Positions(s)| - 1;
    } else {
      k := PositionOf(s[..|s| - 1], i);
    }
  }

  /** enumerate|filter|fmap|collect: the positions, narrowed to 32 bits. */
  method EnumerateFilter(a: array<i32>, n: nat) returns (out: array<i32>, w: nat)
    requires n <= a.Length
    ensures fresh(out) && w <= out.Length == n && out[..w] == Narrowed(Positions(a[..n]))
  {
    out := new i32[n];
    w := 0;
    for i := 0 to n
      invariant w <= i && out[..w] == Narrowed(Positions(a[..n][..i]))
    {
      FilterSnoc(a[..n], i);
      if a[i] > 0 {
        ghost var before := out[..w];
        out[w] := ToI32(i);
        w := w + 1;
        assert out[..w] == before + [ToI32(i)];
      }
    }
    assert a[..n][..n] == a[..n];
  }

  // ----- wrapping sums -----

  /** Conversion to a 64-bit unsigned word, and its addition. */
  function ToWord(x: int): nat {
    x % WORD
  }

  /** r is the 64-bit word that differs from x by a multiple of 2^64. */
  ghost predicate IsWordOf(r: nat, x: int) {
    r < WORD && exists q: int :: x == WORD * q + r
  }

  lemma WordOf(x: int)
    ensures IsWordOf(ToWord(x), x)
  {
    assert x == WORD * (x / WORD) + ToWord(x);
  }

  lemma AddWords(x: int, y: int)
    ensures ToWord(ToWord(x) + ToWord(y)) == ToWord(x + y)
  {
    var p, q := x / WORD, y / WORD;
    assert x + y == x % WORD + y % WORD + WORD * (p + q);
    ModShift(x % WORD + y % WORD, p + q);
  }

  lemma LanesExact(w: int, x: int, y: int, z: int)
    ensures ToWord(ToWord(ToWord(w) + ToWord(x)) + ToWord(ToWord(y) + ToWord(z))) == ToWord(w + x + y + z)
  {
    hide ToWord;
    AddWords(w, x);
    AddWords(y, z);
    AddWords(w + x, y + z);
    assert w + x + (y + z) == w + x + y + z;
  }

  /** Every fourth of the first i elements, from element r on. */
  function Lane(s: seq<i32>, r: nat, i: nat): int
    requires r < 4 && i <= |s|
  {
    if i < 4 then 0 else Lane(s, r, i - 4) + s[i - 4 + r]
  }

  lemma {:induction false} LanesSum(s: seq<i32>, i: nat)
    requires i <= |s| && i % 4 == 0
    ensures Lane(s, 0, i) + Lane(s, 1, i) + Lane(s, 2, i) + Lane(s, 3, i) == Sum(s[..i])
  {
    BlocksSum(s, i / 4);
  }

  lemma {:induction false} BlocksSum(s: seq<i32>, m: nat)
    requires 4 * m <= |s|
    ensures Lane(s, 0, 4 * m) + Lane(s, 1, 4 * m) + Lane(s, 2, 4 * m) + Lane(s, 3, 4 * m) == Sum(s[..4 * m])
    decreases m
  {
    hide Sum;
    if m == 0 {
      SumNone(s);
    } else {
      BlocksSum(s, m - 1);
      SumFour(s, 4 * (m - 1));
    }
  }

  lemma SumNone(s: seq<i32>)
    ensures Sum(s[..0]) == 0
  {
  }

  /** One more element of a lane, as a word. */
  lemma LaneStep(s: seq<i32>, r: nat, i: nat)
    requires r < 4 && i + 4 <= |s|
    ensures ToWord(ToWord(Lane(s, r, i)) + ToWord(s[i + r])) == ToWord(Lane(s, r, i + 4))
  {
    hide ToWord;
    AddWords(Lane(s, r, i), s[i + r]);
  }

  /** The unrolled loop: lane r is the word of every fourth element from r on. */
  method FourLanes(a: array<i32>, n: nat) returns (w: nat, x: nat, y: nat, z: nat, i: nat)
    requires n <= a.Length
    ensures i <= n < i + 4 && i % 4 == 0
    ensures w == ToWord(Lane(a[..n], 0, i)) && x == ToWord(Lane(a[..n], 1, i))
    ensures y == ToWord(Lane(a[..n], 2, i)) && z == ToWord(Lane(a[..n], 3, i))
  {
    ghost var s := a[..n];
    w, x, y, z, i := ToWord(0), ToWord(0), ToWord(0), ToWord(0), 0;
    hide ToWord;
    while i + 4 <= n
      invariant i <= n && i % 4 == 0
      invariant w == ToWord(Lane(s, 0, i)) && x == ToWord(Lane(s, 1, i))
      invariant y == ToWord(Lane(s, 2, i)) && z == ToWord(Lane(s, 3, i))
    {
      LaneStep(s, 0, i);
      LaneStep(s, 1, i);
      LaneStep(s, 2, i);
      LaneStep(s, 3, i);
      w := ToWord(w + ToWord(a[i]));
      x := ToWord(x + ToWord(a[i + 1]));
      y := ToWord(y + ToWord(a[i + 2]));
      z := ToWord(z + ToWord(a[i + 3]));
      i := i + 4;
    }
  }

  /** sum<i32>: four lanes of wrapping words and a tail give the signed sum modulo 2^64. */
  method Sum4(a: array<i32>, n: nat) returns (r: nat)
    requires n <= a.Length
    ensures r == ToWord(Sum(a[..n])) && IsWordOf(r, Sum(a[..n]))
  {
    hide ToWord, Sum, Lane;
    ghost var s := a[..n];
    var w, x, y, z, i := FourLanes(a, n);
    LanesSum(s, i);
    ghost var W, X, Y, Z := Lane(s, 0, i), Lane(s, 1, i), Lane(s, 2, i), Lane(s, 3, i);
    while i < n
      invariant i <= n && w == ToWord(W)
      invariant W + X + Y + Z == Sum(s[..i])
    {
      SumSnoc(s, i);
      AddWords(W, a[i]);
      w := ToWord(w + ToWord(a[i]));
      W := W + a[i];
      i := i + 1;
    }
    LanesExact(W, X, Y, Z);
    assert s[..n] == s;
    r := ToWord(ToWord(w + x) + ToWord(y + z));
    WordOf(Sum(a[..n]));
  }

  lemma {:induction false} SumFits(s: seq<i32>)
    ensures -0x8000_0000 * |s| <= Sum(s) <= 0x7FFF_FFFF * |s|
  {
    if s != [] {
      SumFits(s[..|s| - 1]);
    }
  }

  lemma {:induction false} SumSplits(s: seq<i32>, i: nat)
    requires i <= |s|
    ensures Sum(s) == Sum(s[..i]) + Sum(s[i..])
  {
    if i < |s| {
      var n := |s| - 1;
      SumSplits(s[..n], i);
      assert s[..n][..i] == s[..i] && s[i..][..n - i] == s[..n][i..] && s[i..][n - i] == s[n];
    } else {
      assert s[..i] == s;
    }
  }

  /** What the backward loop has added up at i fits a signed 64-bit word, up to 2^32 elements. */
  lemma SuffixFits(s: seq<i32>, i: nat)
    requires i <= |s| <= 0x1_0000_0000
    ensures -0x8000_0000_0000_0000 <= Sum(s) - Sum(s[..i]) < 0x8000_0000_0000_0000
  {
    SumSplits(s, i);
    SumFits(s[i..]);
  }

  /** reverse|sum agrees with sum. */
  method ReverseSum(a: array<i32>, n: nat) returns (acc: int)
    requires n <= a.Length
    ensures acc == Sum(a[..n])
  {
    acc := 0;
    var i := n;
    ghost var s := a[..n];
    assert s[..n] == s;
    while i > 0
      invariant 0 <= i <= n && acc + Sum(s[..i]) == Sum(s)
    {
      i := i - 1;
      SumSnoc(s, i);
      acc := acc + a[i];
    }
  }
}
