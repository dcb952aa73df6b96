/** The work-stealing sweep: a random start, then every victim but oneself, twice. */
module Steal {
  import opened Bits
  import opened Finite
  import opened Words

  type u32 = x: int | 0 <= x < 0x1_0000_0000

  // ----- xorshift32 -----

  lemma XorFits(a: u32, b: u32)
    ensures Xor(a, b) < 0x1_0000_0000
  {
    Pow2Half();
    ShrVanishes(a, 32);
    ShrVanishes(b, 32);
    ShrXor(a, b, 32);
    ShrVanishes(Xor(a, b), 32);
  }

  /** x << s in 32 bits. */
  function Shifted(x: u32, s: nat): u32 {
    Pow2Half();
    LowBelow(Shl(x, s), 32);
    Low(Shl(x, s), 32)
  }

  lemma ShiftedWraps(x: u32, s: nat)
    ensures Shifted(x, s) == x * Pow2(s) % 0x1_0000_0000
  {
    hide Low, Shl;
    Pow2Half();
    LowIsMod(Shl(x, s), 32);
    ShlIsTimes(x, s);
  }

  function XorLeft(x: u32, s: nat): u32 {
    XorFits(x, Shifted(x, s));
    Xor(x, Shifted(x, s))
  }

  function XorRight(x: u32, s: nat): u32 {
    ShrShrinks(x, s);
    XorFits(x, Shr(x, s));
    Xor(x, Shr(x, s))
  }

  function NextSeed(seed: u32): u32 {
    XorLeft(XorRight(XorLeft(seed, 13), 17), 5)
  }

  lemma ShiftedXor(x: u32, y: u32, s: nat)
    ensures Low(Shl(Xor(x, y), s), 32) == Xor(Shifted(x, s), Shifted(y, s))
  {
    hide Low, Shl, Xor;
    ShlXor(x, y, s);
    LowXor(Shl(x, s), Shl(y, s), 32);
  }

  lemma ShiftedTwice(x: u32, s: nat)
    ensures Shifted(Shifted(x, s), s) == Shifted(x, 2 * s)
  {
    hide Low, Shl;
    LowShl(Shl(x, s), s, 32);
    ShlShl(x, s, s);
  }

  /** The three xor-shifts of the source, in 32-bit arithmetic. */
  lemma SeedWritten(x: u32)
    ensures var a := Xor(x, x * Pow2(13) % 0x1_0000_0000);
            var b := Xor(a, a / Pow2(17));
            NextSeed(x) == Xor(b, b * Pow2(5) % 0x1_0000_0000)
  {
    hide Xor, Shr, Shifted, Pow2;
    ShiftedWraps(x, 13);
    var a := XorLeft(x, 13);
    ShrIsDiv(a, 17);
    ShiftedWraps(XorRight(a, 17), 5);
  }

  /** Twice the same xor-shift is one of twice the distance. */
  lemma LeftTwice(x: u32, s: nat)
    ensures XorLeft(XorLeft(x, s), s) == XorLeft(x, 2 * s)
  {
    hide Low, Shl, Xor;
    var l := Shifted(x, s);
    ShiftedXor(x, l, s);
    ShiftedTwice(x, s);
    XorAssociates(Xor(x, l), l, Shifted(x, 2 * s));
    XorCancels(x, l);
  }

  lemma RightTwice(x: u32, s: nat)
    ensures XorRight(XorRight(x, s), s) == XorRight(x, 2 * s)
  {
    var r := Shr(x, s);
    ShrXor(x, r, s);
    ShrShr(x, s, s);
    XorAssociates(Xor(x, r), r, Shr(x, 2 * s));
    XorCancels(x, r);
  }

  /** At 32 places or more nothing is left to mix in. */
  lemma WideShifts(x: u32, s: nat)
    requires s >= 32
    ensures XorLeft(x, s) == x && XorRight(x, s) == x
  {
    ShlVanishes(x, s, 32);
    Pow2Half();
    Pow2Monotone(32, s);
    ShrVanishes(x, s);
    XorZero(x);
  }

  function Undo5(y: u32): u32 {
    XorLeft(XorLeft(XorLeft(y, 5), 10), 20)
  }

  function Undo13(y: u32): u32 {
    XorLeft(XorLeft(y, 13), 26)
  }

  lemma Undo5After(x: u32)
    ensures Undo5(XorLeft(x, 5)) == x
  {
    hide XorLeft;
    LeftTwice(x, 5);
    LeftTwice(x, 10);
    LeftTwice(x, 20);
    WideShifts(x, 40);
  }

  lemma Undo5Before(y: u32)
    ensures XorLeft(Undo5(y), 5) == y
  {
    hide XorLeft;
    var g := XorLeft(XorLeft(XorLeft(y, 20), 10), 5);
    LeftTwice(XorLeft(XorLeft(y, 20), 10), 5);
    LeftTwice(XorLeft(y, 20), 10);
    LeftTwice(y, 20);
    WideShifts(y, 40);
    assert XorLeft(g, 5) == y;
    Undo5After(g);
  }

  lemma Undo13After(x: u32)
    ensures Undo13(XorLeft(x, 13)) == x
  {
    hide XorLeft;
    LeftTwice(x, 13);
    LeftTwice(x, 26);
    WideShifts(x, 52);
  }

  lemma Undo13Before(y: u32)
    ensures XorLeft(Undo13(y), 13) == y
  {
    hide XorLeft;
    var g := XorLeft(XorLeft(y, 26), 13);
    LeftTwice(XorLeft(y, 26), 13);
    LeftTwice(y, 26);
    WideShifts(y, 52);
    assert XorLeft(g, 13) == y;
    Undo13After(g);
  }

  lemma Undo17(x: u32)
    ensures XorRight(XorRight(x, 17), 17) == x
  {
    hide XorRight;
    RightTwice(x, 17);
    WideShifts(x, 34);
  }

  function PrevSeed(seed: u32): u32 {
    Undo13(XorRight(Undo5(seed), 17))
  }

  /** xorshift32 is a bijection on 32-bit words: no two seeds ever merge. */
  lemma SeedsBijective(x: u32)
    ensures PrevSeed(NextSeed(x)) == x
    ensures NextSeed(PrevSeed(x)) == x
  {
    hide XorLeft, XorRight, Undo5, Undo13;
    Undo5After(XorRight(XorLeft(x, 13), 17));
    Undo17(XorLeft(x, 13));
    Undo13After(x);
    Undo13Before(XorRight(Undo5(x), 17));
    Undo17(Undo5(x));
    Undo5Before(x);
  }

  /** A nonzero seed never becomes zero. */
  lemma NextSeedNonZero(seed: u32)
    ensures NextSeed(seed) == 0 <==> seed == 0
  {
    hide NextSeed, PrevSeed;
    SeedsBijective(seed);
    SeedsBijective(0);
    ZeroSeed();
  }

  lemma ZeroSeed()
    ensures NextSeed(0) == 0
  {
    hide NextSeed, Shl;
    ZeroShift(13);
    ZeroShift(17);
    ZeroShift(5);
    assert NextSeed(0) == XorLeft(XorRight(XorLeft(0, 13), 17), 5) by { NextSeedUnfolded(0); }
  }

  lemma NextSeedUnfolded(x: u32)
    ensures NextSeed(x) == XorLeft(XorRight(XorLeft(x, 13), 17), 5)
  {
  }

  lemma {:induction false} ZeroShift(s: nat)
    ensures XorLeft(0, s) == 0 && XorRight(0, s) == 0
  {
    ShlXor(0, 0, s);
    ShrShrinks(0, s);
    LowXor(Shl(0, s), Shl(0, s), 32);
    XorSelf(0);
    XorSelf(Shl(0, s));
    XorSelf(Low(Shl(0, s), 32));
  }

  // ----- the start -----

  /** First victim probed: the seed scaled from 2^32 to nv. */
  function Start(seed: u32, nv: nat): (v: nat)
    ensures nv > 0 ==> v < nv
  {
    ScaledBelow(seed, nv);
    Scale(seed, nv)
  }

  /** The same of the start index itself. */
  lemma StartExact(seed: u32, nv: nat, v: nat)
    ensures Start(seed, nv) == v <==> v * 0x1_0000_0000 <= seed * nv < (v + 1) * 0x1_0000_0000
  {
    hide Scale;
    ScaleExact(seed, nv, v);
  }

  function Scale(x: nat, nv: nat): nat {
    x * nv / 0x1_0000_0000
  }

  lemma ScaledBelow(x: nat, nv: nat)
    requires x < 0x1_0000_0000
    ensures nv > 0 ==> Scale(x, nv) < nv
  {
    assert (0xFFFF_FFFF - x) * nv >= 0;
    assert x * nv <= 0xFFFF_FFFF * nv;
    if nv > 0 {
      assert x * nv < 0x1_0000_0000 * nv;
      ScaleExact(x, nv, Scale(x, nv));
    }
  }

  /** Start v is drawn by exactly the seeds x with v * 2^32 <= x * nv < (v + 1) * 2^32: the seed
      range is cut into nv equal parts in order. */
  lemma ScaleExact(x: nat, nv: nat, v: nat)
    ensures Scale(x, nv) == v <==> v * 0x1_0000_0000 <= x * nv < (v + 1) * 0x1_0000_0000
  {
    var y := x * nv;
    assert y == 0x1_0000_0000 * (y / 0x1_0000_0000) + y % 0x1_0000_0000;
  }

  // ----- the cyclic order -----

  /** Victim i places after `start`, around the ring. */
  function At(start: nat, i: nat, nv: nat): nat {
    if start + i < nv then start + i else start + i - nv
  }

  /** How many places after `start` victim v comes. */
  function Distance(start: nat, v: nat, nv: nat): int {
    if v >= start then v - start else v + nv - start
  }

  /** Victims probed in the first k places of a sweep. */
  function Probes(start: nat, nv: nat, self: nat, k: nat): (p: seq<nat>)
    requires start < nv && k <= nv
  {
    if k == 0 then []
    else
      var v := At(start, k - 1, nv);
      Probes(start, nv, self, k - 1) + (if v == self then [] else [v])
  }

  lemma {:induction false} ProbesMember(start: nat, nv: nat, self: nat, k: nat, v: nat)
    requires start < nv && k <= nv
    ensures v in Probes(start, nv, self, k) <==> v < nv && v != self && Distance(start, v, nv) < k
  {
    if k > 0 {
      ProbesMember(start, nv, self, k - 1, v);
    }
  }

  lemma {:induction false} ProbesDistinct(start: nat, nv: nat, self: nat, k: nat)
    requires start < nv && k <= nv
    ensures Distinct(Probes(start, nv, self, k))
    ensures |Probes(start, nv, self, k)| ==
            k - (if self < nv && Distance(start, self, nv) < k then 1 else 0)
  {
    if k > 0 {
      ProbesDistinct(start, nv, self, k - 1);
      ProbesMember(start, nv, self, k - 1, At(start, k - 1, nv));
    }
  }

  /** A sweep visits every victim but `self`, each exactly once, from any start. */
  lemma SweepCovers(start: nat, nv: nat, self: nat)
    requires start < nv && self < nv
    ensures var p := Probes(start, nv, self, nv);
            |p| == nv - 1 && Distinct(p) && forall v :: v in p <==> 0 <= v < nv && v != self
  {
    ProbesDistinct(start, nv, self, nv);
    forall v: nat ensures v in Probes(start, nv, self, nv) <==> v < nv && v != self {
      ProbesMember(start, nv, self, nv, v);
    }
  }

  /** Going on from the last victim comes back to the first. */
  lemma AtWraps(start: nat, i: nat, nv: nat)
    requires start < nv && i < nv
    ensures At(start, i, nv) == (start + i) % nv
  {
    if start + i < nv {
      ModOf(nv, 0, start + i);
    } else {
      ModOf(nv, 1, start + i - nv);
    }
  }

  /** The probes come in the order of the distance from the start. */
  lemma {:induction false} ProbeOrder(start: nat, nv: nat, self: nat, k: nat)
    requires start < nv && k <= nv
    ensures Ascending(start, nv, Probes(start, nv, self, k))
  {
    hide Ascending, Distance, At;
    if k == 0 {
      NoProbes(start, nv);
    } else {
      ProbeOrder(start, nv, self, k - 1);
      var p, v := Probes(start, nv, self, k - 1), At(start, k - 1, nv);
      AtDistance(start, k - 1, nv);
      if p != [] {
        ProbesMember(start, nv, self, k - 1, p[|p| - 1]);
      }
      if v != self {
        AscendingOn(start, nv, p, v);
      } else {
        assert p + [] == p;
      }
    }
  }

  lemma NoProbes(start: nat, nv: nat)
    ensures Ascending(start, nv, [])
  {
  }

  lemma AtDistance(start: nat, i: nat, nv: nat)
    requires start < nv && i < nv
    ensures Distance(start, At(start, i, nv), nv) == i
  {
  }

  ghost predicate Ascending(start: nat, nv: nat, p: seq<nat>) {
    forall i :: 0 < i < |p| ==> Distance(start, p[i - 1], nv) < Distance(start, p[i], nv)
  }

  lemma AscendingOn(start: nat, nv: nat, p: seq<nat>, v: nat)
    requires Ascending(start, nv, p) && (p != [] ==> Distance(start, p[|p| - 1], nv) < Distance(start, v, nv))
    ensures Ascending(start, nv, p + [v])
  {
  }

  /** Both sweeps of `steal_sweep`, as the victims they would probe. */
  function BothSweeps(nv: nat, self: nat, seed: u32): seq<nat>
    requires nv > 0
  {
    var s := NextSeed(seed);
    Probes(Start(s, nv), nv, self, nv) + Probes(Start(NextSeed(s), nv), nv, self, nv)
  }

  // ----- the loops -----

  lemma ProbesNext(start: nat, nv: nat, self: nat, i: nat, before: seq<nat>)
    requires start < nv && i < nv
    ensures var v := At(start, i, nv);
            before + Probes(start, nv, self, i + 1) ==
            before + Probes(start, nv, self, i) + (if v == self then [] else [v])
  {
  }

  /** One sweep.  `answer(j)` is what the j-th probe of the whole call returns; 0 is empty. */
  method Sweep(nv: nat, self: nat, start: nat, answer: nat -> nat, before: seq<nat>) returns (c: nat, log: seq<nat>)
    requires start < nv && forall j :: 0 <= j < |before| ==> answer(j) == 0
    ensures c == 0 ==> log == before + Probes(start, nv, self, nv) && forall j :: 0 <= j < |log| ==> answer(j) == 0
    ensures c != 0 ==> before < log <= before + Probes(start, nv, self, nv) && c == answer(|log| - 1)
    ensures forall j :: 0 <= j < |log| - 1 ==> answer(j) == 0
  {
    log := before;
    assert before + Probes(start, nv, self, 0) == before;
    hide Probes;
    var v := start;
    var i := 0;
    while i < nv
      invariant i <= nv && (i < nv ==> v == At(start, i, nv)) && v < nv
      invariant log == before + Probes(start, nv, self, i)
      invariant forall j :: 0 <= j < |log| ==> answer(j) == 0
    {
      ProbesNext(start, nv, self, i, before);
      if v != self {
        c := answer(|log|);
        log := log + [v];
        if c != 0 {
          ProbesPrefix(start, nv, self, i + 1);
          return;
        }
      }
      v := v + 1;
      if v == nv { v := 0; }
      i := i + 1;
    }
    c := 0;
  }

  lemma {:induction false} ProbesPrefix(start: nat, nv: nat, self: nat, k: nat)
    requires start < nv && k <= nv
    ensures Probes(start, nv, self, k) <= Probes(start, nv, self, nv)
    decreases nv - k
  {
    if k < nv {
      ProbesPrefix(start, nv, self, k + 1);
    }
  }

  /** `steal_sweep`: the first non-empty answer in the order of two full sweeps; 0 only after
      every victim but oneself was probed twice and found empty each time. */
  method StealSweep(nv: nat, self: nat, seed: u32, answer: nat -> nat) returns (c: nat, seed': u32, log: seq<nat>)
    requires self < nv
    ensures c == 0 ==> log == BothSweeps(nv, self, seed) && |log| == 2 * (nv - 1)
    ensures c == 0 ==> forall j :: 0 <= j < |log| ==> answer(j) == 0
    ensures c != 0 ==> [] < log <= BothSweeps(nv, self, seed) && c == answer(|log| - 1)
    ensures forall j :: 0 <= j < |log| - 1 ==> answer(j) == 0
    ensures seed' == if c != 0 && |log| <= nv - 1 then NextSeed(seed) else NextSeed(NextSeed(seed))
    ensures seed' == 0 <==> seed == 0
  {
    hide NextSeed, Start;
    NextSeedNonZero(seed);
    NextSeedNonZero(NextSeed(seed));
    seed' := NextSeed(seed);
    SweepCovers(Start(seed', nv), nv, self);
    c, log := Sweep(nv, self, Start(seed', nv), answer, []);
    if c != 0 {
      return;
    }
    seed' := NextSeed(seed');
    SweepCovers(Start(seed', nv), nv, self);
    c, log := Sweep(nv, self, Start(seed', nv), answer, log);
  }

  // ----- `bench_probe_strided`: no early exit, every index in turn as self -----

  method ProbeSweep(nv: nat, self: nat, start: nat) returns (probes: nat)
    requires start < nv && self < nv
    ensures probes == nv - 1
  {
    probes := 0;
    var v := start;
    for k := 0 to nv
      invariant v < nv && (k < nv ==> v == At(start, k, nv))
      invariant probes == |Probes(start, nv, self, k)|
    {
      if v != self { probes := probes + 1; }
      v := v + 1;
      if v == nv { v := 0; }
    }
    SweepCovers(start, nv, self);
  }

  /** The seed after k draws. */
  function SeedAfter(seed: u32, k: nat): u32 {
    if k == 0 then seed else NextSeed(SeedAfter(seed, k - 1))
  }

  lemma Drawn(seed: u32, k: nat)
    ensures SeedAfter(seed, 0) == seed && SeedAfter(seed, k + 1) == NextSeed(SeedAfter(seed, k))
  {
  }

  method ProbeRow(nv: nat, seed: u32) returns (probes: nat, seed': u32)
    ensures probes == nv * (2 * (nv - 1)) && seed' == SeedAfter(seed, 2 * nv)
  {
    hide *;
    probes, seed' := 0, seed;
    Drawn(seed, 0);
    for i := 0 to nv
      invariant probes == i * (2 * (nv - 1)) && seed' == SeedAfter(seed, 2 * i)
    {
      Distribute(i, 2 * (nv - 1));
      for sw := 0 to 2
        invariant probes == i * (2 * (nv - 1)) + (if sw == 0 then 0 else if sw == 1 then nv - 1 else 2 * (nv - 1))
        invariant seed' == SeedAfter(seed, 2 * i + sw)
      {
        Drawn(seed, 2 * i + sw);
        seed' := NextSeed(seed');
        var p := ProbeSweep(nv, i, Start(seed', nv));
        probes := probes + p;
      }
    }
  }

  /** The count the bench divides its time by. */
  method ProbeStrided(nv: nat, sweeps: nat, seed: u32) returns (probes: nat)
    ensures probes == sweeps * (nv * (2 * (nv - 1)))
  {
    hide *;
    probes := 0;
    var s := seed;
    for r := 0 to sweeps
      invariant probes == r * (nv * (2 * (nv - 1)))
    {
      Distribute(r, nv * (2 * (nv - 1)));
      var p;
      p, s := ProbeRow(nv, s);
      probes := probes + p;
    }
  }
}
