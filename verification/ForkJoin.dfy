/** Binary fork-join over a work-stealing deque used by its owner alone, and the depth report. */
module ForkJoin {
  import opened Words

  datatype Call = Push(tag: nat) | Pop(tag: nat)

  /** The owner's end of the deque: last in, first out; an empty pop answers 0. */
  class Deque {
    var items: seq<nat>
    var log: seq<Call>

    constructor ()
      ensures items == [] && log == []
    {
      items, log := [], [];
    }

    method PushBottom(x: nat)
      modifies this
      ensures items == old(items) + [x] && log == old(log) + [Push(x)]
    {
      items, log := items + [x], log + [Push(x)];
    }

    method PopBottom() returns (x: nat)
      modifies this
      ensures old(items) == [] ==> x == 0 && items == []
      ensures old(items) != [] ==> old(items) == items + [x]
      ensures log == old(log) + [Pop(x)]
    {
      if |items| == 0 {
        x := 0;
      } else {
        x := items[|items| - 1];
        items := items[..|items| - 1];
      }
      log := log + [Pop(x)];
    }
  }

  /** The calls `fj` makes: each pop answers the tag its own activation pushed. */
  function Trace(depth: nat, tag: nat): seq<Call> {
    if depth == 0 then []
    else
      [Push(tag + 1)] + Trace(depth - 1, tag + 1) +
      [Pop(tag + 1)] + Trace(depth - 1, tag + Pow2(depth - 1))
  }

  function Pushes(t: seq<Call>): seq<nat> {
    if t == [] then []
    else Pushes(t[..|t| - 1]) + (if t[|t| - 1].Push? then [t[|t| - 1].tag] else [])
  }

  function Pops(t: seq<Call>): seq<nat> {
    if t == [] then []
    else Pops(t[..|t| - 1]) + (if t[|t| - 1].Pop? then [t[|t| - 1].tag] else [])
  }

  lemma {:induction false} CallsConcat(s: seq<Call>, t: seq<Call>)
    ensures Pushes(s + t) == Pushes(s) + Pushes(t)
    ensures Pops(s + t) == Pops(s) + Pops(t)
    decreases |t|
  {
    if t == [] {
      assert s + t == s;
    } else {
      assert (s + t)[..|s + t| - 1] == s + t[..|t| - 1];
      CallsConcat(s, t[..|t| - 1]);
    }
  }

  /** tag + 1, tag + 2, ..., tag + n. */
  function Upward(tag: nat, n: nat): (s: seq<nat>)
    ensures |s| == n
  {
    seq(n, i => tag + 1 + i)
  }

  lemma TraceSplit(depth: nat, tag: nat)
    requires depth > 0
    ensures var l, r := Trace(depth - 1, tag + 1), Trace(depth - 1, tag + Pow2(depth - 1));
            && Pushes(Trace(depth, tag)) == [tag + 1] + Pushes(l) + Pushes(r)
            && Pops(Trace(depth, tag)) == Pops(l) + [tag + 1] + Pops(r)
  {
    var l, r := Trace(depth - 1, tag + 1), Trace(depth - 1, tag + Pow2(depth - 1));
    var p, q := [Push(tag + 1)], [Pop(tag + 1)];
    assert Trace(depth, tag) == p + l + q + r;
    hide Pushes, Pops, Trace;
    OneCall(tag + 1);
    CallsConcat(p, l);
    CallsConcat(p + l, q);
    CallsConcat(p + l + q, r);
  }

  lemma OneCall(x: nat)
    ensures Pushes([Push(x)]) == Pops([Pop(x)]) == [x] && Pushes([Pop(x)]) == Pops([Push(x)]) == []
  {
    assert [Push(x)][..0] == [] && [Pop(x)][..0] == [];
  }

  lemma UpwardSplit(tag: nat, n: nat)
    requires n > 0
    ensures Upward(tag, 2 * n - 1) == [tag + 1] + Upward(tag + 1, n - 1) + Upward(tag + n, n - 1)
  {
  }

  lemma MiddleFirst(x: nat, a: seq<nat>, b: seq<nat>, c: seq<nat>, d: seq<nat>)
    requires multiset(a) == multiset(c) && multiset(b) == multiset(d)
    ensures multiset(a + [x] + b) == multiset([x] + c + d)
  {
  }

  /** Tags are pushed in the order 1, 2, 3, ... and each is popped exactly once: 2^depth - 1
      pushes and as many pops. */
  lemma {:induction false} TraceBalance(depth: nat, tag: nat)
    ensures Pushes(Trace(depth, tag)) == Upward(tag, Pow2(depth) - 1)
    ensures multiset(Pops(Trace(depth, tag))) == multiset(Upward(tag, Pow2(depth) - 1))
  {
    hide Pushes, Pops, Upward;
    if depth == 0 {
      TraceNone(tag);
    } else {
      var n := Pow2(depth - 1);
      TraceSplit(depth, tag);
      TraceBalance(depth - 1, tag + 1);
      TraceBalance(depth - 1, tag + n);
      UpwardSplit(tag, n);
      MiddleFirst(tag + 1, Pops(Trace(depth - 1, tag + 1)), Pops(Trace(depth - 1, tag + n)),
                  Upward(tag + 1, n - 1), Upward(tag + n, n - 1));
    }
  }

  lemma {:induction false} TraceLength(depth: nat, tag: nat)
    ensures |Trace(depth, tag)| == 2 * Pow2(depth) - 2
  {
    if depth > 0 {
      TraceLength(depth - 1, tag + 1);
      TraceLength(depth - 1, tag + Pow2(depth - 1));
    }
  }

  lemma TraceUnfolded(depth: nat, tag: nat)
    requires depth > 0
    ensures Trace(depth, tag) == [Push(tag + 1)] + Trace(depth - 1, tag + 1) +
                                 [Pop(tag + 1)] + Trace(depth - 1, tag + Pow2(depth - 1))
    ensures Pow2(depth) == 2 * Pow2(depth - 1)
  {
  }

  /** A call of depth d makes 2^(d+1) - 2 deque calls: its own push first, its own pop between the
      calls of its two children, which are whole traces themselves. */
  lemma TraceShape(depth: nat, tag: nat)
    requires depth > 0
    ensures var t, h := Trace(depth, tag), Pow2(depth) - 1;
            && |t| == 2 * h && t[0] == Push(tag + 1) && t[h] == Pop(tag + 1)
            && t[1..h] == Trace(depth - 1, tag + 1) && t[h + 1..] == Trace(depth - 1, tag + Pow2(depth - 1))
  {
    hide Trace, Pow2;
    var l, r := Trace(depth - 1, tag + 1), Trace(depth - 1, tag + Pow2(depth - 1));
    TraceUnfolded(depth, tag);
    TraceLength(depth - 1, tag + 1);
    TraceLength(depth - 1, tag + Pow2(depth - 1));
    FourParts(Push(tag + 1), l, Pop(tag + 1), r);
  }

  lemma FourParts(p: Call, l: seq<Call>, q: Call, r: seq<Call>)
    ensures var t := [p] + l + [q] + r;
            && |t| == |l| + |r| + 2 && t[0] == p && t[|l| + 1] == q
            && t[1..|l| + 1] == l && t[|l| + 2..] == r
  {
  }

  lemma TraceNone(tag: nat)
    ensures Pushes(Trace(0, tag)) == Pops(Trace(0, tag)) == Upward(tag, Pow2(0) - 1) == []
  {
  }

  /** Nodes that pop at level c below `cur` of a tree of the given depth. */
  function Level(c: int, cur: nat, depth: nat): nat {
    if cur <= c < cur + depth then Pow2(c - cur) else 0
  }

  /** hist after is hist before plus one tree of the given depth rooted at level cur. */
  ghost predicate Counted(before: seq<nat>, after: seq<nat>, cur: nat, depth: nat) {
    |after| == |before| && forall c :: 0 <= c < |after| ==> after[c] == before[c] + Level(c, cur, depth)
  }

  lemma CountedSplit(h0: seq<nat>, h1: seq<nat>, h2: seq<nat>, cur: nat, depth: nat)
    requires depth > 0 && cur < |h0| && Counted(h0, h1, cur + 1, depth - 1)
    requires Counted(h1[cur := h1[cur] + 1], h2, cur + 1, depth - 1)
    ensures Counted(h0, h2, cur, depth)
  {
    forall c | 0 <= c < |h0| ensures h2[c] == h0[c] + Level(c, cur, depth) {
      LevelSplit(c, cur, depth);
    }
  }

  lemma LevelSplit(c: int, cur: nat, depth: nat)
    requires depth > 0
    ensures Level(c, cur, depth) == 2 * Level(c, cur + 1, depth - 1) + (if c == cur then 1 else 0)
  {
  }

  lemma SnocInjective(a: seq<nat>, x: nat, b: seq<nat>, y: nat)
    requires a + [x] == b + [y]
    ensures a == b && x == y
  {
    assert (a + [x])[..|a|] == a && (b + [y])[..|b|] == b;
    assert (a + [x])[|a|] == x;
  }

  method Fj(d: Deque, depth: nat, tag: nat, cur: nat, hist: array<nat>) returns (tag': nat)
    requires cur + depth <= hist.Length
    modifies d, hist
    ensures d.items == old(d.items)
    ensures d.log == old(d.log) + Trace(depth, tag)
    ensures tag' == tag + Pow2(depth) - 1
    ensures Counted(old(hist[..]), hist[..], cur, depth)
    decreases depth
  {
    hide Counted;
    tag' := tag;
    if depth == 0 {
      NothingCounted(hist[..], cur);
      return;
    }
    ghost var items, log, h0 := d.items, d.log, hist[..];
    tag' := tag' + 1;
    d.PushBottom(tag');
    tag' := Fj(d, depth - 1, tag', cur + 1, hist);
    ghost var h1 := hist[..];
    hist[cur] := hist[cur] + 1;
    assert hist[..] == h1[cur := h1[cur] + 1];
    var popped := d.PopBottom();
    SnocInjective(items, tag + 1, d.items, popped);
    ghost var l, r := Trace(depth - 1, tag + 1), Trace(depth - 1, tag');
    assert d.log == log + ([Push(tag + 1)] + l + [Pop(tag + 1)]);
    tag' := Fj(d, depth - 1, tag', cur + 1, hist);
    assert d.log == log + ([Push(tag + 1)] + l + [Pop(tag + 1)] + r);
    assert |h0| == hist.Length;
    CountedSplit(h0, h1, hist[..], cur, depth);
  }

  lemma NothingCounted(h: seq<nat>, cur: nat)
    ensures Counted(h, h, cur, 0)
  {
  }

  // ----- the depth report -----

  /** The test for the q-th percentile at level i, in 64-bit arithmetic: acc * m >= tot * q. */
  predicate Reached(i: nat, depth: nat, m: nat, q: nat) {
    (Pow2(i + 1) - 1) * m % WORD >= (Pow2(depth) - 1) * q % WORD
  }

  /** p is one more than the first of the levels below n that pass the test, or 0. */
  ghost predicate FirstReached(p: nat, n: nat, depth: nat, m: nat, q: nat) {
    if p == 0 then forall i :: 0 <= i < n ==> !Reached(i, depth, m, q)
    else p <= n && Reached(p - 1, depth, m, q) && forall i :: 0 <= i < p - 1 ==> !Reached(i, depth, m, q)
  }

  lemma ReachedPlain(i: nat, depth: nat, m: nat, q: nat)
    requires (Pow2(i + 1) - 1) * m < WORD && (Pow2(depth) - 1) * q < WORD
    ensures Reached(i, depth, m, q) <==> (Pow2(i + 1) - 1) * m >= (Pow2(depth) - 1) * q
  {
    hide Pow2;
    var a: nat, b: nat := (Pow2(i + 1) - 1) * m, (Pow2(depth) - 1) * q;
    SmallWord(a);
    SmallWord(b);
  }

  lemma SmallWord(x: nat)
    requires x < WORD
    ensures x % WORD == x
  {
  }

  /** A level before the last holds less than half of the nodes. */
  lemma BeforeLast(i: nat, depth: nat)
    requires i < depth
    ensures Pow2(i + 1) <= Pow2(depth) && (i < depth - 1 ==> 2 * Pow2(i + 1) <= Pow2(depth))
  {
    Pow2Monotone(i + 1, depth);
    if i < depth - 1 {
      Pow2Monotone(i + 1, depth - 1);
    }
  }

  /** The p50 test does not wrap up to depth 63: no level but the last passes. */
  lemma HalfAtLast(i: nat, depth: nat)
    requires i < depth <= 63
    ensures Reached(i, depth, 2, 1) <==> i == depth - 1
  {
    hide Reached, Pow2;
    Pow2Word();
    BigPowers();
    BeforeLast(i, depth);
    Pow2Monotone(depth, 63);
    ReachedPlain(i, depth, 2, 1);
  }

  /** At depth 64 the last level fails it. */
  lemma HalfWraps()
    ensures !Reached(63, 64, 2, 1)
  {
    hide Pow2;
    Pow2Word();
  }

  /** Nor does the p95 test up to depth 57. */
  lemma ReachedAtLast(i: nat, depth: nat)
    requires i < depth <= 57
    ensures Reached(i, depth, 100, 95) <==> i == depth - 1
  {
    hide Reached, Pow2;
    Pow2Word();
    BeforeLast(i, depth);
    Pow2Monotone(depth, 57);
    ReachedPlain(i, depth, 100, 95);
  }

  lemma BigPowers()
    ensures Pow2(58) == 2 * Pow2(57) && Pow2(59) == 4 * Pow2(57) && Pow2(60) == 8 * Pow2(57)
    ensures Pow2(61) == 16 * Pow2(57) && Pow2(62) == 32 * Pow2(57) && Pow2(63) == 64 * Pow2(57)
    ensures Pow2(64) == 128 * Pow2(57)
  {
  }

  /** From depth 58 on acc * 100 or tot * 95 wraps: level 56 passes too early, or the last
      level does not pass. */
  lemma WrapsTooEarly(depth: nat)
    requires 58 <= depth <= 64
    ensures Reached(56, depth, 100, 95) || !Reached(depth - 1, depth, 100, 95)
  {
    hide Pow2;
    Pow2Word();
    BigPowers();
    if depth == 58 {
    } else if depth == 59 {
    } else if depth == 60 {
    } else if depth == 61 {
    } else if depth == 62 {
    } else if depth == 63 {
    } else {
    }
  }

  lemma ReportExact(depth: nat, p50: nat, p95: nat)
    requires 1 <= depth <= 64
    requires FirstReached(p50, depth, depth, 2, 1) && FirstReached(p95, depth, depth, 100, 95)
    ensures p50 == depth <==> depth <= 63
    ensures p95 == depth <==> depth <= 57
  {
    hide Reached;
    if depth <= 63 {
      HalfAtLast(depth - 1, depth);
      if p50 > 0 { HalfAtLast(p50 - 1, depth); }
    } else {
      HalfWraps();
    }
    if depth <= 57 {
      ReachedAtLast(depth - 1, depth);
      if p95 > 0 { ReachedAtLast(p95 - 1, depth); }
    } else {
      WrapsTooEarly(depth);
    }
  }

  ghost predicate Levels(hist: seq<nat>, depth: nat) {
    |hist| == 64 && depth <= 64 && forall c :: 0 <= c < 64 ==> hist[c] == Level(c, 0, depth)
  }

  lemma LevelSum(hist: seq<nat>, depth: nat, i: nat)
    requires Levels(hist, depth) && i < 64
    ensures Pow2(Min(i + 1, depth)) - 1 == Pow2(Min(i, depth)) - 1 + hist[i]
    ensures hist[i] == 0 <==> i >= depth
  {
  }

  method SumLevels(hist: array<nat>, ghost depth: nat) returns (tot: nat)
    requires Levels(hist[..], depth)
    ensures tot == Pow2(depth) - 1
  {
    hide Levels, Pow2;
    Sized(hist[..], depth);
    tot := 0;
    PowZero();
    for i := 0 to 64
      invariant tot == Pow2(Min(i, depth)) - 1
    {
      LevelSum(hist[..], depth, i);
      tot := tot + hist[i];
    }
  }

  lemma PowZero()
    ensures Pow2(0) == 1
  {
  }

  lemma Sized(hist: seq<nat>, depth: nat)
    requires Levels(hist, depth)
    ensures |hist| == 64 && depth <= 64
  {
  }

  /** One more level tested. */
  lemma FirstReachedNext(p: nat, i: nat, depth: nat, m: nat, q: nat)
    requires FirstReached(p, i, depth, m, q)
    ensures FirstReached(if p == 0 && Reached(i, depth, m, q) then i + 1 else p, i + 1, depth, m, q)
  {
  }

  /** The scan: levels past the depth are empty and skipped. */
  method ScanLevels(hist: array<nat>, tot: nat, ghost depth: nat) returns (p50: nat, p95: nat, mx: nat)
    requires Levels(hist[..], depth) && tot == Pow2(depth) - 1
    ensures mx == depth
    ensures FirstReached(p50, depth, depth, 2, 1) && FirstReached(p95, depth, depth, 100, 95)
  {
    hide Levels, Pow2, FirstReached;
    Sized(hist[..], depth);
    PowZero();
    NoneReached(depth);
    var acc := 0;
    p50, p95, mx := 0, 0, 0;
    for i := 0 to 64
      invariant acc == Pow2(Min(i, depth)) - 1 && mx == Min(i, depth)
      invariant FirstReached(p50, Min(i, depth), depth, 2, 1)
      invariant FirstReached(p95, Min(i, depth), depth, 100, 95)
    {
      LevelSum(hist[..], depth, i);
      if hist[i] == 0 { continue; }
      mx := i + 1;
      acc := acc + hist[i];
      FirstReachedNext(p50, i, depth, 2, 1);
      FirstReachedNext(p95, i, depth, 100, 95);
      if p50 == 0 && acc * 2 % WORD >= tot * 1 % WORD { p50 := i + 1; }
      if p95 == 0 && acc * 100 % WORD >= tot * 95 % WORD { p95 := i + 1; }
    }
  }

  lemma NoneReached(depth: nat)
    ensures FirstReached(0, 0, depth, 2, 1) && FirstReached(0, 0, depth, 100, 95)
  {
  }

  /** `forkjoin_depths`: for 1 <= depth <= 64 it reports max = depth, p50 = depth exactly up to
      63 and p95 = depth exactly up to 57, the last depths at which the products fit. */
  method ForkJoinDepths(depth: nat) returns (p50: nat, p95: nat, mx: nat, tot: nat)
    requires depth <= 64
    ensures tot == Pow2(depth) - 1 && mx == depth
    ensures depth == 0 ==> p50 == p95 == 0
    ensures depth > 0 ==> (p50 == depth <==> depth <= 63) && (p95 == depth <==> depth <= 57)
  {
    var d := new Deque();
    var hist := new nat[64](_ => 0);
    assert hist[..] == seq(64, _ => 0);
    var tag := Fj(d, depth, 0, 0, hist);
    assert Levels(hist[..], depth);
    tot := SumLevels(hist, depth);
    p50, p95, mx := ScanLevels(hist, tot, depth);
    if depth > 0 {
      ReportExact(depth, p50, p95);
    }
  }
}
