/** Workloads that hold many blocks: alloc-all then free in order or shuffled, hole punching
    and refill, and the latency phase of the serial worker. */
module Holding {
  import opened Finite
  import opened Words
  import opened Workload
  import Churn
  import Shuffle

  // ----- filling and emptying slots in a given order -----

  /** The first k slots of the order exist and are visited once. */
  ghost predicate Visits(n: nat, order: seq<nat>) {
    Distinct(order) && forall i :: 0 <= i < |order| ==> order[i] < n
  }

  ghost function PutMany(w: World, order: seq<nat>, sizes: seq<nat>, k: nat): (v: World)
    requires Visits(|w.slots|, order) && k <= |order| && k <= |sizes|
    ensures |v.slots| == |w.slots|
    ensures forall i :: 0 <= i < k ==> v.slots[order[i]].Held?
    ensures forall i :: k <= i < |order| ==> v.slots[order[i]] == w.slots[order[i]]
  {
    if k == 0 then w else Put(PutMany(w, order, sizes, k - 1), order[k - 1], sizes[k - 1])
  }

  ghost function TakeMany(w: World, order: seq<nat>, k: nat): (v: World)
    requires Visits(|w.slots|, order) && k <= |order|
    requires forall i :: 0 <= i < k ==> w.slots[order[i]].Held?
    ensures |v.slots| == |w.slots|
    ensures forall i :: 0 <= i < k ==> v.slots[order[i]].Empty?
    ensures forall i :: k <= i < |order| ==> v.slots[order[i]] == w.slots[order[i]]
  {
    if k == 0 then w else Take(TakeMany(w, order, k - 1), order[k - 1])
  }

  lemma {:induction false} PutElsewhere(w: World, order: seq<nat>, sizes: seq<nat>, k: nat, s: nat)
    requires Visits(|w.slots|, order) && k <= |order| && k <= |sizes| && s < |w.slots| && s !in order[..k]
    ensures PutMany(w, order, sizes, k).slots[s] == w.slots[s]
  {
    if k > 0 {
      assert order[..k] == order[..k - 1] + [order[k - 1]];
      PutElsewhere(w, order, sizes, k - 1, s);
    }
  }

  lemma {:induction false} TakeElsewhere(w: World, order: seq<nat>, k: nat, s: nat)
    requires Visits(|w.slots|, order) && k <= |order| && s < |w.slots| && s !in order[..k]
    requires forall i :: 0 <= i < k ==> w.slots[order[i]].Held?
    ensures TakeMany(w, order, k).slots[s] == w.slots[s]
  {
    if k > 0 {
      assert order[..k] == order[..k - 1] + [order[k - 1]];
      TakeElsewhere(w, order, k - 1, s);
    }
  }

  lemma {:induction false} PutManySound(w: World, order: seq<nat>, sizes: seq<nat>, k: nat)
    requires Visits(|w.slots|, order) && k <= |order| && k <= |sizes| && Sound(w)
    requires forall i :: 0 <= i < k ==> w.slots[order[i]].Empty?
    ensures Sound(PutMany(w, order, sizes, k))
  {
    hide Sound, Distinct;
    if k > 0 {
      PutManySound(w, order, sizes, k - 1);
      PutSound(PutMany(w, order, sizes, k - 1), order[k - 1], sizes[k - 1]);
    }
  }

  lemma {:induction false} TakeManySound(w: World, order: seq<nat>, k: nat)
    requires Visits(|w.slots|, order) && k <= |order| && Sound(w)
    requires forall i :: 0 <= i < k ==> w.slots[order[i]].Held?
    ensures Sound(TakeMany(w, order, k))
  {
    hide Sound, Distinct;
    if k > 0 {
      TakeManySound(w, order, k - 1);
      TakeSound(TakeMany(w, order, k - 1), order[k - 1]);
    }
  }

  // ----- the requests, one by one -----

  /** From `at` on the trace allocates sizes[0], sizes[1], ... */
  ghost predicate PutsAt(log: seq<Event>, at: nat, sizes: seq<nat>, k: nat)
    requires k <= |sizes|
  {
    at + k <= |log| && forall i :: 0 <= i < k ==> log[at + i] == Allocated(sizes[i])
  }

  /** From `at` on the trace releases the blocks of slots order[0], order[1], ... */
  ghost predicate TakesAt(log: seq<Event>, at: nat, slots: seq<Cell>, order: seq<nat>, k: nat)
    requires Visits(|slots|, order) && k <= |order|
  {
    at + k <= |log| &&
    forall i :: 0 <= i < k ==>
      slots[order[i]].Held? && log[at + i] == Released(slots[order[i]].block.serial)
  }

  /** Slots order[..k] hold the blocks from `next` on, with their sizes. */
  ghost predicate Filled(slots: seq<Cell>, order: seq<nat>, sizes: seq<nat>, next: nat, k: nat)
    requires Visits(|slots|, order) && k <= |order| && k <= |sizes|
  {
    forall i :: 0 <= i < k ==> slots[order[i]] == Held(Block(next + i, sizes[i]))
  }

  lemma {:induction false} PutTrace(w: World, order: seq<nat>, sizes: seq<nat>, k: nat)
    requires Visits(|w.slots|, order) && k <= |order| && k <= |sizes|
    ensures var v := PutMany(w, order, sizes, k);
            && w.log <= v.log && |v.log| == |w.log| + k && v.next == w.next + k
            && PutsAt(v.log, |w.log|, sizes, k) && Filled(v.slots, order, sizes, w.next, k)
  {
    if k > 0 {
      PutTrace(w, order, sizes, k - 1);
    }
  }

  lemma {:induction false} TakeTrace(w: World, order: seq<nat>, k: nat)
    requires Visits(|w.slots|, order) && k <= |order|
    requires forall i :: 0 <= i < k ==> w.slots[order[i]].Held?
    ensures var v := TakeMany(w, order, k);
            && w.log <= v.log && |v.log| == |w.log| + k && v.next == w.next
            && TakesAt(v.log, |w.log|, w.slots, order, k)
  {
    if k > 0 {
      TakeTrace(w, order, k - 1);
      assert TakeMany(w, order, k - 1).slots[order[k - 1]] == w.slots[order[k - 1]];
    }
  }

  lemma FreeNone(v: World, order: seq<nat>)
    requires Visits(|v.slots|, order)
    ensures TakeMany(v, order, 0) == v
  {
  }

  lemma TakeNext(w: World, order: seq<nat>, i: nat)
    requires Visits(|w.slots|, order) && i < |order|
    requires forall k :: 0 <= k <= i ==> w.slots[order[k]].Held?
    ensures var u := TakeMany(w, order, i);
            u.slots[order[i]].Held? && TakeMany(w, order, i + 1) == Take(u, order[i])
  {
  }

  /** Allocates into order[..k].  Old pointers in those slots are overwritten unread. */
  method PutAll(heap: Heap, ptrs: array<nat>, order: seq<nat>, sizes: seq<nat>, k: nat, ghost w: World, ghost base: Base)
    requires Matches(heap, ptrs, w, base) && Visits(|w.slots|, order) && k <= |order| && k <= |sizes|
    requires forall i :: 0 <= i < k ==> w.slots[order[i]].Empty?
    modifies heap, ptrs
    ensures Matches(heap, ptrs, PutMany(w, order, sizes, k), base)
    ensures old(Nulls(ptrs[..], w.slots)) ==> Nulls(ptrs[..], PutMany(w, order, sizes, k).slots)
    ensures |heap.log| == |w.log| + k && w.log <= heap.log && PutsAt(heap.log, |w.log|, sizes, k)
  {
    hide Owns, Nulls, Distinct, PutsAt, Filled;
    for i := 0 to k
      invariant Matches(heap, ptrs, PutMany(w, order, sizes, i), base)
      invariant old(Nulls(ptrs[..], w.slots)) ==> Nulls(ptrs[..], PutMany(w, order, sizes, i).slots)
    {
      PutSlot(heap, ptrs, order[i], sizes[i], PutMany(w, order, sizes, i), base);
    }
    PutTrace(w, order, sizes, k);
  }

  /** Frees order[..k], leaving the pointers behind. */
  method TakeAll(heap: Heap, ptrs: array<nat>, order: seq<nat>, k: nat, ghost w: World, ghost base: Base)
    requires Matches(heap, ptrs, w, base) && Visits(|w.slots|, order) && k <= |order|
    requires forall i :: 0 <= i < k ==> w.slots[order[i]].Held?
    modifies heap
    ensures Matches(heap, ptrs, TakeMany(w, order, k), base)
    ensures |heap.log| == |w.log| + k && w.log <= heap.log && TakesAt(heap.log, |w.log|, w.slots, order, k)
  {
    hide Owns, Distinct, TakesAt, Ledger, TakeMany, Take;
    FreeNone(w, order);
    for i := 0 to k
      invariant Matches(heap, ptrs, TakeMany(w, order, i), base)
    {
      TakeNext(w, order, i);
      TakeSlot(heap, ptrs, order[i], TakeMany(w, order, i), base);
    }
    TakeTrace(w, order, k);
  }

  /** Frees order[..k] and nulls the slots, as the fragmenting workload does. */
  method PunchAll(heap: Heap, ptrs: array<nat>, order: seq<nat>, k: nat, ghost w: World, ghost base: Base)
    requires Matches(heap, ptrs, w, base)
    requires Nulls(ptrs[..], w.slots) && Visits(|w.slots|, order) && k <= |order|
    requires forall i :: 0 <= i < k ==> w.slots[order[i]].Held?
    modifies heap, ptrs
    ensures Matches(heap, ptrs, TakeMany(w, order, k), base)
    ensures Nulls(ptrs[..], TakeMany(w, order, k).slots)
    ensures |heap.log| == |w.log| + k && w.log <= heap.log && TakesAt(heap.log, |w.log|, w.slots, order, k)
  {
    hide Owns, Nulls, Distinct, TakesAt, Ledger, TakeMany, Take;
    FreeNone(w, order);
    for i := 0 to k
      invariant Matches(heap, ptrs, TakeMany(w, order, i), base)
      invariant Nulls(ptrs[..], TakeMany(w, order, i).slots)
    {
      TakeNext(w, order, i);
      TakeAndNull(heap, ptrs, order[i], TakeMany(w, order, i), base);
    }
    TakeTrace(w, order, k);
  }

  // ----- alloc all, free all -----

  ghost predicate AllHeld(slots: seq<Cell>) {
    forall s :: 0 <= s < |slots| ==> slots[s].Held?
  }

  ghost function FillAll(w: World, sizes: seq<nat>): (v: World)
    requires |sizes| == |w.slots|
    ensures |v.slots| == |w.slots| && AllHeld(v.slots)
  {
    var n := |w.slots|;
    var v := PutMany(w, Shuffle.Identity(n), sizes, n);
    assert forall s :: 0 <= s < n ==> v.slots[s].Held? by {
      forall s | 0 <= s < n ensures v.slots[s].Held? {
        assert Shuffle.Identity(n)[s] == s;
      }
    }
    v
  }

  ghost function FreeAll(w: World, order: seq<nat>): (v: World)
    requires |order| == |w.slots| && Permutation(order) && AllHeld(w.slots)
    ensures |v.slots| == |w.slots| && AllEmpty(v.slots)
    ensures w.log <= v.log && |v.log| == |w.log| + |order| && TakesAt(v.log, |w.log|, w.slots, order, |order|)
  {
    TakeTrace(w, order, |order|);
    var v := TakeMany(w, order, |order|);
    assert forall s :: 0 <= s < |order| ==> v.slots[s].Empty? by {
      forall s | 0 <= s < |order| ensures v.slots[s].Empty? {
        PermutationCovers(order, s);
        var i :| 0 <= i < |order| && order[i] == s;
      }
    }
    v
  }

  /** Fill every slot in order, then free in the given order. */
  ghost function HoldRound(w: World, sizes: seq<nat>, order: seq<nat>): (v: World)
    requires |sizes| == |order| == |w.slots| && Permutation(order)
    ensures |v.slots| == |w.slots| && AllEmpty(v.slots)
  {
    FreeAll(FillAll(w, sizes), order)
  }

  ghost function HoldRounds(w: World, sizes: seq<nat>, order: seq<nat>, r: nat): (v: World)
    requires |sizes| == |order| == |w.slots| && Permutation(order) && AllEmpty(w.slots)
    ensures |v.slots| == |w.slots| && AllEmpty(v.slots)
  {
    if r == 0 then w else HoldRound(HoldRounds(w, sizes, order, r - 1), sizes, order)
  }

  lemma IdentityVisits(n: nat)
    ensures Visits(n, Shuffle.Identity(n)) && Permutation(Shuffle.Identity(n))
  {
  }

  /** Every block allocated is freed exactly once, in order or shuffled. */
  lemma {:induction false} HoldRoundsBalance(w: World, sizes: seq<nat>, order: seq<nat>, r: nat)
    requires |sizes| == |order| == |w.slots| && Permutation(order) && AllEmpty(w.slots) && Sound(w)
    ensures var v := HoldRounds(w, sizes, order, r);
            Sound(v) && Quiet(v.next, v.log)
    decreases r
  {
    hide Sound, Distinct;
    if r > 0 {
      HoldRoundsBalance(w, sizes, order, r - 1);
      var u, n := HoldRounds(w, sizes, order, r - 1), |w.slots|;
      IdentityVisits(n);
      PutManySound(u, Shuffle.Identity(n), sizes, n);
      TakeManySound(FillAll(u, sizes), order, n);
    }
    SoundIsQuiet(HoldRounds(w, sizes, order, r));
  }

  /** From `at` on: sizes[0], sizes[1], ... allocated, then those blocks released in the order. */
  ghost predicate HoldAt(log: seq<Event>, at: nat, next: nat, sizes: seq<nat>, order: seq<nat>)
    requires |sizes| == |order|
  {
    var n := |sizes|;
    && at + 2 * n <= |log| && PutsAt(log, at, sizes, n) && ReleasesAt(log, at + n, next, order, n)
  }

  ghost predicate ReleasesAt(log: seq<Event>, at: nat, next: nat, order: seq<nat>, k: nat)
    requires k <= |order|
  {
    at + k <= |log| && forall i :: 0 <= i < k ==> log[at + i] == Released(next + order[i])
  }

  /** After filling, slot s holds block next + s, of sizes[s]. */
  lemma FillTrace(w: World, sizes: seq<nat>)
    requires |sizes| == |w.slots|
    ensures var v, n := FillAll(w, sizes), |sizes|;
            && w.log <= v.log && |v.log| == |w.log| + n && v.next == w.next + n && PutsAt(v.log, |w.log|, sizes, n)
            && forall s :: 0 <= s < n ==> v.slots[s] == Held(Block(w.next + s, sizes[s]))
  {
    hide PutsAt;
    var id := Shuffle.Identity(|sizes|);
    IdentityVisits(|sizes|);
    PutTrace(w, id, sizes, |sizes|);
    forall s | 0 <= s < |sizes| ensures FillAll(w, sizes).slots[s] == Held(Block(w.next + s, sizes[s])) {
      assert id[s] == s;
    }
  }

  lemma HoldTrace(w: World, sizes: seq<nat>, order: seq<nat>)
    requires |sizes| == |order| == |w.slots| && Permutation(order)
    ensures var v, n := HoldRound(w, sizes, order), |sizes|;
            && w.log <= v.log && |v.log| == |w.log| + 2 * n && v.next == w.next + n
            && HoldAt(v.log, |w.log|, w.next, sizes, order)
  {
    hide Distinct, FillAll, PutsAt, TakesAt, ReleasesAt;
    var u, n := FillAll(w, sizes), |sizes|;
    FillTrace(w, sizes);
    TakeTrace(u, order, n);
    var v := HoldRound(w, sizes, order);
    NamedReleases(v.log, |u.log|, u.slots, order, n, w.next);
    PutsExtend(u.log, v.log, |w.log|, sizes, n);
  }

  lemma PutsExtend(log: seq<Event>, longer: seq<Event>, at: nat, sizes: seq<nat>, k: nat)
    requires k <= |sizes| && log <= longer && PutsAt(log, at, sizes, k)
    ensures PutsAt(longer, at, sizes, k)
  {
  }

  /** Where slot s holds block next + s, the releases name the slots. */
  lemma NamedReleases(log: seq<Event>, at: nat, slots: seq<Cell>, order: seq<nat>, k: nat, next: nat)
    requires Visits(|slots|, order) && k <= |order| && TakesAt(log, at, slots, order, k)
    requires forall s :: 0 <= s < |slots| && slots[s].Held? ==> slots[s].block.serial == next + s
    ensures ReleasesAt(log, at, next, order, k)
  {
    hide Distinct;
  }

  ghost predicate NthHold(log: seq<Event>, at: nat, next: nat, sizes: seq<nat>, order: seq<nat>, q: nat)
    requires |sizes| == |order|
  {
    HoldAt(log, at + q * (2 * |sizes|), next + q * |sizes|, sizes, order)
  }

  /** From `at` on the trace is r such rounds, each with blocks of its own. */
  ghost predicate HoldsAt(log: seq<Event>, at: nat, next: nat, sizes: seq<nat>, order: seq<nat>, r: nat)
    requires |sizes| == |order|
  {
    |log| == at + r * (2 * |sizes|) && forall q: nat :: q < r ==> NthHold(log, at, next, sizes, order, q)
  }

  lemma HoldExtends(log: seq<Event>, longer: seq<Event>, at: nat, next: nat, sizes: seq<nat>, order: seq<nat>)
    requires |sizes| == |order| && log <= longer && HoldAt(log, at, next, sizes, order)
    ensures HoldAt(longer, at, next, sizes, order)
  {
  }

  lemma HoldsStep(log: seq<Event>, longer: seq<Event>, at: nat, next: nat, sizes: seq<nat>, order: seq<nat>, r: nat)
    requires |sizes| == |order| && HoldsAt(log, at, next, sizes, order, r)
    requires log <= longer && |longer| == |log| + 2 * |sizes|
    requires HoldAt(longer, |log|, next + r * |sizes|, sizes, order)
    ensures HoldsAt(longer, at, next, sizes, order, r + 1)
  {
    hide HoldAt;
    Distribute(r, 2 * |sizes|);
    forall q: nat | q < r + 1 ensures NthHold(longer, at, next, sizes, order, q) {
      if q < r {
        assert NthHold(log, at, next, sizes, order, q);
        HoldExtends(log, longer, at + q * (2 * |sizes|), next + q * |sizes|, sizes, order);
      }
    }
  }

  /** The whole trace of any number of rounds. */
  lemma {:induction false} HoldRoundsTrace(w: World, sizes: seq<nat>, order: seq<nat>, r: nat)
    requires |sizes| == |order| == |w.slots| && Permutation(order) && AllEmpty(w.slots)
    ensures var v := HoldRounds(w, sizes, order, r);
            v.next == w.next + r * |sizes| && HoldsAt(v.log, |w.log|, w.next, sizes, order, r)
    decreases r
  {
    hide HoldAt, HoldRound, Distinct, NthHold;
    if r > 0 {
      HoldRoundsTrace(w, sizes, order, r - 1);
      var u := HoldRounds(w, sizes, order, r - 1);
      HoldTrace(u, sizes, order);
      Distribute(r - 1, |sizes|);
      HoldsStep(u.log, HoldRound(u, sizes, order).log, |w.log|, w.next, sizes, order, r - 1);
    }
  }

  lemma HeapEmptied(heap: Heap, ptrs: array<nat>, w: World, base: Base)
    requires Matches(heap, ptrs, w, base) && AllEmpty(w.slots)
    ensures heap.Valid() && heap.live == base.live && heap.bytes == base.bytes
    ensures heap.log == w.log && heap.allocs == w.next
  {
    hide Owns;
    OwnsNothing(heap.live, ptrs[..], w.slots, base.live);
  }

  lemma HeapStarts(heap: Heap, ptrs: array<nat>, n: nat)
    requires heap.Valid() && n <= ptrs.Length
    ensures Matches(heap, ptrs, World(seq(n, _ => Empty), heap.allocs, heap.log), Base(heap.live, heap.bytes))
  {
    hide Owns;
    var slots: seq<Cell> := seq(n, _ => Empty);
    NoBytes(slots);
    OwnsBase(heap.live, ptrs[..], slots);
  }

  method HoldPass(heap: Heap, ptrs: array<nat>, sizes: seq<nat>, order: seq<nat>, ghost w: World, ghost base: Base)
    requires Matches(heap, ptrs, w, base) && AllEmpty(w.slots)
    requires |sizes| == |order| == |w.slots| && Permutation(order)
    modifies heap, ptrs
    ensures Matches(heap, ptrs, HoldRound(w, sizes, order), base)
    ensures HoldAt(heap.log, |w.log|, w.next, sizes, order)
  {
    hide Matches, Nulls, Distinct, PutsAt, TakesAt, HoldAt;
    var n := |sizes|;
    IdentityVisits(n);
    PutAll(heap, ptrs, Shuffle.Identity(n), sizes, n, w, base);
    TakeAll(heap, ptrs, order, n, FillAll(w, sizes), base);
    HoldTrace(w, sizes, order);
    MatchesLog(heap, ptrs, HoldRound(w, sizes, order), base);
  }

  lemma MatchesLog(heap: Heap, ptrs: array<nat>, w: World, base: Base)
    requires Matches(heap, ptrs, w, base)
    ensures heap.log == w.log
  {
  }

  /** `measure_two_phase` with any number of alloc/free rounds: the pointers of freed blocks
      stay in the table and are never freed again. */
  method MeasureTwoPhase(heap: Heap, ptrs: array<nat>, perm: array<nat>, sizes: seq<nat>, rnd: bool,
                         draws: seq<nat>, rounds: nat)
    requires heap.Valid() && |sizes| <= ptrs.Length && |sizes| <= perm.Length && perm != ptrs
    requires rnd ==> Shuffle.Draws(|sizes|, draws)
    modifies heap, ptrs, perm
    ensures heap.Valid() && heap.live == old(heap.live) && heap.bytes == old(heap.bytes)
    ensures var n, w := |sizes|, World(seq(|sizes|, _ => Empty), old(heap.allocs), old(heap.log));
            var order := if rnd then Shuffle.Shuffled(Shuffle.Identity(n), n, draws) else Shuffle.Identity(n);
            && Permutation(order) && heap.log == HoldRounds(w, sizes, order, rounds).log
            && HoldsAt(heap.log, |w.log|, w.next, sizes, order, rounds)
    ensures old(Quiet(heap.allocs, heap.log)) ==> Quiet(heap.allocs, heap.log)
  {
    hide Matches, Distinct, HoldRound, Quiet, Sound, HoldAt, HoldsAt;
    var n := |sizes|;
    ghost var w := World(seq(n, _ => Empty), heap.allocs, heap.log);
    ghost var base := Base(heap.live, heap.bytes);
    var order := Shuffle.Identity(n);
    if rnd {
      Shuffle.BuildPerm(perm, n, draws);
      order := perm[..n];
    }
    IdentityVisits(n);
    HeapStarts(heap, ptrs, n);
    for r := 0 to rounds
      invariant Matches(heap, ptrs, HoldRounds(w, sizes, order, r), base)
    {
      ghost var v := HoldRounds(w, sizes, order, r);
      HoldPass(heap, ptrs, sizes, order, v, base);
    }
    HeapEmptied(heap, ptrs, HoldRounds(w, sizes, order, rounds), base);
    HoldRoundsTrace(w, sizes, order, rounds);
    if old(Quiet(heap.allocs, heap.log)) {
      QuietIsSound(n, w.next, w.log);
      HoldRoundsBalance(w, sizes, order, rounds);
    }
  }

  // ----- punching holes and refilling them -----

  /** The empty slots are exactly the first m of the shuffled order. */
  ghost predicate Holes(slots: seq<Cell>, order: seq<nat>, m: nat)
    requires m <= |order|
  {
    forall s :: 0 <= s < |slots| ==> (slots[s].Empty? <==> s in order[..m])
  }

  ghost function Punch(w: World, order: seq<nat>, m: nat): (v: World)
    requires |order| == |w.slots| && Permutation(order) && m <= |order| && AllHeld(w.slots)
    ensures |v.slots| == |w.slots| && Holes(v.slots, order, m)
  {
    var v := TakeMany(w, order, m);
    assert forall s :: 0 <= s < |order| ==> (v.slots[s].Empty? <==> s in order[..m]) by {
      forall s | 0 <= s < |order| ensures v.slots[s].Empty? <==> s in order[..m] {
        if s in order[..m] {
          var i :| 0 <= i < m && order[..m][i] == s;
        } else {
          TakeElsewhere(w, order, m, s);
        }
      }
    }
    v
  }

  ghost function Refill(w: World, sizes: seq<nat>, order: seq<nat>, m: nat): (v: World)
    requires |sizes| == |order| == |w.slots| && Permutation(order) && m <= |order| && Holes(w.slots, order, m)
    ensures |v.slots| == |w.slots| && AllHeld(v.slots)
  {
    var v := PutMany(w, order, sizes, m);
    assert forall s :: 0 <= s < |order| ==> v.slots[s].Held? by {
      forall s | 0 <= s < |order| ensures v.slots[s].Held? {
        if s in order[..m] {
          var i :| 0 <= i < m && order[..m][i] == s;
        } else {
          PutElsewhere(w, order, sizes, m, s);
        }
      }
    }
    v
  }

  /** Fill, punch, then r times refill and punch again. */
  ghost function Fragmented(w: World, sizes: seq<nat>, order: seq<nat>, m: nat, r: nat): (v: World)
    requires |sizes| == |order| == |w.slots| && Permutation(order) && m <= |order|
    ensures |v.slots| == |w.slots| && Holes(v.slots, order, m)
  {
    if r == 0 then Punch(FillAll(w, sizes), order, m)
    else Punch(Refill(Fragmented(w, sizes, order, m, r - 1), sizes, order, m), order, m)
  }

  lemma HoleSlots(slots: seq<Cell>, order: seq<nat>, m: nat)
    requires m <= |order| == |slots| && Permutation(order) && Holes(slots, order, m)
    ensures forall i :: 0 <= i < m ==> slots[order[i]].Empty?
  {
    forall i | 0 <= i < m ensures slots[order[i]].Empty? {
      assert order[..m][i] == order[i];
    }
  }

  lemma {:induction false} FragmentedSound(w: World, sizes: seq<nat>, order: seq<nat>, m: nat, r: nat)
    requires |sizes| == |order| == |w.slots| && Permutation(order) && m <= |order| && AllEmpty(w.slots) && Sound(w)
    ensures Sound(Fragmented(w, sizes, order, m, r))
    decreases r
  {
    hide Sound, Distinct;
    if r == 0 {
      IdentityVisits(|order|);
      PutManySound(w, Shuffle.Identity(|order|), sizes, |order|);
      TakeManySound(FillAll(w, sizes), order, m);
    } else {
      FragmentedSound(w, sizes, order, m, r - 1);
      var u := Fragmented(w, sizes, order, m, r - 1);
      HoleSlots(u.slots, order, m);
      PutManySound(u, order, sizes, m);
      TakeManySound(Refill(u, sizes, order, m), order, m);
    }
  }

  /** After the final sweep the whole fragmenting run has freed every block once. */
  lemma FragmentedBalance(w: World, sizes: seq<nat>, order: seq<nat>, m: nat, r: nat)
    requires |sizes| == |order| == |w.slots| && Permutation(order) && m <= |order| && AllEmpty(w.slots) && Sound(w)
    ensures var v := Churn.Sweep(Fragmented(w, sizes, order, m, r), |w.slots|);
            Quiet(v.next, v.log)
  {
    hide Sound;
    FragmentedSound(w, sizes, order, m, r);
    Churn.SweepSound(Fragmented(w, sizes, order, m, r), |w.slots|);
    SoundIsQuiet(Churn.Sweep(Fragmented(w, sizes, order, m, r), |w.slots|));
  }

  // ----- the fragmenting trace -----

  /** Slots outside the holes still hold their first blocks. */
  ghost predicate KeptAt(slots: seq<Cell>, order: seq<nat>, m: nat, next: nat, sizes: seq<nat>)
    requires |slots| == |sizes| && m <= |order|
  {
    forall s :: 0 <= s < |slots| && s !in order[..m] ==> slots[s] == Held(Block(next + s, sizes[s]))
  }

  /** From `at` on: m allocations of sizes[0], sizes[1], ..., then the same m blocks released. */
  ghost predicate RefillAt(log: seq<Event>, at: nat, next: nat, sizes: seq<nat>, m: nat)
    requires m <= |sizes|
  {
    at + 2 * m <= |log| && PutsAt(log, at, sizes, m) && BlocksReleased(log, at + m, next, m)
  }

  /** From `at` on the trace releases blocks `next`, next + 1, ... */
  ghost predicate BlocksReleased(log: seq<Event>, at: nat, next: nat, k: int) {
    forall i: nat :: i < k ==> NthReleased(log, at, next, i)
  }

  ghost predicate NthReleased(log: seq<Event>, at: nat, next: nat, i: nat) {
    at + i < |log| && log[at + i] == Released(next + i)
  }

  lemma BlocksExtend(log: seq<Event>, longer: seq<Event>, at: nat, next: nat, k: int)
    requires log <= longer && BlocksReleased(log, at, next, k)
    ensures BlocksReleased(longer, at, next, k)
  {
    forall i: nat | i < k ensures NthReleased(longer, at, next, i) {
      assert NthReleased(log, at, next, i);
    }
  }

  lemma PunchTrace(w: World, sizes: seq<nat>, order: seq<nat>, m: nat)
    requires |sizes| == |order| == |w.slots| && Permutation(order) && m <= |order|
    ensures var u, n := Punch(FillAll(w, sizes), order, m), |sizes|;
            && w.log <= u.log && |u.log| == |w.log| + n + m && u.next == w.next + n
            && PutsAt(u.log, |w.log|, sizes, n) && ReleasesAt(u.log, |w.log| + n, w.next, order, m)
            && KeptAt(u.slots, order, m, w.next, sizes)
  {
    hide Distinct, FillAll, PutsAt, TakesAt, ReleasesAt;
    var f, n := FillAll(w, sizes), |sizes|;
    FillTrace(w, sizes);
    TakeTrace(f, order, m);
    var u := Punch(f, order, m);
    NamedReleases(u.log, |f.log|, f.slots, order, m, w.next);
    PutsExtend(f.log, u.log, |w.log|, sizes, n);
    forall s | 0 <= s < n && s !in order[..m] ensures u.slots[s] == Held(Block(w.next + s, sizes[s])) {
      TakeElsewhere(f, order, m, s);
    }
  }

  lemma RefillTrace(u: World, sizes: seq<nat>, order: seq<nat>, m: nat)
    requires |sizes| == |order| == |u.slots| && Permutation(order) && m <= |order| && Holes(u.slots, order, m)
    ensures var v := Punch(Refill(u, sizes, order, m), order, m);
            && u.log <= v.log && |v.log| == |u.log| + 2 * m && v.next == u.next + m
            && RefillAt(v.log, |u.log|, u.next, sizes, m)
  {
    hide Distinct, PutsAt, Filled, TakesAt, BlocksReleased, PutMany, TakeMany, KeptAt;
    var f := Refill(u, sizes, order, m);
    PutTrace(u, order, sizes, m);
    TakeTrace(f, order, m);
    var v := Punch(f, order, m);
    PutsExtend(f.log, v.log, |u.log|, sizes, m);
    SameReleases(v.log, |f.log|, f.slots, order, sizes, m, u.next);
  }

  lemma RefillKeeps(u: World, sizes: seq<nat>, order: seq<nat>, m: nat, first: nat)
    requires |sizes| == |order| == |u.slots| && Permutation(order) && m <= |order| && Holes(u.slots, order, m)
    requires KeptAt(u.slots, order, m, first, sizes)
    ensures KeptAt(Punch(Refill(u, sizes, order, m), order, m).slots, order, m, first, sizes)
  {
    hide Distinct, Holes, PutMany, TakeMany;
    var f := Refill(u, sizes, order, m);
    var v := Punch(f, order, m);
    forall s | 0 <= s < |sizes| && s !in order[..m] ensures v.slots[s] == Held(Block(first + s, sizes[s])) {
      PutElsewhere(u, order, sizes, m, s);
      TakeElsewhere(f, order, m, s);
    }
  }

  lemma SameReleases(log: seq<Event>, at: nat, slots: seq<Cell>, order: seq<nat>, sizes: seq<nat>, m: nat, next: nat)
    requires Visits(|slots|, order) && m <= |order| && m <= |sizes|
    requires TakesAt(log, at, slots, order, m) && Filled(slots, order, sizes, next, m)
    ensures BlocksReleased(log, at, next, m)
  {
    hide Distinct;
    forall i: nat | i < m ensures NthReleased(log, at, next, i) {
      assert slots[order[i]] == Held(Block(next + i, sizes[i]));
    }
  }

  ghost predicate NthRefill(log: seq<Event>, at: nat, next: nat, sizes: seq<nat>, m: nat, q: nat)
    requires m <= |sizes|
  {
    RefillAt(log, at + q * (2 * m), next + q * m, sizes, m)
  }

  /** From `at` on: the filling, the first m of the order released, and r refill passes. */
  ghost predicate FragmentedAt(log: seq<Event>, at: nat, next: nat, sizes: seq<nat>, order: seq<nat>, m: nat, r: nat)
    requires m <= |order| == |sizes|
  {
    var n := |sizes|;
    && PutsAt(log, at, sizes, n) && ReleasesAt(log, at + n, next, order, m)
    && RefillsAt(log, at + n + m, next + n, sizes, m, r)
  }

  ghost predicate RefillsAt(log: seq<Event>, at: nat, next: nat, sizes: seq<nat>, m: nat, r: nat)
    requires m <= |sizes|
  {
    forall q: nat :: q < r ==> NthRefill(log, at, next, sizes, m, q)
  }

  lemma RefillExtends(log: seq<Event>, longer: seq<Event>, at: nat, next: nat, sizes: seq<nat>, m: nat)
    requires m <= |sizes| && log <= longer && RefillAt(log, at, next, sizes, m)
    ensures RefillAt(longer, at, next, sizes, m)
  {
    hide PutsAt, BlocksReleased;
    PutsExtend(log, longer, at, sizes, m);
    BlocksExtend(log, longer, at + m, next, m);
  }

  lemma ReleasesExtend(log: seq<Event>, longer: seq<Event>, at: nat, next: nat, order: seq<nat>, k: nat)
    requires k <= |order| && log <= longer && ReleasesAt(log, at, next, order, k)
    ensures ReleasesAt(longer, at, next, order, k)
  {
  }

  lemma FragmentedExtends(log: seq<Event>, longer: seq<Event>, at: nat, next: nat, sizes: seq<nat>, order: seq<nat>,
                          m: nat, r: nat)
    requires m <= |order| == |sizes| && log <= longer && FragmentedAt(log, at, next, sizes, order, m, r)
    ensures FragmentedAt(longer, at, next, sizes, order, m, r)
  {
    hide PutsAt, ReleasesAt, RefillAt;
    PutsExtend(log, longer, at, sizes, |sizes|);
    ReleasesExtend(log, longer, at + |sizes|, next, order, m);
    var from, first := at + |sizes| + m, next + |sizes|;
    forall q: nat | q < r ensures NthRefill(longer, from, first, sizes, m, q) {
      assert NthRefill(log, from, first, sizes, m, q);
      RefillExtends(log, longer, from + q * (2 * m), first + q * m, sizes, m);
    }
  }

  lemma FragmentedStep(log: seq<Event>, longer: seq<Event>, at: nat, next: nat, sizes: seq<nat>, order: seq<nat>,
                       m: nat, r: nat)
    requires m <= |order| == |sizes| && log <= longer && FragmentedAt(log, at, next, sizes, order, m, r)
    requires NthRefill(longer, at + |sizes| + m, next + |sizes|, sizes, m, r)
    ensures FragmentedAt(longer, at, next, sizes, order, m, r + 1)
  {
    hide PutsAt, ReleasesAt, NthRefill;
    FragmentedExtends(log, longer, at, next, sizes, order, m, r);
  }

  /** The whole trace up to the final cleanup. */
  lemma {:induction false} FragmentedTrace(w: World, sizes: seq<nat>, order: seq<nat>, m: nat, r: nat)
    requires |sizes| == |order| == |w.slots| && Permutation(order) && m <= |order|
    ensures var v, n := Fragmented(w, sizes, order, m, r), |sizes|;
            && w.log <= v.log && |v.log| == |w.log| + n + m + r * (2 * m) && v.next == w.next + n + r * m
            && FragmentedAt(v.log, |w.log|, w.next, sizes, order, m, r)
            && KeptAt(v.slots, order, m, w.next, sizes)
    decreases r
  {
    hide Distinct, PutsAt, ReleasesAt, RefillAt, KeptAt, Holes, Punch, Refill, FillAll;
    if r == 0 {
      PunchTrace(w, sizes, order, m);
    } else {
      FragmentedTrace(w, sizes, order, m, r - 1);
      var u, v := Fragmented(w, sizes, order, m, r - 1), Fragmented(w, sizes, order, m, r);
      RefillTrace(u, sizes, order, m);
      RefillKeeps(u, sizes, order, m, w.next);
      Distribute(r - 1, 2 * m);
      Distribute(r - 1, m);
      FragmentedStep(u.log, v.log, |w.log|, w.next, sizes, order, m, r - 1);
    }
  }

  /** Slots below s that are not punched. */
  function KeptBelow(order: seq<nat>, m: nat, s: nat): nat
    requires m <= |order|
  {
    if s == 0 then 0 else KeptBelow(order, m, s - 1) + (if s - 1 in order[..m] then 0 else 1)
  }

  /** From `at` on the trace releases the blocks that were never punched, in slot order. */
  ghost predicate FinalAt(log: seq<Event>, at: nat, next: nat, order: seq<nat>, m: nat)
    requires m <= |order|
  {
    && |log| == at + KeptBelow(order, m, |order|)
    && forall s :: 0 <= s < |order| && s !in order[..m] ==>
         Churn.ReleasedAt(log, at + KeptBelow(order, m, s), next + s)
  }

  lemma {:induction false} HeldAreKept(slots: seq<Cell>, order: seq<nat>, m: nat, s: nat)
    requires m <= |order| == |slots| && Holes(slots, order, m) && s <= |slots|
    ensures Churn.HeldBelow(slots, s) == KeptBelow(order, m, s)
  {
    if s > 0 {
      HeldAreKept(slots, order, m, s - 1);
    }
  }

  lemma FinalTrace(u: World, sizes: seq<nat>, order: seq<nat>, m: nat, next: nat)
    requires |sizes| == |order| == |u.slots| && m <= |order| && Holes(u.slots, order, m)
    requires KeptAt(u.slots, order, m, next, sizes)
    ensures u.log <= Churn.Sweep(u, |u.slots|).log && FinalAt(Churn.Sweep(u, |u.slots|).log, |u.log|, next, order, m)
  {
    hide KeptBelow, Churn.HeldBelow, Churn.ReleasedAt, Churn.Sweep;
    Churn.SweepTrace(u, |order|);
    HeldAreKept(u.slots, order, m, |order|);
    var log := Churn.Sweep(u, |order|).log;
    forall s | 0 <= s < |order| && s !in order[..m]
      ensures Churn.ReleasedAt(log, |u.log| + KeptBelow(order, m, s), next + s)
    {
      HeldAreKept(u.slots, order, m, s);
      assert Churn.ReleasedAt(log, |u.log| + Churn.HeldBelow(u.slots, s), u.slots[s].block.serial);
    }
  }

  /** Everything `measure_fragmented` asks of the allocator. */
  ghost predicate FragmentingAt(log: seq<Event>, at: nat, next: nat, sizes: seq<nat>, order: seq<nat>, m: nat, r: nat)
    requires m <= |order| == |sizes|
  {
    && FragmentedAt(log, at, next, sizes, order, m, r)
    && FinalAt(log, at + |sizes| + m + r * (2 * m), next, order, m)
  }

  lemma FragmentingTrace(w: World, sizes: seq<nat>, order: seq<nat>, m: nat, r: nat)
    requires |sizes| == |order| == |w.slots| && Permutation(order) && m <= |order|
    ensures var v := Churn.Sweep(Fragmented(w, sizes, order, m, r), |w.slots|);
            FragmentingAt(v.log, |w.log|, w.next, sizes, order, m, r)
  {
    hide Distinct, FragmentedAt, FinalAt, KeptAt, Holes, Fragmented, Churn.Sweep;
    var u := Fragmented(w, sizes, order, m, r);
    FragmentedTrace(w, sizes, order, m, r);
    FinalTrace(u, sizes, order, m, w.next);
    FragmentedExtends(u.log, Churn.Sweep(u, |w.slots|).log, |w.log|, w.next, sizes, order, m, r);
  }

  lemma HeldAreNonNull(heap: Heap, ptrs: array<nat>, w: World, base: Base)
    requires Matches(heap, ptrs, w, base) && AllHeld(w.slots)
    ensures Nulls(ptrs[..], w.slots)
  {
  }

  /** One pass: between passes the null pointers are exactly the holes. */
  method RefillPass(heap: Heap, ptrs: array<nat>, sizes: seq<nat>, order: seq<nat>, m: nat, ghost w: World, ghost base: Base)
    requires Matches(heap, ptrs, w, base) && Nulls(ptrs[..], w.slots)
    requires |sizes| == |order| == |w.slots| && Permutation(order) && m <= |order| && Holes(w.slots, order, m)
    modifies heap, ptrs
    ensures Matches(heap, ptrs, Punch(Refill(w, sizes, order, m), order, m), base)
    ensures Nulls(ptrs[..], Punch(Refill(w, sizes, order, m), order, m).slots)
    ensures forall s :: 0 <= s < |order| ==> (ptrs[s] == 0 <==> s in order[..m])
    ensures RefillAt(heap.log, |w.log|, w.next, sizes, m)
  {
    hide Owns, Distinct, PutsAt, TakesAt, RefillAt;
    HoleSlots(w.slots, order, m);
    PutAll(heap, ptrs, order, sizes, m, w, base);
    PunchAll(heap, ptrs, order, m, Refill(w, sizes, order, m), base);
    RefillTrace(w, sizes, order, m);
  }

  /** Fill, punch and any number of refill passes. */
  method Fragment(heap: Heap, ptrs: array<nat>, sizes: seq<nat>, order: seq<nat>, m: nat, passes: nat,
                  ghost w: World, ghost base: Base)
    requires Matches(heap, ptrs, w, base) && AllEmpty(w.slots)
    requires |sizes| == |order| == |w.slots| <= ptrs.Length && Permutation(order) && m <= |order|
    modifies heap, ptrs
    ensures Matches(heap, ptrs, Fragmented(w, sizes, order, m, passes), base)
    ensures Nulls(ptrs[..], Fragmented(w, sizes, order, m, passes).slots)
    ensures FragmentedAt(heap.log, |w.log|, w.next, sizes, order, m, passes)
  {
    hide Matches, Nulls, Distinct, Holes, PutsAt, TakesAt, RefillAt, FragmentedAt, KeptAt;
    var n := |sizes|;
    IdentityVisits(n);
    PutAll(heap, ptrs, Shuffle.Identity(n), sizes, n, w, base);
    HeldAreNonNull(heap, ptrs, FillAll(w, sizes), base);
    PunchAll(heap, ptrs, order, m, FillAll(w, sizes), base);
    for r := 0 to passes
      invariant Matches(heap, ptrs, Fragmented(w, sizes, order, m, r), base)
      invariant Nulls(ptrs[..], Fragmented(w, sizes, order, m, r).slots)
    {
      RefillPass(heap, ptrs, sizes, order, m, Fragmented(w, sizes, order, m, r), base);
    }
    FragmentedTrace(w, sizes, order, m, passes);
    MatchesLog(heap, ptrs, Fragmented(w, sizes, order, m, passes), base);
  }

  /** `measure_fragmented` with any number of refill passes. */
  method MeasureFragmented(heap: Heap, ptrs: array<nat>, perm: array<nat>, sizes: seq<nat>, draws: seq<nat>, passes: nat)
    requires heap.Valid() && 0 < |sizes| <= ptrs.Length && |sizes| <= perm.Length && perm != ptrs
    requires Shuffle.Draws(|sizes|, draws)
    modifies heap, ptrs, perm
    ensures heap.Valid() && heap.live == old(heap.live) && heap.bytes == old(heap.bytes)
    ensures var n, w := |sizes|, World(seq(|sizes|, _ => Empty), old(heap.allocs), old(heap.log));
            var m, order := if n / 2 == 0 then 1 else n / 2, Shuffle.Shuffled(Shuffle.Identity(n), n, draws);
            && Permutation(order) && heap.log == Churn.Sweep(Fragmented(w, sizes, order, m, passes), n).log
            && FragmentingAt(heap.log, |w.log|, w.next, sizes, order, m, passes)
    ensures old(Quiet(heap.allocs, heap.log)) ==> Quiet(heap.allocs, heap.log)
  {
    hide Matches, Nulls, Distinct, Holes, Quiet, Sound, Fragmented, Shuffle.Shuffled, FragmentingAt, Churn.CleanAt;
    var n := |sizes|;
    var m := n / 2;
    if m == 0 { m := 1; }
    ghost var w := World(seq(n, _ => Empty), heap.allocs, heap.log);
    ghost var base := Base(heap.live, heap.bytes);
    HeapStarts(heap, ptrs, n);
    Shuffle.BuildPerm(perm, n, draws);
    var order := perm[..n];
    Fragment(heap, ptrs, sizes, order, m, passes, w, base);
    Churn.Cleanup(heap, ptrs, n, Fragmented(w, sizes, order, m, passes), base);
    HeapEmptied(heap, ptrs, Churn.Sweep(Fragmented(w, sizes, order, m, passes), n), base);
    FragmentingTrace(w, sizes, order, m, passes);
    if old(Quiet(heap.allocs, heap.log)) {
      QuietIsSound(n, w.next, w.log);
      FragmentedBalance(w, sizes, order, m, passes);
    }
  }

  // ----- the latency phase of the serial worker -----

  lemma {:induction false} PrefixHeld(w: World, sizes: seq<nat>, ops: nat, a: nat, f: nat, s: nat)
    requires |w.slots| == ops == |sizes| && f <= a <= ops && s < ops && AllEmpty(w.slots)
    ensures Visits(ops, Shuffle.Identity(ops))
    ensures var v := PutMany(w, Shuffle.Identity(ops), sizes, a);
            && (forall i :: 0 <= i < f ==> v.slots[Shuffle.Identity(ops)[i]].Held?)
            && (TakeMany(v, Shuffle.Identity(ops), f).slots[s].Held? <==> f <= s < a)
  {
    var id := Shuffle.Identity(ops);
    var v := PutMany(w, id, sizes, a);
    assert id[s] == s;
    if s >= f {
      assert s !in id[..f];
      TakeElsewhere(v, id, f, s);
    }
  }

  lemma NoneHeld(n: nat)
    ensures AllEmpty(seq(n, _ => Empty))
  {
  }

  lemma MadeHeld(w: World, sizes: seq<nat>, a: nat)
    requires |w.slots| == |sizes| && a <= |sizes| && Visits(|sizes|, Shuffle.Identity(|sizes|))
    ensures forall i :: 0 <= i < a ==> PutMany(w, Shuffle.Identity(|sizes|), sizes, a).slots[i].Held?
  {
    var id := Shuffle.Identity(|sizes|);
    forall i | 0 <= i < a ensures PutMany(w, id, sizes, a).slots[i].Held? {
      assert id[i] == i;
    }
  }

  /** After a allocations and f releases exactly slots f to a are held. */
  lemma LeftHeld(w: World, sizes: seq<nat>, a: nat, f: nat, left: World)
    requires |w.slots| == |sizes| && f <= a <= |sizes| && AllEmpty(w.slots) && Visits(|sizes|, Shuffle.Identity(|sizes|))
    requires forall i :: 0 <= i < a ==> PutMany(w, Shuffle.Identity(|sizes|), sizes, a).slots[i].Held?
    requires left == TakeMany(PutMany(w, Shuffle.Identity(|sizes|), sizes, a), Shuffle.Identity(|sizes|), f)
    ensures |left.slots| == |sizes|
    ensures forall s :: 0 <= s < |sizes| ==> (left.slots[s].Held? <==> f <= s < a)
  {
    hide Visits, PutMany, TakeMany;
    forall s | 0 <= s < |sizes| ensures left.slots[s].Held? <==> f <= s < a {
      PrefixHeld(w, sizes, |sizes|, a, f, s);
    }
  }

  /** From `at` on: sizes[0] to sizes[a] allocated, then the first f of these blocks released. */
  ghost predicate SerialAt(log: seq<Event>, at: nat, next: nat, sizes: seq<nat>, a: nat, f: int)
    requires a <= |sizes|
  {
    |log| == at + a + f && PutsAt(log, at, sizes, a) && BlocksReleased(log, at + a, next, f)
  }

  lemma SerialTrace(w: World, sizes: seq<nat>, a: nat, f: nat, left: World)
    requires |w.slots| == |sizes| && f <= a <= |sizes| && Visits(|sizes|, Shuffle.Identity(|sizes|))
    requires forall i :: 0 <= i < a ==> PutMany(w, Shuffle.Identity(|sizes|), sizes, a).slots[i].Held?
    requires left == TakeMany(PutMany(w, Shuffle.Identity(|sizes|), sizes, a), Shuffle.Identity(|sizes|), f)
    ensures SerialAt(left.log, |w.log|, w.next, sizes, a, f)
  {
    hide Distinct, PutMany, TakeMany, PutsAt, Filled, TakesAt, BlocksReleased;
    var id := Shuffle.Identity(|sizes|);
    var v := PutMany(w, id, sizes, a);
    PutTrace(w, id, sizes, a);
    TakeTrace(v, id, f);
    PutsExtend(v.log, left.log, |w.log|, sizes, a);
    FilledLess(v.slots, id, sizes, w.next, a, f);
    SameReleases(left.log, |v.log|, v.slots, id, sizes, f, w.next);
  }

  lemma FilledLess(slots: seq<Cell>, order: seq<nat>, sizes: seq<nat>, next: nat, k: nat, j: nat)
    requires Visits(|slots|, order) && j <= k <= |order| && k <= |sizes| && Filled(slots, order, sizes, next, k)
    ensures Filled(slots, order, sizes, next, j)
  {
  }

  /** The allocating loop: stops at ops blocks or at a full latency buffer. */
  method SerialAllocs(heap: Heap, ptrs: array<nat>, lat: array<nat>, cap: nat, clock: nat -> nat, sizes: seq<nat>,
                      ghost w: World, ghost base: Base) returns (nlat: nat)
    requires Matches(heap, ptrs, w, base) && |w.slots| == |sizes| && AllEmpty(w.slots)
    requires Visits(|sizes|, Shuffle.Identity(|sizes|)) && cap <= lat.Length && ptrs != lat
    modifies heap, ptrs, lat
    ensures nlat == Min(|sizes|, cap) && forall x :: 0 <= x < nlat ==> lat[x] == clock(x)
    ensures Matches(heap, ptrs, PutMany(w, Shuffle.Identity(|sizes|), sizes, nlat), base)
  {
    hide Matches, Nulls, Distinct, Put;
    ghost var id := Shuffle.Identity(|sizes|);
    nlat := 0;
    var i := 0;
    while i < |sizes| && nlat < cap
      invariant nlat == i <= |sizes| && i <= cap
      invariant Matches(heap, ptrs, PutMany(w, id, sizes, i), base)
      invariant forall x :: 0 <= x < nlat ==> lat[x] == clock(x)
    {
      assert PutMany(w, id, sizes, i).slots[id[i]].Empty?;
      PutSlot(heap, ptrs, i, sizes[i], PutMany(w, id, sizes, i), base);
      lat[nlat] := clock(nlat);
      nlat := nlat + 1;
      i := i + 1;
    }
  }

  lemma FreeNext(v: World, ops: nat, i: nat, made: nat)
    requires |v.slots| == ops && i < made <= ops && Visits(ops, Shuffle.Identity(ops))
    requires forall k :: 0 <= k < made ==> v.slots[k].Held?
    ensures var id, u := Shuffle.Identity(ops), TakeMany(v, Shuffle.Identity(ops), i);
            u.slots[i].Held? && TakeMany(v, id, i + 1) == Take(u, i)
  {
    var id := Shuffle.Identity(ops);
    assert id[i] == i;
    assert TakeMany(v, id, i).slots[id[i]].Held?;
  }

  /** The freeing loop: starts where the buffer was left. */
  method SerialFrees(heap: Heap, ptrs: array<nat>, lat: array<nat>, cap: nat, clock: nat -> nat, ops: nat, made: nat,
                     ghost v: World, ghost base: Base) returns (nlat: nat)
    requires Matches(heap, ptrs, v, base) && |v.slots| == ops && made == Min(ops, cap)
    requires forall i :: 0 <= i < made ==> v.slots[i].Held?
    requires Visits(ops, Shuffle.Identity(ops)) && cap <= lat.Length && ptrs != lat
    requires forall x :: 0 <= x < made ==> lat[x] == clock(x)
    modifies heap, lat
    ensures nlat == Min(2 * ops, cap) && made <= nlat <= 2 * made && forall x :: 0 <= x < nlat ==> lat[x] == clock(x)
    ensures Matches(heap, ptrs, TakeMany(v, Shuffle.Identity(ops), nlat - made), base)
  {
    hide Matches, Take, Visits, TakeMany;
    ghost var id := Shuffle.Identity(ops);
    FreeNone(v, id);
    nlat := made;
    var i := 0;
    while i < ops && nlat < cap
      invariant nlat == made + i && i <= made && nlat <= cap
      invariant Matches(heap, ptrs, TakeMany(v, id, i), base)
      invariant forall x :: 0 <= x < nlat ==> lat[x] == clock(x)
    {
      FreeNext(v, ops, i, made);
      TakeSlot(heap, ptrs, i, TakeMany(v, id, i), base);
      lat[nlat] := clock(nlat);
      nlat := nlat + 1;
      i := i + 1;
    }
  }

  lemma LeftoverIff(slots: seq<Cell>, ops: nat, cap: nat)
    requires |slots| == ops
    requires var made := Min(ops, cap);
             forall s :: 0 <= s < ops ==> (slots[s].Held? <==> Min(2 * ops, cap) - made <= s < made)
    ensures AllEmpty(slots) <==> 2 * ops <= cap || cap == 0
  {
    var made := Min(ops, cap);
    var first := Min(2 * ops, cap) - made;
    if first < made {
      assert slots[first].Held?;
    }
  }

  /** `worker_serial` after its second barrier.  With cap latency entries it allocates
      min(ops, cap) blocks and frees the first of them while entries remain; it never frees
      anything else, and it leaves nothing live exactly when 2 * ops <= cap or cap is 0. */
  method SerialLatency(heap: Heap, ptrs: array<nat>, lat: array<nat>, cap: nat, clock: nat -> nat, sizes: seq<nat>)
      returns (nlat: nat, ghost left: World)
    requires heap.Valid() && |sizes| <= ptrs.Length && cap <= lat.Length && ptrs != lat
    modifies heap, ptrs, lat
    ensures nlat == Min(2 * |sizes|, cap) && forall x :: 0 <= x < nlat ==> lat[x] == clock(x)
    ensures Matches(heap, ptrs, left, Base(old(heap.live), old(heap.bytes))) && |left.slots| == |sizes|
    ensures var made := Min(|sizes|, cap);
            forall s :: 0 <= s < |sizes| ==> (left.slots[s].Held? <==> nlat - made <= s < made)
    ensures heap.live == old(heap.live) <==> 2 * |sizes| <= cap || cap == 0
    ensures SerialAt(heap.log, |old(heap.log)|, old(heap.allocs), sizes, Min(|sizes|, cap), nlat - Min(|sizes|, cap))
  {
    hide Matches, Visits, PutMany, TakeMany, AllEmpty, SerialAt;
    var ops := |sizes|;
    ghost var id := Shuffle.Identity(ops);
    IdentityVisits(ops);
    ghost var w := World(seq(ops, _ => Empty), heap.allocs, heap.log);
    ghost var base := Base(heap.live, heap.bytes);
    HeapStarts(heap, ptrs, ops);
    NoneHeld(ops);
    var made := SerialAllocs(heap, ptrs, lat, cap, clock, sizes, w, base);
    ghost var v := PutMany(w, id, sizes, made);
    MadeHeld(w, sizes, made);
    nlat := SerialFrees(heap, ptrs, lat, cap, clock, ops, made, v, base);
    left := TakeMany(v, id, nlat - made);
    LeftHeld(w, sizes, made, nlat - made, left);
    SerialTrace(w, sizes, made, nlat - made, left);
    MatchesLog(heap, ptrs, left, base);
    LeftLive(heap, ptrs, left, base);
    LeftoverIff(left.slots, ops, cap);
  }

  /** The heap is back to its base exactly when no slot is held. */
  lemma LeftLive(heap: Heap, ptrs: array<nat>, w: World, base: Base)
    requires Matches(heap, ptrs, w, base)
    ensures heap.live == base.live <==> AllEmpty(w.slots)
  {
    if AllEmpty(w.slots) {
      OwnsNothing(heap.live, ptrs[..], w.slots, base.live);
    }
  }

  const LAT_CAP: nat := 65536
  const LIVE_BUDGET: nat := 0x2000_0000
  const MT_OPS: nat := 200_000

  /** Blocks per worker that `run_serial_mt` asks for. */
  function PerWorkerOps(threads: nat, hi: nat): nat
    requires threads * hi > 0
  {
    var pw := LIVE_BUDGET / (threads * hi);
    var pw := if pw > MT_OPS then MT_OPS else pw;
    if pw < 1 then 1 else pw
  }

  /** The most blocks of hi bytes for each of the threads within the budget, at least one and at
      most MT_OPS. */
  lemma PerWorkerFits(threads: nat, hi: nat)
    requires threads * hi > 0
    ensures var pw := PerWorkerOps(threads, hi);
            && 1 <= pw <= MT_OPS && (pw == 1 || pw * (threads * hi) <= LIVE_BUDGET)
            && (pw == MT_OPS || LIVE_BUDGET < (pw + 1) * (threads * hi))
  {
    var d, pw := threads * hi, PerWorkerOps(threads, hi);
    var q := LIVE_BUDGET / d;
    assert LIVE_BUDGET == d * q + LIVE_BUDGET % d;
    assert LIVE_BUDGET < (q + 1) * d;
    if pw <= q { Multiples(pw, q, d); } else { Multiples(q + 1, pw, d); }
    Multiples(q + 1, if q < pw then pw + 1 else q + 1, d);
  }

  /** In the bench's own configurations the latency phase leaves nothing live exactly when
      threads * hi is at least 16384. */
  lemma SerialConfigs(threads: nat, hi: nat)
    requires threads * hi > 0
    ensures 2 * PerWorkerOps(threads, hi) <= LAT_CAP <==> threads * hi >= 16384
  {
    var d := threads * hi;
    var q := LIVE_BUDGET / d;
    assert LIVE_BUDGET == d * q + LIVE_BUDGET % d;
    if d >= 16384 {
      Multiples(16384, d, q);
    } else {
      assert LIVE_BUDGET < (q + 1) * d;
      LargeQuotient(d, q);
    }
  }

  lemma LargeQuotient(d: nat, q: nat)
    requires d < 16384 && LIVE_BUDGET < (q + 1) * d
    ensures q > 32768
  {
    if q <= 32768 {
      Multiples(q + 1, 32769, d);
    }
  }
}
