/** Allocator workloads over a table of block pointers: interleaved churn, hold-and-free
    in order or shuffled, hole punching, and the latency phase of the serial worker.

    The allocator under test is any one that returns a non-null pointer to no live block;
    random draws are arbitrary in-range sequences; clocks only fill latency buffers. */
module Workload {
  import opened Options

  const MAX_COUNT: nat := 1_000_000
  const CHURN_BUDGET: nat := 0x400_0000  // 64 MiB

  /** What an allocator is asked to do.  Blocks are named by the number of the allocation
      that returned them, so traces of different allocators can be compared. */
  datatype Event = Allocated(size: nat) | Released(serial: nat)

  datatype Block = Block(serial: nat, size: nat)

  lemma FreshPointer(s: set<nat>)
    ensures exists p: nat :: p != 0 && p !in s
  {
    var p := 1;
    var rest := s;
    while p in rest
      invariant p != 0 && (forall q :: q in s && q >= p ==> q in rest)
      decreases rest
    {
      rest := rest - {p};
      p := p + 1;
    }
    assert p !in s;
  }

  // ----- traces -----

  function Allocations(log: seq<Event>): nat {
    if log == [] then 0
    else Allocations(log[..|log| - 1]) + (if log[|log| - 1].Allocated? then 1 else 0)
  }

  function Releases(log: seq<Event>): nat {
    if log == [] then 0
    else Releases(log[..|log| - 1]) + (if log[|log| - 1].Released? then 1 else 0)
  }

  /** Sizes asked for, in order: entry x is the size of block x. */
  function AllocSizes(log: seq<Event>): (t: seq<nat>)
    ensures |t| == Allocations(log)
  {
    if log == [] then []
    else AllocSizes(log[..|log| - 1]) + (match log[|log| - 1] case Allocated(n) => [n] case Released(_) => [])
  }

  /** What one more request does to the live bytes. */
  function Change(log: seq<Event>, e: Event): int {
    match e
    case Allocated(n) => n as int
    case Released(x) => if x < |AllocSizes(log)| then -(AllocSizes(log)[x] as int) else 0
  }

  /** Live bytes after a trace, by replaying it. */
  function BytesAfter(log: seq<Event>): int {
    if log == [] then 0
    else BytesAfter(log[..|log| - 1]) + Change(log[..|log| - 1], log[|log| - 1])
  }

  lemma LogStep(log: seq<Event>, e: Event)
    ensures BytesAfter(log + [e]) == BytesAfter(log) + Change(log, e)
    ensures AllocSizes(log + [e]) == AllocSizes(log) + (match e case Allocated(n) => [n] case Released(_) => [])
  {
    assert (log + [e])[..|log|] == log;
  }

  /** At every point of the trace from position `from` on, at most `limit` bytes are live. */
  ghost predicate Within(log: seq<Event>, from: nat, limit: int) {
    forall j :: from <= j <= |log| ==> BytesAfter(log[..j]) <= limit
  }

  lemma WithinStep(log: seq<Event>, e: Event, from: nat, limit: int)
    requires Within(log, from, limit) && BytesAfter(log + [e]) <= limit
    ensures Within(log + [e], from, limit)
  {
    forall j | from <= j <= |log| + 1 ensures BytesAfter((log + [e])[..j]) <= limit {
      if j <= |log| {
        assert (log + [e])[..j] == log[..j];
      } else {
        assert (log + [e])[..j] == log + [e];
      }
    }
  }

  lemma WithinStart(log: seq<Event>, limit: int)
    requires BytesAfter(log) <= limit
    ensures Within(log, |log|, limit)
  {
    assert log[..|log|] == log;
  }

  lemma WithinPrefix(log: seq<Event>, longer: seq<Event>, from: nat, limit: int)
    requires log <= longer && from <= |log| && Within(longer, from, limit)
    ensures BytesAfter(log) <= limit
  {
    assert longer[..|log|] == log;
  }

  /** Two stretches of a trace that stay within the limit do so together. */
  lemma WithinJoin(log: seq<Event>, longer: seq<Event>, from: nat, limit: int)
    requires log <= longer && Within(log, from, limit) && Within(longer, |log|, limit)
    ensures Within(longer, from, limit)
  {
    forall j | from <= j < |log| ensures BytesAfter(longer[..j]) <= limit {
      assert longer[..j] == log[..j];
    }
  }

  lemma WithinMore(log: seq<Event>, from: nat, limit: int, more: int)
    requires Within(log, from, limit) && limit <= more
    ensures Within(log, from, more)
  {
  }

  /** The trace says which size the block has. */
  predicate Recorded(log: seq<Event>, b: Block) {
    b.serial < |AllocSizes(log)| && AllocSizes(log)[b.serial] == b.size
  }

  // ----- the allocator -----

  /** Counters and blocks agree with the trace. */
  ghost predicate Ledger(live: map<nat, Block>, allocs: nat, bytes: int, log: seq<Event>) {
    && allocs == Allocations(log) && bytes == BytesAfter(log)
    && forall p :: p in live ==> Recorded(log, live[p])
  }

  class Heap {
    var live: map<nat, Block>
    var allocs: nat
    var bytes: int
    var log: seq<Event>

    ghost predicate Valid()
      reads this
    {
      Ledger(live, allocs, bytes, log)
    }

    constructor ()
      ensures Valid() && live == map[] && log == []
    {
      live, allocs, bytes, log := map[], 0, 0, [];
    }

    method Alloc(size: nat) returns (p: nat)
      requires Valid()
      modifies this
      ensures Valid()
      ensures p != 0 && p !in old(live)
      ensures live == old(live)[p := Block(old(allocs), size)]
      ensures allocs == old(allocs) + 1
      ensures bytes == old(bytes) + size
      ensures log == old(log) + [Allocated(size)]
    {
      FreshPointer(live.Keys);
      p :| p != 0 && p !in live.Keys;
      LogStep(log, Allocated(size));
      live := live[p := Block(allocs, size)];
      allocs, bytes, log := allocs + 1, bytes + size, log + [Allocated(size)];
    }

    /** Freeing demands a live block: a double free is a verification error. */
    method Free(p: nat)
      requires Valid() && p in live
      modifies this
      ensures Valid()
      ensures live == old(live) - {p}
      ensures allocs == old(allocs)
      ensures bytes == old(bytes) - old(live[p].size)
      ensures log == old(log) + [Released(old(live[p].serial))]
    {
      LogStep(log, Released(live[p].serial));
      assert Recorded(log, live[p]);
      log := log + [Released(live[p].serial)];
      bytes := bytes - live[p].size;
      live := live - {p};
    }
  }

  // ----- the table as values -----

  datatype Cell = Empty | Held(block: Block)

  /** A slot table together with the allocator's trace. */
  datatype World = World(slots: seq<Cell>, next: nat, log: seq<Event>)

  function Put(w: World, s: nat, size: nat): World
    requires s < |w.slots|
  {
    World(w.slots[s := Held(Block(w.next, size))], w.next + 1, w.log + [Allocated(size)])
  }

  function Take(w: World, s: nat): World
    requires s < |w.slots| && w.slots[s].Held?
  {
    World(w.slots[s := Empty], w.next, w.log + [Released(w.slots[s].block.serial)])
  }

  function SlotBytes(slots: seq<Cell>): nat {
    if slots == [] then 0
    else SlotBytes(slots[..|slots| - 1]) +
         (match slots[|slots| - 1] case Empty => 0 case Held(b) => b.size)
  }

  lemma {:induction false} SlotBytesUpdate(slots: seq<Cell>, s: nat, c: Cell)
    requires s < |slots|
    ensures SlotBytes(slots[s := c]) == SlotBytes(slots)
            - (match slots[s] case Empty => 0 case Held(b) => b.size)
            + (match c case Empty => 0 case Held(b) => b.size)
    decreases |slots|
  {
    var n := |slots| - 1;
    if s == n {
      assert slots[s := c][..n] == slots[..n];
    } else {
      assert slots[s := c][..n] == slots[..n][s := c];
      SlotBytesUpdate(slots[..n], s, c);
    }
  }

  /** The trace tells the size of every held block. */
  ghost predicate Accounts(w: World) {
    w.next == Allocations(w.log) &&
    forall s :: 0 <= s < |w.slots| && w.slots[s].Held? ==> Recorded(w.log, w.slots[s].block)
  }

  /** Live bytes that are not in the table. */
  function Outside(w: World): int {
    BytesAfter(w.log) - SlotBytes(w.slots)
  }

  lemma PutAccounts(w: World, s: nat, size: nat)
    requires s < |w.slots| && w.slots[s].Empty? && Accounts(w)
    ensures Accounts(Put(w, s, size)) && Outside(Put(w, s, size)) == Outside(w)
  {
    LogStep(w.log, Allocated(size));
    SlotBytesUpdate(w.slots, s, Held(Block(w.next, size)));
  }

  lemma TakeAccounts(w: World, s: nat)
    requires s < |w.slots| && w.slots[s].Held? && Accounts(w)
    ensures Accounts(Take(w, s)) && Outside(Take(w, s)) == Outside(w)
  {
    LogStep(w.log, Released(w.slots[s].block.serial));
    SlotBytesUpdate(w.slots, s, Empty);
  }

  // ----- the table in memory -----

  /** What was live before the workload began and must survive it. */
  datatype Base = Base(live: map<nat, Block>, bytes: int)

  /** Live blocks are exactly the base and the held slots, each held by one slot. */
  ghost predicate Owns(live: map<nat, Block>, ptrs: seq<nat>, slots: seq<Cell>, base: map<nat, Block>)
    requires |slots| <= |ptrs|
  {
    && (forall s :: 0 <= s < |slots| && slots[s].Held? ==>
          ptrs[s] != 0 && ptrs[s] in live && live[ptrs[s]] == slots[s].block && ptrs[s] !in base)
    && (forall s, t :: 0 <= s < t < |slots| && slots[s].Held? && slots[t].Held? ==> ptrs[s] != ptrs[t])
    && (forall p :: p in base ==> p in live && live[p] == base[p])
    && (forall p :: p in live && p !in base ==> exists s :: 0 <= s < |slots| && slots[s].Held? && ptrs[s] == p)
  }

  lemma OwnsPut(live: map<nat, Block>, ptrs: seq<nat>, slots: seq<Cell>, base: map<nat, Block>, s: nat, p: nat, b: Block)
    requires s < |slots| <= |ptrs| && Owns(live, ptrs, slots, base)
    requires slots[s].Empty? && p != 0 && p !in live
    ensures Owns(live[p := b], ptrs[s := p], slots[s := Held(b)], base)
  {
    var live', ptrs', slots' := live[p := b], ptrs[s := p], slots[s := Held(b)];
    forall q | q in live' && q !in base
      ensures exists t :: 0 <= t < |slots'| && slots'[t].Held? && ptrs'[t] == q
    {
      if q == p {
        assert slots'[s].Held? && ptrs'[s] == q;
      } else {
        var t :| 0 <= t < |slots| && slots[t].Held? && ptrs[t] == q;
        assert slots'[t].Held? && ptrs'[t] == q;
      }
    }
  }

  lemma OwnsTake(live: map<nat, Block>, ptrs: seq<nat>, slots: seq<Cell>, base: map<nat, Block>, s: nat)
    requires s < |slots| <= |ptrs| && Owns(live, ptrs, slots, base) && slots[s].Held?
    ensures ptrs[s] in live && live[ptrs[s]] == slots[s].block
    ensures Owns(live - {ptrs[s]}, ptrs, slots[s := Empty], base)
  {
    var live', slots' := live - {ptrs[s]}, slots[s := Empty];
    forall q | q in live' && q !in base
      ensures exists t :: 0 <= t < |slots'| && slots'[t].Held? && ptrs[t] == q
    {
      var t :| 0 <= t < |slots| && slots[t].Held? && ptrs[t] == q;
      assert slots'[t].Held? && ptrs[t] == q;
    }
  }

  lemma OwnsNothing(live: map<nat, Block>, ptrs: seq<nat>, slots: seq<Cell>, base: map<nat, Block>)
    requires |slots| <= |ptrs| && Owns(live, ptrs, slots, base)
    requires AllEmpty(slots)
    ensures live == base && SlotBytes(slots) == 0
  {
    NoBytes(slots);
  }

  ghost predicate AllEmpty(slots: seq<Cell>) {
    forall s :: 0 <= s < |slots| ==> slots[s].Empty?
  }

  lemma {:induction false} NoBytes(slots: seq<Cell>)
    requires AllEmpty(slots)
    ensures SlotBytes(slots) == 0
  {
    if slots != [] {
      NoBytes(slots[..|slots| - 1]);
    }
  }

  lemma OwnsBase(live: map<nat, Block>, ptrs: seq<nat>, slots: seq<Cell>)
    requires |slots| <= |ptrs| && forall s :: 0 <= s < |slots| ==> slots[s].Empty?
    ensures Owns(live, ptrs, slots, live)
  {
  }

  /** The heap and the pointer array are in the state that w describes. */
  ghost predicate Matches(heap: Heap, ptrs: array<nat>, w: World, base: Base)
    reads heap, ptrs
  {
    && |w.slots| <= ptrs.Length
    && heap.Valid()
    && Owns(heap.live, ptrs[..], w.slots, base.live)
    && heap.allocs == w.next
    && heap.log == w.log
    && heap.bytes == base.bytes + SlotBytes(w.slots)
  }

  lemma MatchesAccounts(heap: Heap, ptrs: array<nat>, w: World, base: Base)
    requires Matches(heap, ptrs, w, base)
    ensures Accounts(w) && Outside(w) == base.bytes
  {
    forall s | 0 <= s < |w.slots| && w.slots[s].Held? ensures Recorded(w.log, w.slots[s].block) {
      assert heap.live[ptrs[..][s]] == w.slots[s].block;
    }
  }

  /** Pointers are null exactly in empty slots. */
  ghost predicate Nulls(ptrs: seq<nat>, slots: seq<Cell>)
    requires |slots| <= |ptrs|
  {
    forall s :: 0 <= s < |slots| ==> (ptrs[s] == 0 <==> slots[s].Empty?)
  }

  method PutSlot(heap: Heap, ptrs: array<nat>, s: nat, size: nat, ghost w: World, ghost base: Base)
    requires Matches(heap, ptrs, w, base) && s < |w.slots| && w.slots[s].Empty?
    modifies heap, ptrs
    ensures Matches(heap, ptrs, Put(w, s, size), base)
    ensures ptrs[s] != 0 && ptrs[..] == old(ptrs[..])[s := ptrs[s]]
    ensures old(Nulls(ptrs[..], w.slots)) ==> Nulls(ptrs[..], Put(w, s, size).slots)
  {
    hide Owns;
    ghost var before := ptrs[..];
    var p := heap.Alloc(size);
    OwnsPut(old(heap.live), before, w.slots, base.live, s, p, Block(w.next, size));
    SlotBytesUpdate(w.slots, s, Held(Block(w.next, size)));
    ptrs[s] := p;
    assert ptrs[..] == before[s := p];
  }

  method TakeSlot(heap: Heap, ptrs: array<nat>, s: nat, ghost w: World, ghost base: Base)
    requires Matches(heap, ptrs, w, base) && s < |w.slots| && w.slots[s].Held?
    modifies heap
    ensures Matches(heap, ptrs, Take(w, s), base)
  {
    hide Owns;
    OwnsTake(heap.live, ptrs[..], w.slots, base.live, s);
    SlotBytesUpdate(w.slots, s, Empty);
    heap.Free(ptrs[s]);
  }

  /** Only the pointers of held slots matter. */
  lemma OwnsHeldOnly(live: map<nat, Block>, ptrs: seq<nat>, ptrs': seq<nat>, slots: seq<Cell>, base: map<nat, Block>)
    requires |slots| <= |ptrs| == |ptrs'| && Owns(live, ptrs, slots, base)
    requires forall s :: 0 <= s < |slots| && slots[s].Held? ==> ptrs'[s] == ptrs[s]
    ensures Owns(live, ptrs', slots, base)
  {
    forall q | q in live && q !in base
      ensures exists t :: 0 <= t < |slots| && slots[t].Held? && ptrs'[t] == q
    {
      var t :| 0 <= t < |slots| && slots[t].Held? && ptrs[t] == q;
      assert slots[t].Held? && ptrs'[t] == q;
    }
  }

  method TakeAndNull(heap: Heap, ptrs: array<nat>, s: nat, ghost w: World, ghost base: Base)
    requires Matches(heap, ptrs, w, base) && s < |w.slots| && w.slots[s].Held?
    modifies heap, ptrs
    ensures Matches(heap, ptrs, Take(w, s), base)
    ensures ptrs[..] == old(ptrs[..])[s := 0]
    ensures old(Nulls(ptrs[..], w.slots)) ==> Nulls(ptrs[..], Take(w, s).slots)
  {
    hide Owns;
    TakeSlot(heap, ptrs, s, w, base);
    ghost var before := ptrs[..];
    ptrs[s] := 0;
    assert ptrs[..] == before[s := 0];
    OwnsHeldOnly(heap.live, before, ptrs[..], Take(w, s).slots, base.live);
  }

  // ----- traces without double frees -----

  /** Blocks live after a trace that starts on an empty heap; None if the trace releases a
      block that is not live. */
  function LiveAfter(log: seq<Event>): Option<set<nat>> {
    if log == [] then Some({})
    else
      match LiveAfter(log[..|log| - 1])
      case None => None
      case Some(live) =>
        match log[|log| - 1]
        case Allocated(_) => Some(live + {Allocations(log[..|log| - 1])})
        case Released(x) => if x in live then Some(live - {x}) else None
  }

  lemma {:induction false} SerialsBelow(log: seq<Event>, x: nat)
    requires LiveAfter(log).Some? && x in LiveAfter(log).value
    ensures x < Allocations(log)
  {
    if log != [] {
      var init := log[..|log| - 1];
      if x in LiveAfter(init).value { SerialsBelow(init, x); }
    }
  }

  /** A trace without double frees: allocations minus releases is the number left live. */
  lemma {:induction false} TraceBalance(log: seq<Event>)
    requires LiveAfter(log).Some?
    ensures Allocations(log) == Releases(log) + |LiveAfter(log).value|
  {
    if log != [] {
      var init := log[..|log| - 1];
      TraceBalance(init);
      var live := LiveAfter(init).value;
      match log[|log| - 1]
      case Allocated(_) =>
        if Allocations(init) in live { SerialsBelow(init, Allocations(init)); }
      case Released(x) =>
        assert live == (live - {x}) + {x};
    }
  }

  /** The trace releases only live blocks and leaves exactly the held slots live. */
  ghost predicate Sound(w: World) {
    && w.next == Allocations(w.log)
    && LiveAfter(w.log).Some?
    && (forall s :: 0 <= s < |w.slots| && w.slots[s].Held? ==> w.slots[s].block.serial in LiveAfter(w.log).value)
    && (forall s, t :: 0 <= s < t < |w.slots| && w.slots[s].Held? && w.slots[t].Held? ==>
          w.slots[s].block.serial != w.slots[t].block.serial)
    && (forall x :: x in LiveAfter(w.log).value ==>
          exists s :: 0 <= s < |w.slots| && w.slots[s].Held? && w.slots[s].block.serial == x)
  }

  lemma PutSound(w: World, s: nat, size: nat)
    requires s < |w.slots| && w.slots[s].Empty? && Sound(w)
    ensures Sound(Put(w, s, size))
  {
    var v := Put(w, s, size);
    assert v.log[..|v.log| - 1] == w.log;
    forall x | x in LiveAfter(w.log).value ensures x < w.next {
      SerialsBelow(w.log, x);
    }
    forall x | x in LiveAfter(v.log).value
      ensures exists t :: 0 <= t < |v.slots| && v.slots[t].Held? && v.slots[t].block.serial == x
    {
      if x == w.next {
        assert v.slots[s].Held? && v.slots[s].block.serial == x;
      } else {
        var t :| 0 <= t < |w.slots| && w.slots[t].Held? && w.slots[t].block.serial == x;
        assert v.slots[t].Held? && v.slots[t].block.serial == x;
      }
    }
  }

  lemma TakeSound(w: World, s: nat)
    requires s < |w.slots| && w.slots[s].Held? && Sound(w)
    ensures Sound(Take(w, s))
  {
    var v := Take(w, s);
    assert v.log[..|v.log| - 1] == w.log;
    forall x | x in LiveAfter(v.log).value
      ensures exists t :: 0 <= t < |v.slots| && v.slots[t].Held? && v.slots[t].block.serial == x
    {
      var t :| 0 <= t < |w.slots| && w.slots[t].Held? && w.slots[t].block.serial == x;
      assert v.slots[t].Held? && v.slots[t].block.serial == x;
    }
  }

  /** When every slot is empty the trace has as many releases as allocations. */
  lemma EmptyBalances(w: World)
    requires Sound(w) && AllEmpty(w.slots)
    ensures LiveAfter(w.log) == Some({}) && Allocations(w.log) == Releases(w.log)
  {
    TraceBalance(w.log);
    assert LiveAfter(w.log).value == {};
  }

  /** The allocator has nothing live and its trace releases every block exactly once. */
  ghost predicate Quiet(allocs: nat, log: seq<Event>) {
    allocs == Allocations(log) == Releases(log) && LiveAfter(log) == Some({})
  }

  lemma QuietIsSound(n: nat, allocs: nat, log: seq<Event>)
    requires Quiet(allocs, log)
    ensures Sound(World(seq(n, _ => Empty), allocs, log))
  {
  }

  lemma SoundIsQuiet(w: World)
    requires Sound(w) && AllEmpty(w.slots)
    ensures Quiet(w.next, w.log)
  {
    EmptyBalances(w);
  }
}
