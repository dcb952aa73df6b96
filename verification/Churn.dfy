/** Interleaved churn against a bounded working set. */
module Churn {
  import opened Words
  import opened Workload

  /** Number of slots `measure_interleaved` works on. */
  function WorkingSet(opsn: nat, hi: nat): (w: nat)
    ensures w <= opsn && w <= MAX_COUNT
    ensures opsn > 0 ==> w > 0
  {
    var w := CHURN_BUDGET / (if hi > 0 then hi else 1);
    var w := if w < 64 then 64 else w;
    var w := if w > opsn then opsn else w;
    if w > MAX_COUNT then MAX_COUNT else w
  }

  /** The table is no smaller than it has to be: one more slot would break the budget, the floor
      of 64, the run length or the array.  Full slots of hi bytes are within the announced
      64 MiB exactly when no block is over 1 MiB or the run is short. */
  lemma WorkingSetFits(opsn: nat, hi: nat)
    ensures var w := WorkingSet(opsn, hi);
            w == opsn || w == MAX_COUNT || (w >= 64 && CHURN_BUDGET < (w + 1) * (if hi > 0 then hi else 1))
    ensures WorkingSet(opsn, hi) * hi <= CHURN_BUDGET <==> hi <= 0x10_0000 || opsn * hi <= CHURN_BUDGET
    ensures WorkingSet(opsn, hi) * hi <= CHURN_BUDGET || WorkingSet(opsn, hi) <= 64
  {
    if hi > 0 {
      var w, q := WorkingSet(opsn, hi), CHURN_BUDGET / hi;
      Quotient(CHURN_BUDGET, hi);
      if q < w + 1 {
        Multiples(q + 1, w + 1, hi);
      }
      if w <= q {
        Multiples(w, q, hi);
      }
      if q < 64 {
        Multiples(q + 1, 64, hi);
      } else {
        Multiples(64, q, hi);
      }
    }
  }

  lemma Quotient(a: nat, b: nat)
    requires b > 0
    ensures (a / b) * b <= a < (a / b + 1) * b
  {
  }

  // ----- one operation, one pass, cleanup: as functions of the draws -----

  function ChurnStep(w: World, slot: nat, size: nat): World
    requires slot < |w.slots|
  {
    if w.slots[slot].Held? then Take(w, slot) else Put(w, slot, size)
  }

  predicate Draws(slots: nat, draws: seq<nat>, sizes: seq<nat>) {
    |draws| == |sizes| && forall i :: 0 <= i < |draws| ==> draws[i] < slots
  }

  /** After the first k operations of a pass. */
  function ChurnTo(w: World, draws: seq<nat>, sizes: seq<nat>, k: nat): (v: World)
    requires Draws(|w.slots|, draws, sizes) && k <= |draws|
    ensures |v.slots| == |w.slots| && |v.log| == |w.log| + k && w.log <= v.log
  {
    if k == 0 then w else ChurnStep(ChurnTo(w, draws, sizes, k - 1), draws[k - 1], sizes[k - 1])
  }

  function Sweep(w: World, k: nat): (v: World)
    requires k <= |w.slots|
    ensures |v.slots| == |w.slots|
    ensures forall s :: 0 <= s < k ==> v.slots[s].Empty?
    ensures forall s :: k <= s < |w.slots| ==> v.slots[s] == w.slots[s]
  {
    if k == 0 then w
    else
      var v := Sweep(w, k - 1);
      if v.slots[k - 1].Held? then Take(v, k - 1) else v
  }

  /** Passes, each followed by cleanup. */
  function Rounds(w: World, draws: seq<nat>, sizes: seq<nat>, r: nat): (v: World)
    requires Draws(|w.slots|, draws, sizes)
    ensures |v.slots| == |w.slots|
    ensures r > 0 || AllEmpty(w.slots) ==> AllEmpty(v.slots)
    decreases r
  {
    if r == 0 then w
    else
      Sweep(ChurnTo(Rounds(w, draws, sizes, r - 1), draws, sizes, |draws|), |w.slots|)
  }

  // ----- no double free, whatever the draws -----

  lemma {:induction false} ChurnSound(w: World, draws: seq<nat>, sizes: seq<nat>, k: nat)
    requires Draws(|w.slots|, draws, sizes) && k <= |draws| && Sound(w)
    ensures Sound(ChurnTo(w, draws, sizes, k))
  {
    if k > 0 {
      ChurnSound(w, draws, sizes, k - 1);
      var v := ChurnTo(w, draws, sizes, k - 1);
      if v.slots[draws[k - 1]].Held? {
        TakeSound(v, draws[k - 1]);
      } else {
        PutSound(v, draws[k - 1], sizes[k - 1]);
      }
    }
  }

  lemma {:induction false} SweepSound(w: World, k: nat)
    requires k <= |w.slots| && Sound(w)
    ensures Sound(Sweep(w, k))
  {
    hide Sound;
    if k > 0 {
      SweepSound(w, k - 1);
      var v := Sweep(w, k - 1);
      if v.slots[k - 1].Held? {
        TakeSound(v, k - 1);
      }
    }
  }

  /** A whole measurement frees every block it allocated, once. */
  lemma {:induction false} RoundsBalance(w: World, draws: seq<nat>, sizes: seq<nat>, r: nat)
    requires Draws(|w.slots|, draws, sizes) && Sound(w)
    requires AllEmpty(w.slots)
    ensures var v := Rounds(w, draws, sizes, r);
            Sound(v) && Quiet(v.next, v.log)
    decreases r
  {
    if r > 0 {
      RoundsBalance(w, draws, sizes, r - 1);
      var u := Rounds(w, draws, sizes, r - 1);
      ChurnSound(u, draws, sizes, |draws|);
      SweepSound(ChurnTo(u, draws, sizes, |draws|), |w.slots|);
    }
    SoundIsQuiet(Rounds(w, draws, sizes, r));
  }

  // ----- bounded live bytes -----

  ghost predicate SizesUpTo(slots: seq<Cell>, hi: nat) {
    forall s :: 0 <= s < |slots| && slots[s].Held? ==> slots[s].block.size <= hi
  }

  lemma {:induction false} SlotBytesBound(slots: seq<Cell>, hi: nat)
    requires SizesUpTo(slots, hi)
    ensures SlotBytes(slots) <= |slots| * hi
  {
    if slots != [] {
      SlotBytesBound(slots[..|slots| - 1], hi);
      assert |slots| * hi == (|slots| - 1) * hi + hi;
    }
  }

  ghost predicate Stream(slots: nat, hi: nat, draws: seq<nat>, sizes: seq<nat>) {
    Draws(slots, draws, sizes) && forall i :: 0 <= i < |sizes| ==> sizes[i] <= hi
  }

  /** The table after k operations holds blocks of at most hi bytes, recorded in the trace, and
      what is live besides them has not changed. */
  lemma {:induction false} ChurnAccounts(w: World, draws: seq<nat>, sizes: seq<nat>, k: nat, hi: nat)
    requires Stream(|w.slots|, hi, draws, sizes) && k <= |draws| && Accounts(w) && SizesUpTo(w.slots, hi)
    ensures var v := ChurnTo(w, draws, sizes, k);
            Accounts(v) && Outside(v) == Outside(w) && SizesUpTo(v.slots, hi)
  {
    hide Accounts, Outside;
    if k > 0 {
      ChurnAccounts(w, draws, sizes, k - 1, hi);
      var v := ChurnTo(w, draws, sizes, k - 1);
      if v.slots[draws[k - 1]].Held? {
        TakeAccounts(v, draws[k - 1]);
      } else {
        PutAccounts(v, draws[k - 1], sizes[k - 1]);
      }
    }
  }

  lemma AccountsBound(w: World, hi: nat)
    requires SizesUpTo(w.slots, hi)
    ensures BytesAfter(w.log) <= Outside(w) + |w.slots| * hi
  {
    SlotBytesBound(w.slots, hi);
  }

  lemma ChurnLogStep(w: World, draws: seq<nat>, sizes: seq<nat>, k: nat)
    requires Draws(|w.slots|, draws, sizes) && 0 < k <= |draws|
    ensures var u, v := ChurnTo(w, draws, sizes, k - 1), ChurnTo(w, draws, sizes, k);
            |v.log| == |u.log| + 1 && v.log == u.log + [v.log[|u.log|]]
  {
  }

  /** At every point of a pass the live bytes stay within what full slots of hi bytes add. */
  lemma {:induction false} ChurnBytes(w: World, draws: seq<nat>, sizes: seq<nat>, k: nat, hi: nat)
    requires Stream(|w.slots|, hi, draws, sizes) && k <= |draws| && Accounts(w) && SizesUpTo(w.slots, hi)
    ensures Within(ChurnTo(w, draws, sizes, k).log, |w.log|, Outside(w) + |w.slots| * hi)
  {
    hide Accounts, Within, SizesUpTo, Outside, BytesAfter, ChurnStep;
    var v, limit := ChurnTo(w, draws, sizes, k), Outside(w) + |w.slots| * hi;
    ChurnAccounts(w, draws, sizes, k, hi);
    AccountsBound(v, hi);
    if k == 0 {
      WithinStart(w.log, limit);
    } else {
      ChurnBytes(w, draws, sizes, k - 1, hi);
      ChurnLogStep(w, draws, sizes, k);
      var u := ChurnTo(w, draws, sizes, k - 1);
      WithinStep(u.log, v.log[|u.log|], |w.log|, limit);
    }
  }

  /** Cleanup never asks for more. */
  lemma {:induction false} SweepBytes(w: World, k: nat, limit: int)
    requires k <= |w.slots| && Accounts(w) && BytesAfter(w.log) <= limit
    ensures var v := Sweep(w, k);
            && Accounts(v) && Outside(v) == Outside(w) && w.log <= v.log
            && BytesAfter(v.log) <= limit && Within(v.log, |w.log|, limit)
  {
    hide Accounts, Within, Outside, BytesAfter, Take;
    if k == 0 {
      WithinStart(w.log, limit);
    } else {
      SweepBytes(w, k - 1, limit);
      var v := Sweep(w, k - 1);
      if v.slots[k - 1].Held? {
        TakeAccounts(v, k - 1);
        TakeWithin(v, k - 1, |w.log|, limit);
      }
    }
  }

  lemma TakeWithin(w: World, s: nat, from: nat, limit: int)
    requires s < |w.slots| && w.slots[s].Held? && BytesAfter(w.log) <= limit && Within(w.log, from, limit)
    ensures var v := Take(w, s);
            w.log <= v.log && BytesAfter(v.log) <= limit && Within(v.log, from, limit)
  {
    hide Within;
    LogStep(w.log, Released(w.slots[s].block.serial));
    WithinStep(w.log, Released(w.slots[s].block.serial), from, limit);
  }

  /** One pass and its cleanup. */
  lemma RoundBytes(w: World, draws: seq<nat>, sizes: seq<nat>, hi: nat)
    requires Stream(|w.slots|, hi, draws, sizes) && Accounts(w) && SizesUpTo(w.slots, hi)
    ensures var v := Sweep(ChurnTo(w, draws, sizes, |draws|), |w.slots|);
            && Accounts(v) && Outside(v) == Outside(w) && w.log <= v.log
            && Within(v.log, |w.log|, Outside(w) + |w.slots| * hi)
  {
    hide Accounts, Within, SizesUpTo, Outside;
    var u, limit := ChurnTo(w, draws, sizes, |draws|), Outside(w) + |w.slots| * hi;
    ChurnAccounts(w, draws, sizes, |draws|, hi);
    ChurnBytes(w, draws, sizes, |draws|, hi);
    WithinPrefix(u.log, u.log, |w.log|, limit);
    SweepBytes(u, |w.slots|, limit);
    WithinJoin(u.log, Sweep(u, |w.slots|).log, |w.log|, limit);
  }

  lemma EmptySizes(w: World, hi: nat)
    requires AllEmpty(w.slots)
    ensures SizesUpTo(w.slots, hi)
  {
  }

  /** The same over any number of passes with their cleanups. */
  lemma {:induction false} RoundsBytes(w: World, draws: seq<nat>, sizes: seq<nat>, r: nat, hi: nat)
    requires Stream(|w.slots|, hi, draws, sizes) && Accounts(w) && AllEmpty(w.slots)
    ensures var v := Rounds(w, draws, sizes, r);
            && Accounts(v) && Outside(v) == Outside(w) && w.log <= v.log
            && Within(v.log, |w.log|, Outside(w) + |w.slots| * hi)
    decreases r
  {
    hide Accounts, Within, Outside, BytesAfter, SizesUpTo, ChurnTo, Sweep;
    var limit := Outside(w) + |w.slots| * hi;
    EmptySizes(w, hi);
    if r == 0 {
      AccountsBound(w, hi);
      WithinStart(w.log, limit);
    } else {
      RoundsBytes(w, draws, sizes, r - 1, hi);
      var u := Rounds(w, draws, sizes, r - 1);
      EmptySizes(u, hi);
      RoundBytes(u, draws, sizes, hi);
      WithinJoin(u.log, Rounds(w, draws, sizes, r).log, |w.log|, limit);
    }
  }

  // ----- the bound is exact -----

  /** Whatever is drawn, live bytes stay within the limit throughout a measurement that starts on
      an empty heap. */
  ghost predicate AlwaysWithin(opsn: nat, lo: nat, hi: nat, limit: int) {
    forall draws, sizes, r: nat ::
      |draws| == opsn && Stream(WorkingSet(opsn, hi), hi, draws, sizes) && AtLeast(sizes, lo) ==>
      Within(Rounds(Fresh(WorkingSet(opsn, hi)), draws, sizes, r).log, 0, limit)
  }

  ghost predicate AtLeast(sizes: seq<nat>, lo: nat) {
    forall i :: 0 <= i < |sizes| ==> sizes[i] >= lo
  }

  function Fresh(n: nat): World {
    World(seq(n, _ => Empty), 0, [])
  }

  /** Filling the slots in turn, then anything. */
  function Worst(n: nat, opsn: nat): (draws: seq<nat>)
    ensures |draws| == opsn && forall i :: 0 <= i < opsn ==> draws[i] == if i < n then i else 0
  {
    seq(opsn, i => if 0 <= i < n then i else 0)
  }

  function Same(opsn: nat, hi: nat): (sizes: seq<nat>)
    ensures |sizes| == opsn && forall i :: 0 <= i < opsn ==> sizes[i] == hi
  {
    seq(opsn, _ => hi)
  }

  lemma WorstStream(n: nat, opsn: nat, hi: nat)
    requires n <= opsn && (opsn > 0 ==> n > 0)
    ensures Stream(n, hi, Worst(n, opsn), Same(opsn, hi))
  {
  }

  lemma {:induction false} WorstFills(n: nat, opsn: nat, hi: nat, k: nat)
    requires k <= n <= opsn && Stream(n, hi, Worst(n, opsn), Same(opsn, hi))
    ensures var v := ChurnTo(Fresh(n), Worst(n, opsn), Same(opsn, hi), k);
            (forall s :: k <= s < n ==> v.slots[s].Empty?) && SlotBytes(v.slots) == k * hi
  {
    hide SlotBytes, Worst, Same;
    if k == 0 {
      NoBytes(Fresh(n).slots);
    } else {
      WorstFills(n, opsn, hi, k - 1);
      var v := ChurnTo(Fresh(n), Worst(n, opsn), Same(opsn, hi), k - 1);
      SlotBytesUpdate(v.slots, k - 1, Held(Block(v.next, hi)));
      NextMultiple(k - 1, k, hi);
    }
  }

  lemma {:induction false} ChurnLogs(w: World, draws: seq<nat>, sizes: seq<nat>, k: nat, m: nat)
    requires Draws(|w.slots|, draws, sizes) && k <= m <= |draws|
    ensures ChurnTo(w, draws, sizes, k).log <= ChurnTo(w, draws, sizes, m).log
    decreases m
  {
    if k < m {
      ChurnLogs(w, draws, sizes, k, m - 1);
    }
  }

  /** Some stream brings the live bytes to full slots of hi bytes. */
  lemma WorstPeak(opsn: nat, lo: nat, hi: nat, limit: int)
    requires lo <= hi && AlwaysWithin(opsn, lo, hi, limit)
    ensures WorkingSet(opsn, hi) * hi <= limit
  {
    hide WorkingSet, Within;
    var n, w := WorkingSet(opsn, hi), Fresh(WorkingSet(opsn, hi));
    var draws, sizes := Worst(n, opsn), Same(opsn, hi);
    WorstStream(n, opsn, hi);
    WorstFills(n, opsn, hi, n);
    assert Within(Rounds(w, draws, sizes, 1).log, 0, limit);
    var full, whole := ChurnTo(w, draws, sizes, n), ChurnTo(w, draws, sizes, opsn);
    FreshAccounts(n);
    ChurnAccounts(w, draws, sizes, n, hi);
    ChurnLogs(w, draws, sizes, n, opsn);
    ChurnAccounts(w, draws, sizes, opsn, hi);
    SweepBytes(whole, n, BytesAfter(whole.log));
    assert Rounds(w, draws, sizes, 1) == Sweep(whole, n);
    WithinPrefix(full.log, Rounds(w, draws, sizes, 1).log, 0, limit);
  }

  lemma FreshAccounts(n: nat)
    ensures Accounts(Fresh(n)) && Outside(Fresh(n)) == 0 && AllEmpty(Fresh(n).slots)
  {
    NoBytes(Fresh(n).slots);
  }

  /** Full slots of hi bytes are the exact peak over all streams. */
  lemma PeakExact(opsn: nat, lo: nat, hi: nat, limit: int)
    requires lo <= hi
    ensures AlwaysWithin(opsn, lo, hi, limit) <==> WorkingSet(opsn, hi) * hi <= limit
  {
    hide WorkingSet, Within;
    var n := WorkingSet(opsn, hi);
    if n * hi <= limit {
      FreshAccounts(n);
      forall draws, sizes, r: nat | |draws| == opsn && Stream(n, hi, draws, sizes) && AtLeast(sizes, lo)
        ensures Within(Rounds(Fresh(n), draws, sizes, r).log, 0, limit)
      {
        RoundsBytes(Fresh(n), draws, sizes, r, hi);
        WithinMore(Rounds(Fresh(n), draws, sizes, r).log, 0, n * hi, limit);
      }
    }
    if AlwaysWithin(opsn, lo, hi, limit) {
      WorstPeak(opsn, lo, hi, limit);
    }
  }

  /** The announced bound of 64 MiB holds for every stream exactly when no block is over 1 MiB or
      all the requested blocks together fit. */
  lemma AnnouncedBound(opsn: nat, lo: nat, hi: nat)
    requires lo <= hi
    ensures AlwaysWithin(opsn, lo, hi, CHURN_BUDGET) <==> hi <= 0x10_0000 || opsn * hi <= CHURN_BUDGET
  {
    PeakExact(opsn, lo, hi, CHURN_BUDGET);
    WorkingSetFits(opsn, hi);
  }

  /** Blocks of up to 2 MiB take the table to 128 MiB. */
  lemma BudgetExceeded()
    ensures !AlwaysWithin(1000, 1, 0x20_0000, CHURN_BUDGET) && AlwaysWithin(1000, 1, 0x20_0000, 2 * CHURN_BUDGET)
  {
    AnnouncedBound(1000, 1, 0x20_0000);
    PeakExact(1000, 1, 0x20_0000, 2 * CHURN_BUDGET);
  }

  // ----- the trace, from draws and sizes alone -----

  /** How many of the first i draws are x. */
  function Earlier(draws: seq<nat>, i: nat, x: nat): nat
    requires i <= |draws|
  {
    if i == 0 then 0 else Earlier(draws, i - 1, x) + (if draws[i - 1] == x then 1 else 0)
  }

  /** The last of the first i operations that drew x, or -1. */
  function LastVisit(draws: seq<nat>, i: nat, x: nat): (j: int)
    requires i <= |draws|
    ensures -1 <= j < i && (j >= 0 ==> draws[j] == x) && (j == -1 <==> Earlier(draws, i, x) == 0)
    ensures forall m :: j < m < i ==> draws[m] != x
  {
    if i == 0 then -1 else if draws[i - 1] == x then i - 1 else LastVisit(draws, i - 1, x)
  }

  /** Operation i finds its slot empty: an even number of earlier ones drew it. */
  predicate Fills(draws: seq<nat>, i: nat)
    requires i < |draws|
  {
    Earlier(draws, i, draws[i]) % 2 == 0
  }

  function FillsBefore(draws: seq<nat>, i: nat): nat
    requires i <= |draws|
  {
    if i == 0 then 0 else FillsBefore(draws, i - 1) + (if Fills(draws, i - 1) then 1 else 0)
  }

  /** The block that the last of the first i operations on slot x allocated. */
  function SerialAt(draws: seq<nat>, next: nat, i: nat, x: nat): nat
    requires i <= |draws| && Earlier(draws, i, x) > 0
  {
    next + FillsBefore(draws, LastVisit(draws, i, x))
  }

  /** What operation i asks of an allocator that has made `next` allocations before the pass. */
  function Request(draws: seq<nat>, sizes: seq<nat>, next: nat, i: nat): Event
    requires i < |draws| == |sizes|
  {
    if Fills(draws, i) then Allocated(sizes[i]) else Released(SerialAt(draws, next, i, draws[i]))
  }

  /** Slot s holds a block after k operations exactly when it was drawn an odd number of times. */
  ghost predicate SlotAt(c: Cell, draws: seq<nat>, sizes: seq<nat>, next: nat, k: nat, s: nat)
    requires k <= |draws| == |sizes|
  {
    && (c.Held? <==> Earlier(draws, k, s) % 2 == 1)
    && (c.Held? ==> c.block == Block(SerialAt(draws, next, k, s), sizes[LastVisit(draws, k, s)]))
  }

  ghost predicate SlotsAt(slots: seq<Cell>, draws: seq<nat>, sizes: seq<nat>, next: nat, k: nat)
    requires k <= |draws| == |sizes|
  {
    forall s :: 0 <= s < |slots| ==> SlotAt(slots[s], draws, sizes, next, k, s)
  }

  /** From `at` on the trace has the requests of the first k operations. */
  ghost predicate PassAt(log: seq<Event>, at: nat, next: nat, draws: seq<nat>, sizes: seq<nat>, k: nat)
    requires k <= |draws| == |sizes|
  {
    at + k <= |log| && forall i :: 0 <= i < k ==> log[at + i] == Request(draws, sizes, next, i)
  }

  lemma NextVisit(draws: seq<nat>, k: nat, s: nat)
    requires k < |draws|
    ensures Earlier(draws, k + 1, s) == Earlier(draws, k, s) + (if draws[k] == s then 1 else 0)
    ensures LastVisit(draws, k + 1, s) == if draws[k] == s then k else LastVisit(draws, k, s)
  {
  }

  lemma SlotStep(slots: seq<Cell>, draws: seq<nat>, sizes: seq<nat>, next: nat, k: nat, c: Cell)
    requires k < |draws| == |sizes| && draws[k] < |slots| && SlotsAt(slots, draws, sizes, next, k)
    requires c == if Fills(draws, k) then Held(Block(next + FillsBefore(draws, k), sizes[k])) else Empty
    ensures SlotsAt(slots[draws[k] := c], draws, sizes, next, k + 1)
  {
    hide Earlier, LastVisit, FillsBefore;
    var slots' := slots[draws[k] := c];
    forall s | 0 <= s < |slots'| ensures SlotAt(slots'[s], draws, sizes, next, k + 1, s) {
      assert SlotAt(slots[s], draws, sizes, next, k, s);
      NextVisit(draws, k, s);
    }
  }

  /** The trace of a pass from an empty table: operation i allocates sizes[i] if and only if an
      even number of earlier ones drew its slot, and else releases the block of the last of them. */
  lemma {:induction false} ChurnTrace(w: World, draws: seq<nat>, sizes: seq<nat>, k: nat)
    requires Draws(|w.slots|, draws, sizes) && k <= |draws| && AllEmpty(w.slots)
    ensures var v := ChurnTo(w, draws, sizes, k);
            && v.next == w.next + FillsBefore(draws, k) && SlotsAt(v.slots, draws, sizes, w.next, k)
            && PassAt(v.log, |w.log|, w.next, draws, sizes, k)
  {
    if k > 0 {
      ChurnTrace(w, draws, sizes, k - 1);
      var u, x := ChurnTo(w, draws, sizes, k - 1), draws[k - 1];
      assert SlotAt(u.slots[x], draws, sizes, w.next, k - 1, x);
      var c := if Fills(draws, k - 1) then Held(Block(u.next, sizes[k - 1])) else Empty;
      SlotStep(u.slots, draws, sizes, w.next, k - 1, c);
      PassStep(u.log, ChurnTo(w, draws, sizes, k).log, |w.log|, w.next, draws, sizes, k - 1);
    }
  }

  lemma PassStep(log: seq<Event>, longer: seq<Event>, at: nat, next: nat, draws: seq<nat>, sizes: seq<nat>, k: nat)
    requires k < |draws| == |sizes| && PassAt(log, at, next, draws, sizes, k) && |log| == at + k
    requires longer == log + [Request(draws, sizes, next, k)]
    ensures PassAt(longer, at, next, draws, sizes, k + 1)
  {
  }

  // ----- cleanup -----

  function HeldBelow(slots: seq<Cell>, k: nat): nat
    requires k <= |slots|
  {
    if k == 0 then 0 else HeldBelow(slots, k - 1) + (if slots[k - 1].Held? then 1 else 0)
  }

  /** From `at` on the trace releases the blocks of the first k slots in slot order. */
  ghost predicate CleanAt(log: seq<Event>, at: nat, slots: seq<Cell>, k: nat)
    requires k <= |slots|
  {
    && at + HeldBelow(slots, k) <= |log|
    && forall s :: 0 <= s < k && slots[s].Held? ==> ReleasedAt(log, at + HeldBelow(slots, s), slots[s].block.serial)
  }

  ghost predicate ReleasedAt(log: seq<Event>, at: nat, serial: nat) {
    at < |log| && log[at] == Released(serial)
  }

  lemma CleanStep(log: seq<Event>, at: nat, slots: seq<Cell>, k: nat, longer: seq<Event>)
    requires k < |slots| && CleanAt(log, at, slots, k) && |log| == at + HeldBelow(slots, k)
    requires longer == if slots[k].Held? then log + [Released(slots[k].block.serial)] else log
    ensures CleanAt(longer, at, slots, k + 1) && |longer| == at + HeldBelow(slots, k + 1)
  {
    forall s | 0 <= s < k + 1 && slots[s].Held?
      ensures ReleasedAt(longer, at + HeldBelow(slots, s), slots[s].block.serial)
    {
      if s < k {
        assert ReleasedAt(log, at + HeldBelow(slots, s), slots[s].block.serial);
      }
    }
  }

  /** Cleanup frees the held slots in slot order, each once. */
  lemma {:induction false} SweepTrace(w: World, k: nat)
    requires k <= |w.slots|
    ensures var v := Sweep(w, k);
            && w.log <= v.log && |v.log| == |w.log| + HeldBelow(w.slots, k) && v.next == w.next
            && CleanAt(v.log, |w.log|, w.slots, k)
  {
    if k == 0 {
      assert HeldBelow(w.slots, 0) == 0;
    } else {
      hide CleanAt, HeldBelow;
      SweepTrace(w, k - 1);
      CleanStep(Sweep(w, k - 1).log, |w.log|, w.slots, k - 1, Sweep(w, k).log);
    }
  }

  // ----- whole rounds -----

  /** Slots below k that a pass leaves held. */
  function OddBelow(draws: seq<nat>, k: nat): nat {
    if k == 0 then 0 else OddBelow(draws, k - 1) + Earlier(draws, |draws|, k - 1) % 2
  }

  /** Requests of a pass and its cleanup over n slots. */
  function RoundLength(draws: seq<nat>, n: nat): nat {
    |draws| + OddBelow(draws, n)
  }

  /** From `at` on: a pass, then the release of every slot drawn an odd number of times, in order. */
  ghost predicate RoundAt(log: seq<Event>, at: nat, next: nat, n: nat, draws: seq<nat>, sizes: seq<nat>)
    requires |draws| == |sizes|
  {
    && at + RoundLength(draws, n) <= |log| && PassAt(log, at, next, draws, sizes, |draws|)
    && forall s :: 0 <= s < n && Earlier(draws, |draws|, s) % 2 == 1 ==>
         ReleasedAt(log, at + |draws| + OddBelow(draws, s), SerialAt(draws, next, |draws|, s))
  }

  lemma {:induction false} HeldAreOdd(slots: seq<Cell>, draws: seq<nat>, sizes: seq<nat>, next: nat, k: nat)
    requires |draws| == |sizes| && SlotsAt(slots, draws, sizes, next, |draws|) && k <= |slots|
    ensures HeldBelow(slots, k) == OddBelow(draws, k)
  {
    if k > 0 {
      HeldAreOdd(slots, draws, sizes, next, k - 1);
      assert SlotAt(slots[k - 1], draws, sizes, next, |draws|, k - 1);
    }
  }

  lemma RoundTrace(w: World, draws: seq<nat>, sizes: seq<nat>)
    requires Draws(|w.slots|, draws, sizes) && AllEmpty(w.slots)
    ensures var v, n := Sweep(ChurnTo(w, draws, sizes, |draws|), |w.slots|), |w.slots|;
            && w.log <= v.log && |v.log| == |w.log| + RoundLength(draws, n)
            && v.next == w.next + FillsBefore(draws, |draws|)
            && RoundAt(v.log, |w.log|, w.next, n, draws, sizes)
  {
    hide SlotsAt, CleanAt, PassAt;
    var u, n := ChurnTo(w, draws, sizes, |draws|), |w.slots|;
    var v := Sweep(u, n);
    ChurnTrace(w, draws, sizes, |draws|);
    SweepTrace(u, n);
    HeldAreOdd(u.slots, draws, sizes, w.next, n);
    PassExtends(u.log, v.log, |w.log|, w.next, draws, sizes);
    forall s | 0 <= s < n && Earlier(draws, |draws|, s) % 2 == 1
      ensures ReleasedAt(v.log, |w.log| + |draws| + OddBelow(draws, s), SerialAt(draws, w.next, |draws|, s))
    {
      HeldAreOdd(u.slots, draws, sizes, w.next, s);
      CleanedSlot(v.log, |u.log|, u.slots, draws, sizes, w.next, s);
    }
  }

  lemma CleanedSlot(log: seq<Event>, at: nat, slots: seq<Cell>, draws: seq<nat>, sizes: seq<nat>, next: nat, s: nat)
    requires |draws| == |sizes| && s < |slots| && SlotsAt(slots, draws, sizes, next, |draws|)
    requires CleanAt(log, at, slots, |slots|) && Earlier(draws, |draws|, s) % 2 == 1
    ensures ReleasedAt(log, at + HeldBelow(slots, s), SerialAt(draws, next, |draws|, s))
  {
    assert SlotAt(slots[s], draws, sizes, next, |draws|, s);
  }

  lemma PassExtends(log: seq<Event>, longer: seq<Event>, at: nat, next: nat, draws: seq<nat>, sizes: seq<nat>)
    requires |draws| == |sizes| && log <= longer && PassAt(log, at, next, draws, sizes, |draws|)
    ensures PassAt(longer, at, next, draws, sizes, |draws|)
  {
  }

  lemma RoundExtends(log: seq<Event>, longer: seq<Event>, at: nat, next: nat, n: nat, draws: seq<nat>, sizes: seq<nat>)
    requires |draws| == |sizes| && log <= longer && RoundAt(log, at, next, n, draws, sizes)
    ensures RoundAt(longer, at, next, n, draws, sizes)
  {
    hide PassAt;
    PassExtends(log, longer, at, next, draws, sizes);
    forall s | 0 <= s < n && Earlier(draws, |draws|, s) % 2 == 1
      ensures ReleasedAt(longer, at + |draws| + OddBelow(draws, s), SerialAt(draws, next, |draws|, s))
    {
      assert ReleasedAt(log, at + |draws| + OddBelow(draws, s), SerialAt(draws, next, |draws|, s));
    }
  }

  /** From `at` on the trace is r rounds, one after the other, each with blocks of its own. */
  ghost predicate RoundsAt(log: seq<Event>, at: nat, next: nat, n: nat, draws: seq<nat>, sizes: seq<nat>, r: nat)
    requires |draws| == |sizes|
  {
    && |log| == at + r * RoundLength(draws, n)
    && forall q: nat :: q < r ==> NthRound(log, at, next, n, draws, sizes, q)
  }

  ghost predicate NthRound(log: seq<Event>, at: nat, next: nat, n: nat, draws: seq<nat>, sizes: seq<nat>, q: nat)
    requires |draws| == |sizes|
  {
    RoundAt(log, at + q * RoundLength(draws, n), next + q * FillsBefore(draws, |draws|), n, draws, sizes)
  }

  lemma RoundsStep(log: seq<Event>, longer: seq<Event>, at: nat, next: nat, n: nat, draws: seq<nat>, sizes: seq<nat>, r: nat)
    requires |draws| == |sizes| && RoundsAt(log, at, next, n, draws, sizes, r)
    requires log <= longer && |longer| == |log| + RoundLength(draws, n)
    requires RoundAt(longer, |log|, next + r * FillsBefore(draws, |draws|), n, draws, sizes)
    ensures RoundsAt(longer, at, next, n, draws, sizes, r + 1)
  {
    hide RoundAt, FillsBefore, RoundLength;
    Distribute(r, RoundLength(draws, n));
    forall q: nat | q < r + 1 ensures NthRound(longer, at, next, n, draws, sizes, q) {
      if q < r {
        assert NthRound(log, at, next, n, draws, sizes, q);
        RoundExtends(log, longer, at + q * RoundLength(draws, n), next + q * FillsBefore(draws, |draws|), n, draws, sizes);
      }
    }
  }

  /** The whole trace of any number of passes with their cleanups. */
  lemma {:induction false} RoundsTrace(w: World, draws: seq<nat>, sizes: seq<nat>, r: nat)
    requires Draws(|w.slots|, draws, sizes) && AllEmpty(w.slots)
    ensures var v := Rounds(w, draws, sizes, r);
            && v.next == w.next + r * FillsBefore(draws, |draws|)
            && RoundsAt(v.log, |w.log|, w.next, |w.slots|, draws, sizes, r)
    decreases r
  {
    hide RoundAt, ChurnTo, Sweep, FillsBefore, RoundLength, NthRound;
    if r > 0 {
      RoundsTrace(w, draws, sizes, r - 1);
      var u, v := Rounds(w, draws, sizes, r - 1), Rounds(w, draws, sizes, r);
      RoundTrace(u, draws, sizes);
      Distribute(r - 1, FillsBefore(draws, |draws|));
      RoundsStep(u.log, v.log, |w.log|, w.next, |w.slots|, draws, sizes, r - 1);
    }
  }

  // ----- the same workload for every pass and every allocator -----

  /** The same request, up to the numbering of blocks. */
  predicate SameRequest(e: Event, n: nat, f: Event, m: nat) {
    match (e, f)
    case (Allocated(a), Allocated(b)) => a == b
    case (Released(x), Released(y)) => x - n == y - m
    case _ => false
  }

  ghost predicate SameTables(w: World, n: nat, v: World, m: nat) {
    && |w.slots| == |v.slots| && w.next - n == v.next - m
    && forall s :: 0 <= s < |w.slots| ==>
         match (w.slots[s], v.slots[s])
         case (Empty, Empty) => true
         case (Held(b), Held(c)) => b.size == c.size && b.serial - n == c.serial - m
         case _ => false
  }

  ghost predicate SameRequests(es: seq<Event>, n: nat, fs: seq<Event>, m: nat) {
    |es| == |fs| && forall i :: 0 <= i < |es| ==> SameRequest(es[i], n, fs[i], m)
  }

  /** From empty tables, any two passes over the same draws and sizes make the same requests
      in the same order, and a release names the block of the same earlier operation. */
  lemma {:induction false} SameWorkload(w: World, v: World, draws: seq<nat>, sizes: seq<nat>, k: nat)
    requires |w.slots| == |v.slots| && Draws(|w.slots|, draws, sizes) && k <= |draws|
    requires forall s :: 0 <= s < |w.slots| ==> w.slots[s].Empty? && v.slots[s].Empty?
    ensures SameTables(ChurnTo(w, draws, sizes, k), w.next, ChurnTo(v, draws, sizes, k), v.next)
    ensures SameRequests(ChurnTo(w, draws, sizes, k).log[|w.log|..], w.next,
                         ChurnTo(v, draws, sizes, k).log[|v.log|..], v.next)
  {
    if k > 0 {
      SameWorkload(w, v, draws, sizes, k - 1);
      var w1, v1 := ChurnTo(w, draws, sizes, k - 1), ChurnTo(v, draws, sizes, k - 1);
      var w2, v2 := ChurnTo(w, draws, sizes, k), ChurnTo(v, draws, sizes, k);
      var e, f := w2.log[|w1.log|], v2.log[|v1.log|];
      assert SameRequest(e, w.next, f, v.next);
      assert w2.log[|w.log|..] == w1.log[|w.log|..] + [e];
      assert v2.log[|v.log|..] == v1.log[|v.log|..] + [f];
    }
  }

  // ----- the loops -----

  /** The table is as w says, with null pointers exactly in its empty slots. */
  ghost predicate Table(heap: Heap, ptrs: array<nat>, w: World, base: Base)
    reads heap, ptrs
  {
    Matches(heap, ptrs, w, base) && Nulls(ptrs[..], w.slots)
  }

  /** The body shared by both passes. */
  method ChurnOp(heap: Heap, ptrs: array<nat>, slot: nat, size: nat, ghost w: World, ghost base: Base)
    requires Table(heap, ptrs, w, base) && slot < |w.slots|
    modifies heap, ptrs
    ensures Table(heap, ptrs, ChurnStep(w, slot, size), base)
    ensures heap.bytes == base.bytes + SlotBytes(ChurnStep(w, slot, size).slots)
  {
    hide Owns;
    if ptrs[slot] != 0 {
      TakeAndNull(heap, ptrs, slot, w, base);
    } else {
      PutSlot(heap, ptrs, slot, size, w, base);
    }
  }

  lemma TableAccounts(heap: Heap, ptrs: array<nat>, w: World, base: Base)
    requires Table(heap, ptrs, w, base)
    ensures heap.Valid() && heap.log == w.log && Accounts(w) && Outside(w) == base.bytes
    ensures heap.bytes == BytesAfter(w.log)
  {
    MatchesAccounts(heap, ptrs, w, base);
  }

  /** What a finished pass has done. */
  lemma PassBytes(heap: Heap, ptrs: array<nat>, draws: seq<nat>, sizes: seq<nat>, hi: nat, w: World, base: Base)
    requires Accounts(w) && Outside(w) == base.bytes
    requires Stream(|w.slots|, hi, draws, sizes) && SizesUpTo(w.slots, hi)
    requires Table(heap, ptrs, ChurnTo(w, draws, sizes, |draws|), base)
    ensures Within(heap.log, |w.log|, base.bytes + |w.slots| * hi)
    ensures AllEmpty(w.slots) ==> PassAt(heap.log, |w.log|, w.next, draws, sizes, |draws|)
  {
    hide Within, Accounts, Outside, PassAt, SlotsAt;
    TableAccounts(heap, ptrs, ChurnTo(w, draws, sizes, |draws|), base);
    ChurnBytes(w, draws, sizes, |draws|, hi);
    if AllEmpty(w.slots) { ChurnTrace(w, draws, sizes, |draws|); }
  }

  lemma PassesBytes(heap: Heap, ptrs: array<nat>, draws: seq<nat>, sizes: seq<nat>, r: nat, hi: nat, w: World, base: Base)
    requires Accounts(w) && Outside(w) == base.bytes && AllEmpty(w.slots) && Stream(|w.slots|, hi, draws, sizes)
    requires Table(heap, ptrs, Rounds(w, draws, sizes, r), base)
    ensures Within(heap.log, |w.log|, base.bytes + |w.slots| * hi)
    ensures RoundsAt(heap.log, |w.log|, w.next, |w.slots|, draws, sizes, r)
  {
    hide Within, Accounts, Outside, RoundsAt;
    TableAccounts(heap, ptrs, Rounds(w, draws, sizes, r), base);
    RoundsBytes(w, draws, sizes, r, hi);
    RoundsTrace(w, draws, sizes, r);
  }

  /** The timed pass. */
  method ChurnPass(heap: Heap, ptrs: array<nat>, draws: seq<nat>, sizes: seq<nat>, ghost hi: nat,
                   ghost w: World, ghost base: Base)
    requires Table(heap, ptrs, w, base)
    requires Stream(|w.slots|, hi, draws, sizes) && SizesUpTo(w.slots, hi)
    modifies heap, ptrs
    ensures Table(heap, ptrs, ChurnTo(w, draws, sizes, |draws|), base)
    ensures Within(heap.log, |w.log|, base.bytes + |w.slots| * hi)
    ensures AllEmpty(w.slots) ==> PassAt(heap.log, |w.log|, w.next, draws, sizes, |draws|)
  {
    hide Table, Within, Accounts, Outside, ChurnStep, PassAt;
    TableAccounts(heap, ptrs, w, base);
    for i := 0 to |draws|
      invariant Table(heap, ptrs, ChurnTo(w, draws, sizes, i), base)
    {
      ChurnOp(heap, ptrs, draws[i], sizes[i], ChurnTo(w, draws, sizes, i), base);
    }
    PassBytes(heap, ptrs, draws, sizes, hi, w, base);
  }

  /** Entries `at` to at + k were stored from the clock and no others. */
  ghost predicate Stamped(before: seq<nat>, now: seq<nat>, at: nat, k: nat, clock: nat -> nat) {
    |now| == |before| &&
    forall x :: 0 <= x < |now| ==> now[x] == if at <= x < at + k then clock(x) else before[x]
  }

  lemma StampNext(before: seq<nat>, now: seq<nat>, at: nat, k: nat, clock: nat -> nat)
    requires Stamped(before, now, at, k, clock) && at + k < |now|
    ensures Stamped(before, now[at + k := clock(at + k)], at, k + 1, clock)
  {
  }

  lemma NothingStamped(now: seq<nat>, at: nat, clock: nat -> nat)
    ensures Stamped(now, now, at, 0, clock)
  {
  }

  /** One operation and the latency stored for it. */
  method TimedOp(heap: Heap, ptrs: array<nat>, lat: array<nat>, at: nat, ticks: nat, slot: nat, size: nat,
                 ghost w: World, ghost base: Base)
    requires Table(heap, ptrs, w, base) && slot < |w.slots| && ptrs != lat && at < lat.Length
    modifies heap, ptrs, lat
    ensures Table(heap, ptrs, ChurnStep(w, slot, size), base)
    ensures lat[..] == old(lat[..])[at := ticks]
  {
    hide Table, ChurnStep;
    ChurnOp(heap, ptrs, slot, size, w, base);
    lat[at] := ticks;
  }

  /** The instrumented pass: the same requests, with a latency stored for each. */
  method ChurnInstrumented(heap: Heap, ptrs: array<nat>, lat: array<nat>, at: nat, clock: nat -> nat,
                           draws: seq<nat>, sizes: seq<nat>, ghost hi: nat, ghost w: World, ghost base: Base)
      returns (samples: nat)
    requires Table(heap, ptrs, w, base) && ptrs != lat && at + |draws| <= lat.Length
    requires Stream(|w.slots|, hi, draws, sizes) && SizesUpTo(w.slots, hi)
    modifies heap, ptrs, lat
    ensures Table(heap, ptrs, ChurnTo(w, draws, sizes, |draws|), base)
    ensures Within(heap.log, |w.log|, base.bytes + |w.slots| * hi)
    ensures AllEmpty(w.slots) ==> PassAt(heap.log, |w.log|, w.next, draws, sizes, |draws|)
    ensures samples == |draws| && Stamped(old(lat[..]), lat[..], at, samples, clock)
  {
    hide Table, Within, Accounts, Outside, ChurnStep, Stamped, PassAt;
    TableAccounts(heap, ptrs, w, base);
    NothingStamped(lat[..], at, clock);
    for i := 0 to |draws|
      invariant Table(heap, ptrs, ChurnTo(w, draws, sizes, i), base)
      invariant Stamped(old(lat[..]), lat[..], at, i, clock)
    {
      StampNext(old(lat[..]), lat[..], at, i, clock);
      TimedOp(heap, ptrs, lat, at + i, clock(at + i), draws[i], sizes[i], ChurnTo(w, draws, sizes, i), base);
    }
    samples := |draws|;
    PassBytes(heap, ptrs, draws, sizes, hi, w, base);
  }

  method Cleanup(heap: Heap, ptrs: array<nat>, n: nat, ghost w: World, ghost base: Base)
    requires Table(heap, ptrs, w, base) && n == |w.slots|
    modifies heap, ptrs
    ensures Table(heap, ptrs, Sweep(w, n), base)
    ensures heap.live == base.live && heap.bytes == base.bytes
    ensures Within(heap.log, |w.log|, BytesAfter(w.log)) && CleanAt(heap.log, |w.log|, w.slots, n)
    ensures |heap.log| == |w.log| + HeldBelow(w.slots, n)
  {
    hide Owns, Ledger, Within, Accounts, CleanAt, HeldBelow;
    TableAccounts(heap, ptrs, w, base);
    for i := 0 to n
      invariant Table(heap, ptrs, Sweep(w, i), base)
    {
      if ptrs[i] != 0 {
        TakeAndNull(heap, ptrs, i, Sweep(w, i), base);
      }
    }
    OwnsNothing(heap.live, ptrs[..], Sweep(w, n).slots, base.live);
    SweepBytes(w, n, BytesAfter(w.log));
    SweepTrace(w, n);
  }

  method TimedPasses(heap: Heap, ptrs: array<nat>, draws: seq<nat>, sizes: seq<nat>, n: nat, timed: nat,
                     ghost hi: nat, ghost w: World, ghost base: Base)
    requires Table(heap, ptrs, w, base) && AllEmpty(w.slots)
    requires n == |w.slots| && Stream(n, hi, draws, sizes)
    modifies heap, ptrs
    ensures Table(heap, ptrs, Rounds(w, draws, sizes, timed), base)
    ensures Within(heap.log, |w.log|, base.bytes + n * hi)
    ensures RoundsAt(heap.log, |w.log|, w.next, n, draws, sizes, timed)
  {
    hide Table, Within, Accounts, Outside, ChurnStep, PassAt, CleanAt, RoundsAt;
    TableAccounts(heap, ptrs, w, base);
    for r := 0 to timed
      invariant Table(heap, ptrs, Rounds(w, draws, sizes, r), base)
    {
      ghost var v := Rounds(w, draws, sizes, r);
      ChurnPass(heap, ptrs, draws, sizes, hi, v, base);
      Cleanup(heap, ptrs, n, ChurnTo(v, draws, sizes, |draws|), base);
    }
    PassesBytes(heap, ptrs, draws, sizes, timed, hi, w, base);
  }

  method InstrumentedPasses(heap: Heap, ptrs: array<nat>, lat: array<nat>, clock: nat -> nat,
                            draws: seq<nat>, sizes: seq<nat>, n: nat, passes: nat,
                            ghost hi: nat, ghost w: World, ghost base: Base)
    requires ptrs != lat && passes * |draws| <= lat.Length
    requires Table(heap, ptrs, w, base) && AllEmpty(w.slots)
    requires n == |w.slots| && Stream(n, hi, draws, sizes)
    modifies heap, ptrs, lat
    ensures Table(heap, ptrs, Rounds(w, draws, sizes, passes), base)
    ensures Within(heap.log, |w.log|, base.bytes + n * hi)
    ensures RoundsAt(heap.log, |w.log|, w.next, n, draws, sizes, passes)
  {
    hide Table, Within, Accounts, Outside, ChurnStep, PassAt, CleanAt, RoundsAt;
    TableAccounts(heap, ptrs, w, base);
    var at := 0;
    for r := 0 to passes
      invariant at == r * |draws|
      invariant Table(heap, ptrs, Rounds(w, draws, sizes, r), base)
    {
      NextMultiple(r, passes, |draws|);
      ghost var v := Rounds(w, draws, sizes, r);
      var k := ChurnInstrumented(heap, ptrs, lat, at, clock, draws, sizes, hi, v, base);
      Cleanup(heap, ptrs, n, ChurnTo(v, draws, sizes, |draws|), base);
      at := at + k;
    }
    PassesBytes(heap, ptrs, draws, sizes, passes, hi, w, base);
  }

  lemma {:induction false} RoundsAdd(w: World, draws: seq<nat>, sizes: seq<nat>, a: nat, b: nat)
    requires Draws(|w.slots|, draws, sizes)
    ensures Rounds(Rounds(w, draws, sizes, a), draws, sizes, b) == Rounds(w, draws, sizes, a + b)
    decreases b
  {
    if b > 0 {
      RoundsAdd(w, draws, sizes, a, b - 1);
    }
  }

  lemma EmptyTable(heap: Heap, ptrs: array<nat>, n: nat)
    requires heap.Valid() && n <= ptrs.Length && forall s :: 0 <= s < n ==> ptrs[s] == 0
    ensures Table(heap, ptrs, World(seq(n, _ => Empty), heap.allocs, heap.log), Base(heap.live, heap.bytes))
  {
    hide Owns;
    var slots: seq<Cell> := seq(n, _ => Empty);
    NoBytes(slots);
    OwnsBase(heap.live, ptrs[..], slots);
  }

  lemma TableEmptied(heap: Heap, ptrs: array<nat>, w: World, base: Base)
    requires Table(heap, ptrs, w, base) && AllEmpty(w.slots)
    ensures heap.live == base.live && heap.bytes == base.bytes && heap.log == w.log && heap.allocs == w.next
  {
    hide Owns;
    OwnsNothing(heap.live, ptrs[..], w.slots, base.live);
  }

  /** `measure_interleaved` with any number of timed and instrumented passes: the allocator is
      left as it was found, at every point of its trace the run adds at most full slots of hi
      bytes, and the trace is a function of the draws and sizes alone. */
  method MeasureInterleaved(heap: Heap, ptrs: array<nat>, lat: array<nat>, clock: nat -> nat,
                            draws: seq<nat>, sizes: seq<nat>, hi: nat, timed: nat, instrumented: nat)
    requires heap.Valid()
    requires ptrs != lat && ptrs.Length == MAX_COUNT && instrumented * |draws| <= lat.Length
    requires Stream(WorkingSet(|draws|, hi), hi, draws, sizes)
    modifies heap, ptrs, lat
    ensures heap.Valid() && heap.live == old(heap.live) && heap.bytes == old(heap.bytes)
    ensures Within(heap.log, |old(heap.log)|, BytesAfter(old(heap.log)) + WorkingSet(|draws|, hi) * hi)
    ensures var w := World(seq(WorkingSet(|draws|, hi), _ => Empty), old(heap.allocs), old(heap.log));
            heap.log == Rounds(w, draws, sizes, timed + instrumented).log
    ensures RoundsAt(heap.log, |old(heap.log)|, old(heap.allocs), WorkingSet(|draws|, hi), draws, sizes,
                     timed + instrumented)
    ensures old(Quiet(heap.allocs, heap.log)) ==> Quiet(heap.allocs, heap.log)
  {
    hide Table, RoundsAt, WorkingSet, Quiet, Sound, Within, Accounts, Outside, BytesAfter, Ledger, ChurnTo, Sweep;
    var n := WorkingSet(|draws|, hi);
    for i := 0 to n
      invariant forall s :: 0 <= s < i ==> ptrs[s] == 0
      modifies ptrs
    {
      ptrs[i] := 0;
    }
    ghost var w := World(seq(n, _ => Empty), heap.allocs, heap.log);
    ghost var base := Base(heap.live, heap.bytes);
    EmptyTable(heap, ptrs, n);
    TableAccounts(heap, ptrs, w, base);
    TimedPasses(heap, ptrs, draws, sizes, n, timed, hi, w, base);
    InstrumentedPasses(heap, ptrs, lat, clock, draws, sizes, n, instrumented, hi, Rounds(w, draws, sizes, timed), base);
    RoundsAdd(w, draws, sizes, timed, instrumented);
    ghost var v := Rounds(w, draws, sizes, timed + instrumented);
    TableEmptied(heap, ptrs, v, base);
    TableAccounts(heap, ptrs, v, base);
    PassesBytes(heap, ptrs, draws, sizes, timed + instrumented, hi, w, base);
    if old(Quiet(heap.allocs, heap.log)) {
      QuietIsSound(n, w.next, w.log);
      RoundsBalance(w, draws, sizes, timed + instrumented);
    }
  }
}
