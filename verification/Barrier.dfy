/** The reusable generation barrier of the multi-threaded allocator bench.

    Each atomic access of `bar_wait` is one step of a transition system; a schedule
    is any finite sequence of thread numbers, so the theorems range over every
    interleaving.  Memory is sequentially consistent.  `count` and `gen` are 32-bit
    words and wrap; `arrivals`, `completed`, `rounds` and `resets` are history that no
    step looks at. */
module Barrier {
  import opened Finite

  const WRAP: nat := 0x1_0000_0000

  /** Where a thread stands: outside the barrier, past the load of `gen`, last to
      arrive and about to zero `count`, about to bump `gen`, or spinning. */
  datatype Pc = Idle | Loaded(g: nat) | Resetting | Bumping | Spinning(g: nat)

  datatype State = State(
    count: nat,
    gen: nat,
    pc: seq<Pc>,
    arrivals: seq<nat>,  // calls whose `fetch_add` on `count` has happened
    completed: seq<nat>,   // calls that have returned
    rounds: nat,         // increments of `gen`
    resets: nat)         // stores of 0 to `count`

  ghost predicate Shaped(n: nat, s: State) {
    n < WRAP && |s.pc| == |s.arrivals| == |s.completed| == n
  }

  function Init(n: nat): State {
    State(0, 0, seq(n, _ => Idle), seq(n, _ => 0), seq(n, _ => 0), 0, 0)
  }

  /** One atomic access by thread t.  A spinning thread that still reads its own
      generation stays where it is. */
  function Step(n: nat, s: State, t: nat): State
    requires t < |s.pc| == |s.arrivals| == |s.completed|
  {
    match s.pc[t]
    case Idle =>
      if n <= 1 then
        s.(arrivals := s.arrivals[t := s.arrivals[t] + 1], completed := s.completed[t := s.completed[t] + 1])
      else
        s.(pc := s.pc[t := Loaded(s.gen)])
    case Loaded(g) =>
      var last := (s.count + 1) % WRAP == n;
      s.(count := (s.count + 1) % WRAP,
         arrivals := s.arrivals[t := s.arrivals[t] + 1],
         pc := s.pc[t := if last then Resetting else Spinning(g)])
    case Resetting =>
      s.(count := 0, resets := s.resets + 1, pc := s.pc[t := Bumping])
    case Bumping =>
      s.(gen := (s.gen + 1) % WRAP, rounds := s.rounds + 1,
         completed := s.completed[t := s.completed[t] + 1], pc := s.pc[t := Idle])
    case Spinning(g) =>
      if s.gen == g then s
      else s.(completed := s.completed[t := s.completed[t] + 1], pc := s.pc[t := Idle])
  }

  predicate Schedule(n: nat, ts: seq<nat>) {
    forall i :: 0 <= i < |ts| ==> ts[i] < n
  }

  function Run(n: nat, ts: seq<nat>): (s: State)
    requires Schedule(n, ts)
    ensures |s.pc| == |s.arrivals| == |s.completed| == n
  {
    if ts == [] then Init(n) else Step(n, Run(n, ts[..|ts| - 1]), ts[|ts| - 1])
  }

  // ----- the invariant -----

  /** Threads that have arrived at the round in progress. */
  ghost function Here(s: State): set<nat>
    requires |s.arrivals| == |s.pc|
  {
    set t: nat | t < |s.pc| && s.arrivals[t] == s.rounds + 1
  }

  ghost predicate ThreadInv(s: State, t: nat)
    requires t < |s.pc| == |s.arrivals| == |s.completed|
  {
    match s.pc[t]
    case Idle => s.arrivals[t] == s.completed[t] == s.rounds
    case Loaded(g) => s.arrivals[t] == s.completed[t] == s.rounds && g == s.gen
    case Resetting => s.arrivals[t] == s.rounds + 1 && s.completed[t] == s.rounds
    case Bumping => s.arrivals[t] == s.rounds + 1 && s.completed[t] == s.rounds
    case Spinning(g) =>
      && s.arrivals[t] == s.completed[t] + 1
      && s.completed[t] <= s.rounds <= s.completed[t] + 1
      && g == s.completed[t] % WRAP
  }

  predicate Closing(p: Pc) {
    p.Resetting? || p.Bumping?
  }

  /** While a thread closes the round, everyone else has arrived and spins. */
  ghost predicate ClosingInv(n: nat, s: State, t: nat)
    requires Shaped(n, s) && t < n
  {
    && s.count == (if s.pc[t].Resetting? then n else 0)
    && s.resets == s.rounds + (if s.pc[t].Resetting? then 0 else 1)
    && forall u :: 0 <= u < n && u != t ==> s.pc[u].Spinning? && s.arrivals[u] == s.rounds + 1
  }

  ghost predicate OpenInv(n: nat, s: State)
    requires Shaped(n, s)
  {
    s.count == |Here(s)| < n && s.resets == s.rounds
  }

  ghost predicate Inv(n: nat, s: State) {
    && Shaped(n, s)
    && s.gen == s.rounds % WRAP
    && if n <= 1 then
         s.count == s.rounds == s.resets == 0 &&
         forall t :: 0 <= t < n ==> s.pc[t].Idle? && s.arrivals[t] == s.completed[t]
       else
         && (forall t :: 0 <= t < n ==> ThreadInv(s, t))
         && (forall t :: 0 <= t < n && Closing(s.pc[t]) ==> ClosingInv(n, s, t))
         && ((forall t :: 0 <= t < n ==> !Closing(s.pc[t])) ==> OpenInv(n, s))
  }

  lemma InitInv(n: nat)
    requires n < WRAP
    ensures Inv(n, Init(n))
  {
    assert Here(Init(n)) == {};
  }

  /** A thread about to arrive finds the round open and itself not counted. */
  lemma AddFindsOpen(n: nat, s: State, t: nat)
    requires n > 1 && Inv(n, s) && t < n && s.pc[t].Loaded?
    ensures OpenInv(n, s) && t !in Here(s) && ThreadInv(s, t)
    ensures forall u :: 0 <= u < n ==> !Closing(s.pc[u])
  {
    assert ThreadInv(s, t);
    assert forall u :: 0 <= u < n ==> !Closing(s.pc[u]);
  }

  lemma AddInv(n: nat, s: State, t: nat)
    requires n > 1 && Inv(n, s) && t < n && s.pc[t].Loaded?
    ensures Inv(n, Step(n, s, t))
  {
    var s' := Step(n, s, t);
    AddFindsOpen(n, s, t);
    assert Here(s') == Here(s) + {t};
    FullSet(n, Here(s'));
    forall u | 0 <= u < n && u != t ensures ThreadInv(s', u) && !Closing(s'.pc[u]) {
      assert ThreadInv(s, u) && !Closing(s.pc[u]);
    }
    if s'.count == n {
      forall u | 0 <= u < n && u != t ensures s'.pc[u].Spinning? && s'.arrivals[u] == s'.rounds + 1 {
        assert u in Here(s') && ThreadInv(s', u);
      }
      assert ClosingInv(n, s', t);
    }
  }

  lemma ResetInv(n: nat, s: State, t: nat)
    requires n > 1 && Inv(n, s) && t < n && s.pc[t].Resetting?
    ensures Inv(n, Step(n, s, t))
  {
    var s' := Step(n, s, t);
    assert ThreadInv(s, t) && ClosingInv(n, s, t);
    forall u | 0 <= u < n ensures ThreadInv(s', u) && (Closing(s'.pc[u]) ==> u == t) {
      assert ThreadInv(s, u);
    }
    assert ClosingInv(n, s', t) && Closing(s'.pc[t]);
  }

  lemma WrapNext(r: nat)
    ensures (r % WRAP + 1) % WRAP == (r + 1) % WRAP
  {
  }

  lemma BumpInv(n: nat, s: State, t: nat)
    requires n > 1 && Inv(n, s) && t < n && s.pc[t].Bumping?
    ensures Inv(n, Step(n, s, t))
  {
    var s' := Step(n, s, t);
    assert ThreadInv(s, t) && ClosingInv(n, s, t);
    forall u | 0 <= u < n ensures ThreadInv(s', u) && s'.arrivals[u] == s'.rounds && !Closing(s'.pc[u]) {
      assert ThreadInv(s, u);
    }
    WrapNext(s.rounds);
    assert Here(s') == {};
  }

  lemma LeaveInv(n: nat, s: State, t: nat)
    requires n > 1 && Inv(n, s) && t < n && (s.pc[t].Idle? || s.pc[t].Spinning?)
    ensures Inv(n, Step(n, s, t))
  {
    var s' := Step(n, s, t);
    assert ThreadInv(s, t);
    assert s'.arrivals == s.arrivals && s'.rounds == s.rounds;
    assert Here(s') == Here(s);
    forall u | 0 <= u < n
      ensures ThreadInv(s', u)
    {
      assert ThreadInv(s, u);
    }
    if s' != s {
      assert forall u :: 0 <= u < n ==> !Closing(s.pc[u]);
      assert forall u :: 0 <= u < n ==> !Closing(s'.pc[u]);
    }
  }

  /** Every atomic access of every thread keeps the invariant. */
  lemma StepInv(n: nat, s: State, t: nat)
    requires Inv(n, s) && t < n
    ensures Inv(n, Step(n, s, t))
  {
    if n <= 1 {
      assert s.pc[t].Idle?;
    } else {
      match s.pc[t]
      case Loaded(_) => AddInv(n, s, t);
      case Resetting => ResetInv(n, s, t);
      case Bumping => BumpInv(n, s, t);
      case Idle => LeaveInv(n, s, t);
      case Spinning(_) => LeaveInv(n, s, t);
    }
  }

  lemma {:induction false} RunInv(n: nat, ts: seq<nat>)
    requires n < WRAP && Schedule(n, ts)
    ensures Inv(n, Run(n, ts))
  {
    if ts == [] {
      InitInv(n);
    } else {
      RunInv(n, ts[..|ts| - 1]);
      StepInv(n, Run(n, ts[..|ts| - 1]), ts[|ts| - 1]);
    }
  }

  // ----- what the barrier is for -----

  /** No thread has returned from its k-th call unless all n threads have arrived at
      theirs; and no thread is more than one round ahead of another. */
  lemma NoEarlyReturn(n: nat, ts: seq<nat>, t: nat, u: nat)
    requires n < WRAP && Schedule(n, ts) && t < n && u < n
    ensures Run(n, ts).completed[t] <= Run(n, ts).arrivals[u]
    ensures n > 1 ==> Run(n, ts).arrivals[t] <= Run(n, ts).arrivals[u] + 1
  {
    RunInv(n, ts);
    var s := Run(n, ts);
    if n > 1 {
      assert ThreadInv(s, t) && ThreadInv(s, u);
    }
  }

  /** The 32-bit comparison is exact although `gen` wraps: a spinning thread reads a
      generation other than its own if and only if its round is over. */
  lemma SpinTestExact(n: nat, ts: seq<nat>, t: nat)
    requires n < WRAP && Schedule(n, ts) && t < n && Run(n, ts).pc[t].Spinning?
    ensures Run(n, ts).gen != Run(n, ts).pc[t].g <==> Run(n, ts).rounds > Run(n, ts).completed[t]
  {
    RunInv(n, ts);
    assert ThreadInv(Run(n, ts), t);
  }

  /** Every `fetch_add` counts the arrivals of its own round and nothing else: the value
      it reads is the number of threads already there, no closer is at work, and it
      never wraps.  So `count` is 0 when the first thread of a round arrives. */
  lemma FetchAddCountsRound(n: nat, ts: seq<nat>, t: nat)
    requires n < WRAP && Schedule(n, ts) && t < n && Run(n, ts).pc[t].Loaded?
    ensures Run(n, ts).count == |set u: nat | u < n && Run(n, ts).arrivals[u] > Run(n, ts).arrivals[t]|
    ensures Run(n, ts).count + 1 <= n < WRAP
    ensures forall u :: 0 <= u < n ==> !Closing(Run(n, ts).pc[u])
  {
    RunInv(n, ts);
    var s := Run(n, ts);
    AddFindsOpen(n, s, t);
    forall u: nat | u < n ensures s.arrivals[u] > s.arrivals[t] <==> s.arrivals[u] == s.rounds + 1 {
      assert ThreadInv(s, u);
    }
    assert Here(s) == set u: nat | u < n && s.arrivals[u] > s.arrivals[t];
  }

  /** At most one thread closes a round, and every completed round was reset exactly once. */
  lemma OneResetPerRound(n: nat, ts: seq<nat>, t: nat, u: nat)
    requires n < WRAP && Schedule(n, ts) && t < n && u < n
    ensures Closing(Run(n, ts).pc[t]) && Closing(Run(n, ts).pc[u]) ==> t == u
    ensures Run(n, ts).resets ==
            Run(n, ts).rounds + (if exists v :: 0 <= v < n && Run(n, ts).pc[v].Bumping? then 1 else 0)
  {
    RunInv(n, ts);
    var s := Run(n, ts);
    if v :| 0 <= v < n && Closing(s.pc[v]) {
      assert ClosingInv(n, s, v);
    }
  }

  // ----- workers: a fixed number of calls each -----

  /** t has something to do other than spin, when each worker calls `bar_wait` `calls` times. */
  predicate Enabled(s: State, t: nat, calls: nat)
    requires t < |s.pc| == |s.completed|
  {
    match s.pc[t]
    case Idle => s.completed[t] < calls
    case Spinning(g) => s.gen != g
    case _ => true
  }

  predicate Finished(s: State, t: nat, calls: nat)
    requires t < |s.pc| == |s.completed|
  {
    s.pc[t].Idle? && s.completed[t] == calls
  }

  /** Schedules in which an idle worker that has made all its calls makes no more. */
  predicate WorkerSchedule(n: nat, calls: nat, ts: seq<nat>) {
    Schedule(n, ts) &&
    forall i :: 0 <= i < |ts| ==> !Finished(Run(n, ts[..i]), ts[i], calls)
  }

  ghost predicate Budget(s: State, calls: nat)
    requires |s.pc| == |s.completed|
  {
    forall t :: 0 <= t < |s.pc| ==>
      s.completed[t] <= calls && (!s.pc[t].Idle? ==> s.completed[t] < calls)
  }

  lemma WorkerPrefix(n: nat, calls: nat, ts: seq<nat>)
    requires WorkerSchedule(n, calls, ts) && ts != []
    ensures WorkerSchedule(n, calls, ts[..|ts| - 1])
    ensures !Finished(Run(n, ts[..|ts| - 1]), ts[|ts| - 1], calls)
  {
    var ps := ts[..|ts| - 1];
    forall i | 0 <= i < |ps| ensures !Finished(Run(n, ps[..i]), ps[i], calls) {
      assert ps[..i] == ts[..i];
    }
  }

  lemma StepBudget(n: nat, calls: nat, s: State, t: nat)
    requires t < |s.pc| == |s.arrivals| == |s.completed| && Budget(s, calls) && !Finished(s, t, calls)
    ensures Budget(Step(n, s, t), calls)
  {
  }

  lemma {:induction false} RunBudget(n: nat, calls: nat, ts: seq<nat>)
    requires WorkerSchedule(n, calls, ts)
    ensures Budget(Run(n, ts), calls)
  {
    hide Finished, Step;
    if ts != [] {
      WorkerPrefix(n, calls, ts);
      RunBudget(n, calls, ts[..|ts| - 1]);
      StepBudget(n, calls, Run(n, ts[..|ts| - 1]), ts[|ts| - 1]);
    }
  }

  /** A state in which no worker can move has nobody waiting at the current round. */
  lemma NobodyStuck(n: nat, s: State, calls: nat, t: nat)
    requires n > 1 && Inv(n, s) && Budget(s, calls) && t < n
    requires forall u :: 0 <= u < n ==> !Enabled(s, u, calls)
    ensures s.pc[t].Idle?
  {
    assert !Enabled(s, t, calls) && ThreadInv(s, t);
    if s.pc[t].Spinning? {
      forall u | 0 <= u < n ensures u in Here(s) && !Closing(s.pc[u]) {
        assert ThreadInv(s, u) && !Enabled(s, u, calls);
      }
      assert OpenInv(n, s);
      SubsetSize(Below(n), Here(s));
      assert false;
    }
  }

  /** No deadlock: unless every worker has made all its calls and left, some worker
      has a step that is not a spin. */
  lemma Progress(n: nat, calls: nat, ts: seq<nat>)
    requires n < WRAP && WorkerSchedule(n, calls, ts)
    ensures || (forall t :: 0 <= t < n ==> Finished(Run(n, ts), t, calls))
            || (exists t :: 0 <= t < n && Enabled(Run(n, ts), t, calls) && Step(n, Run(n, ts), t) != Run(n, ts))
  {
    RunInv(n, ts);
    RunBudget(n, calls, ts);
    var s := Run(n, ts);
    if forall u :: 0 <= u < n ==> !Enabled(s, u, calls) {
      forall t | 0 <= t < n ensures Finished(s, t, calls) {
        assert !Enabled(s, t, calls);
        if n > 1 { NobodyStuck(n, s, calls, t); }
      }
    } else {
      var t :| 0 <= t < n && Enabled(s, t, calls);
      assert Step(n, s, t).pc[t] != s.pc[t] || Step(n, s, t).completed[t] != s.completed[t];
    }
  }

  // ----- how many steps a run can take -----

  function Stage(p: Pc): nat {
    match p
    case Idle => 0
    case Loaded(_) => 1
    case Bumping => 3
    case _ => 2
  }

  /** An upper bound on the steps worker t still has to make. */
  function Remaining(s: State, t: nat, calls: nat): int
    requires t < |s.pc| == |s.completed|
  {
    4 * (calls - s.completed[t]) - Stage(s.pc[t])
  }

  function TotalRemaining(s: State, k: nat, calls: nat): int
    requires k <= |s.pc| == |s.completed|
  {
    if k == 0 then 0 else Remaining(s, k - 1, calls) + TotalRemaining(s, k - 1, calls)
  }

  lemma {:induction false} RemainingStep(s: State, s': State, t: nat, k: nat, calls: nat)
    requires t < |s.pc| == |s.completed| == |s'.pc| == |s'.completed|
    requires k <= |s.pc|
    requires forall u :: 0 <= u < |s.pc| && u != t ==> s'.pc[u] == s.pc[u] && s'.completed[u] == s.completed[u]
    ensures TotalRemaining(s', k, calls) == TotalRemaining(s, k, calls) +
            (if t < k then Remaining(s', t, calls) - Remaining(s, t, calls) else 0)
  {
    if k > 0 {
      RemainingStep(s, s', t, k - 1, calls);
    }
  }

  lemma {:induction false} RemainingInit(n: nat, k: nat, calls: nat)
    requires k <= n
    ensures TotalRemaining(Init(n), k, calls) == 4 * calls * k
  {
    if k > 0 {
      RemainingInit(n, k - 1, calls);
    }
  }

  lemma {:induction false} RemainingNonNegative(s: State, k: nat, calls: nat)
    requires k <= |s.pc| == |s.completed| && Budget(s, calls)
    ensures TotalRemaining(s, k, calls) >= 0
  {
    if k > 0 {
      RemainingNonNegative(s, k - 1, calls);
    }
  }

  /** Steps of a schedule that are not spins. */
  function Effective(n: nat, ts: seq<nat>): nat
    requires Schedule(n, ts)
  {
    if ts == [] then 0
    else
      var ps := ts[..|ts| - 1];
      Effective(n, ps) + (if Run(n, ts) == Run(n, ps) then 0 else 1)
  }

  lemma StepSpends(n: nat, s: State, t: nat, calls: nat)
    requires t < n == |s.pc| == |s.arrivals| == |s.completed|
    ensures Step(n, s, t) == s || TotalRemaining(Step(n, s, t), n, calls) < TotalRemaining(s, n, calls)
  {
    RemainingStep(s, Step(n, s, t), t, n, calls);
  }

  lemma {:induction false} EffectiveBound(n: nat, calls: nat, ts: seq<nat>)
    requires Schedule(n, ts)
    ensures Effective(n, ts) + TotalRemaining(Run(n, ts), n, calls) <= 4 * calls * n
  {
    if ts == [] {
      RemainingInit(n, n, calls);
    } else {
      var ps, t := ts[..|ts| - 1], ts[|ts| - 1];
      EffectiveBound(n, calls, ps);
      StepSpends(n, Run(n, ps), t, calls);
    }
  }

  /** With Progress: whatever the scheduler does, `calls` calls by each of n workers
      complete within 4 * calls * n steps that are not spins. */
  lemma BoundedRun(n: nat, calls: nat, ts: seq<nat>)
    requires n < WRAP && WorkerSchedule(n, calls, ts)
    ensures Effective(n, ts) <= 4 * calls * n
  {
    EffectiveBound(n, calls, ts);
    RunBudget(n, calls, ts);
    RemainingNonNegative(Run(n, ts), n, calls);
  }

  // ----- phases of a worker -----

  /** Prefill and warm-up come before the first `bar_wait`, the timed region between the
      two, the latency region (and the end of the worker) after the second. */
  datatype Phase = Preparing | Waiting | Timed | Latency

  function PhaseOf(s: State, t: nat): (p: Phase)
    requires t < |s.pc| == |s.completed|
    ensures p.Waiting? <==> !s.pc[t].Idle?
    ensures p.Preparing? ==> s.completed[t] == 0
    ensures p.Timed? ==> s.completed[t] == 1
    ensures p.Latency? ==> s.completed[t] >= 2
  {
    if !s.pc[t].Idle? then Waiting
    else if s.completed[t] == 0 then Preparing
    else if s.completed[t] == 1 then Timed
    else Latency
  }

  /** Two workers that are both outside the barrier are in the same phase, so no worker
      measures latency while another is timed, and none is timed while another prepares. */
  lemma PhaseSeparation(n: nat, ts: seq<nat>, t: nat, u: nat)
    requires n < WRAP && Schedule(n, ts) && t < n && u < n
    ensures var s := Run(n, ts);
            && (PhaseOf(s, t) == Waiting || PhaseOf(s, u) == Waiting || PhaseOf(s, t) == PhaseOf(s, u))
            && (s.pc[t].Idle? && s.pc[u].Idle? ==> s.completed[t] == s.completed[u])
  {
    RunInv(n, ts);
    var s := Run(n, ts);
    if n > 1 {
      assert ThreadInv(s, t) && ThreadInv(s, u);
    }
  }
}
