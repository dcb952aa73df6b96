/** The two-party ping-pong over byte channels: `rtt_side` writes sz bytes and reads sz bytes
    back, `echo_side` reads sz bytes and writes them, both for a fixed number of rounds.

    Writes are whole, a read returns any positive number of the bytes waiting, up to what
    is still missing, and puts them at the start of the buffer, as the source does.  The two
    sides interleave arbitrarily. */
module PingPong {
  import opened Options
  import opened Words

  datatype Client = CSend(i: nat) | CRecv(i: nat, got: nat) | CDone
  datatype Server = SRecv(i: nat, got: nat) | SSend(i: nat) | SDone

  /** One message the server has answered: what the client wrote, the server's buffer before
      the reads, the sizes of the reads, and what the server wrote. */
  datatype Exchange = Exchange(request: string, start: string, parts: seq<nat>, echo: string)

  datatype State = State(client: Client, server: Server, toServer: string, toClient: string,
                         clientBuf: string, serverBuf: string,
                         request: string, start: string, parts: seq<nat>, done: seq<Exchange>)

  datatype Action = ClientSend | ClientRecv(r: nat) | ServerRecv(r: nat) | ServerSend

  /** Rounds and the initial buffers.  Only their first sz bytes are ever touched. */
  datatype Setup = Setup(rounds: nat, client: string, server: string) {
    const sz: nat := |client|
  }

  type Config = c: Setup | |c.server| == |c.client| witness Setup(0, "", "")

  // ----- control flow between two calls -----

  function ClientRound(c: Config, i: nat): Client {
    if i < c.rounds then CSend(i) else CDone
  }

  function ClientReading(c: Config, i: nat, got: nat): Client {
    if got < c.sz then CRecv(i, got) else ClientRound(c, i + 1)
  }

  function ServerReading(c: Config, i: nat, got: nat): Server {
    if got < c.sz then SRecv(i, got) else SSend(i)
  }

  function ServerRound(c: Config, i: nat): Server {
    if i < c.rounds then ServerReading(c, i, 0) else SDone
  }

  function Init(c: Config): State {
    State(ClientRound(c, 0), ServerRound(c, 0), "", "", c.client, c.server, "", c.server, [], [])
  }

  /** A read puts its bytes at the start of the buffer, wherever the message stands. */
  function Overlay(buf: string, part: string): string {
    part + (if |part| <= |buf| then buf[|part|..] else [])
  }

  /** Calls that would not block. */
  predicate Enabled(c: Config, s: State, a: Action) {
    match a
    case ClientSend => s.client.CSend?
    case ClientRecv(r) => s.client.CRecv? && 0 < r <= |s.toClient| && r + s.client.got <= c.sz
    case ServerRecv(r) => s.server.SRecv? && 0 < r <= |s.toServer| && r + s.server.got <= c.sz
    case ServerSend => s.server.SSend?
  }

  function Do(c: Config, s: State, a: Action): State
    requires Enabled(c, s, a)
  {
    match a
    case ClientSend =>
      s.(toServer := s.toServer + s.clientBuf, request := s.clientBuf, client := ClientReading(c, s.client.i, 0))
    case ClientRecv(r) =>
      s.(toClient := s.toClient[r..], clientBuf := Overlay(s.clientBuf, s.toClient[..r]),
         client := ClientReading(c, s.client.i, s.client.got + r))
    case ServerRecv(r) =>
      s.(toServer := s.toServer[r..], serverBuf := Overlay(s.serverBuf, s.toServer[..r]), parts := s.parts + [r],
         server := ServerReading(c, s.server.i, s.server.got + r))
    case ServerSend =>
      s.(toClient := s.toClient + s.serverBuf, start := s.serverBuf, parts := [],
         done := s.done + [Exchange(s.request, s.start, s.parts, s.serverBuf)],
         server := ServerRound(c, s.server.i + 1))
  }

  /** The state after the actions, if each was possible when its turn came. */
  function Run(c: Config, acts: seq<Action>): Option<State> {
    if acts == [] then Some(Init(c))
    else
      match Run(c, acts[..|acts| - 1])
      case None => None
      case Some(p) =>
        var a := acts[|acts| - 1];
        if Enabled(c, p, a) then Some(Do(c, p, a)) else None
  }

  ghost predicate Reaches(c: Config, acts: seq<Action>, s: State) {
    Run(c, acts) == Some(s)
  }

  // ----- the invariant -----

  function ClientRounds(c: Config, s: State): nat {
    if s.client.CDone? then c.rounds else s.client.i
  }

  function ServerRounds(c: Config, s: State): nat {
    if s.server.SDone? then c.rounds else s.server.i
  }

  /** The server holds, or has yet to read, the client's message of round i. */
  ghost predicate AtServer(c: Config, s: State, i: nat) {
    match s.server
    case SRecv(j, g) => j == i && g < c.sz && |s.toServer| == c.sz - g
    case SSend(j) => j == i && s.toServer == []
    case SDone => false
  }

  ghost predicate Inv(c: Config, s: State) {
    && |s.clientBuf| == |s.serverBuf| == c.sz
    && Turns(c, s)
  }

  ghost predicate Turns(c: Config, s: State) {
    if c.sz == 0 then
      && s.toServer == s.toClient == []
      && !s.client.CRecv? && !s.server.SRecv?
      && ClientRounds(c, s) <= c.rounds && ServerRounds(c, s) <= c.rounds
      && (s.client.CSend? ==> s.client.i < c.rounds) && (s.server.SSend? ==> s.server.i < c.rounds)
    else
      match s.client
      case CSend(i) =>
        i < c.rounds && s.toServer == s.toClient == [] && s.server == SRecv(i, 0)
      case CRecv(i, got) =>
        && i < c.rounds && got < c.sz
        && if s.server == ServerRound(c, i + 1) then s.toServer == [] && |s.toClient| == c.sz - got
           else AtServer(c, s, i) && got == 0 && s.toClient == []
      case CDone =>
        s.server == SDone && s.toServer == s.toClient == []
  }

  lemma StepInv(c: Config, s: State, a: Action)
    requires Inv(c, s) && Enabled(c, s, a)
    ensures Inv(c, Do(c, s, a))
  {
  }

  lemma {:induction false} RunInv(c: Config, acts: seq<Action>, s: State)
    requires Reaches(c, acts, s)
    ensures Inv(c, s)
  {
    if acts != [] {
      var p := Run(c, acts[..|acts| - 1]).value;
      RunInv(c, acts[..|acts| - 1], p);
      StepInv(c, p, acts[|acts| - 1]);
    }
  }

  // ----- what the protocol guarantees -----

  /** At most one message is in flight, counting both directions, in every reachable state. */
  lemma InFlightBound(c: Config, acts: seq<Action>, s: State)
    requires Reaches(c, acts, s)
    ensures |s.toServer| + |s.toClient| <= c.sz
  {
    RunInv(c, acts, s);
  }

  /** Every write finds both channels empty, so a buffer of sz bytes never blocks a writer. */
  lemma WritesToEmpty(c: Config, acts: seq<Action>, s: State)
    requires Reaches(c, acts, s) && (s.client.CSend? || s.server.SSend?)
    ensures s.toServer == s.toClient == []
  {
    RunInv(c, acts, s);
  }

  lemma {:induction false} LockStepHolds(c: Config, acts: seq<Action>, s: State)
    requires Reaches(c, acts, s) && c.sz > 0
    ensures ClientRounds(c, s) <= ServerRounds(c, s) <= ClientRounds(c, s) + 1
  {
    RunInv(c, acts, s);
  }

  lemma RunExtends(c: Config, acts: seq<Action>, s: State, a: Action)
    requires Reaches(c, acts, s) && Enabled(c, s, a)
    ensures Reaches(c, acts + [a], Do(c, s, a))
  {
    assert (acts + [a])[..|acts + [a]| - 1] == acts;
  }

  /** Empty messages carry no turn: after two client sends the server may not have moved. */
  lemma EmptyMessagesRunAhead(c: Config) returns (acts: seq<Action>, s: State)
    requires c.sz == 0 && c.rounds >= 2
    ensures Reaches(c, acts, s) && ClientRounds(c, s) == ServerRounds(c, s) + 2
  {
    hide Run;
    acts, s := [], Init(c);
    InitReached(c);
    RunExtends(c, acts, s, ClientSend);
    acts, s := acts + [ClientSend], Do(c, s, ClientSend);
    RunExtends(c, acts, s, ClientSend);
    acts, s := acts + [ClientSend], Do(c, s, ClientSend);
  }

  lemma InitReached(c: Config)
    ensures Reaches(c, [], Init(c))
  {
  }

  /** The two round counters stay within one of each other in every reachable state if and
      only if messages are not empty or there is at most one round. */
  lemma LockStepIff(c: Config)
    ensures (forall acts, s :: Reaches(c, acts, s) ==>
               ClientRounds(c, s) - 1 <= ServerRounds(c, s) <= ClientRounds(c, s) + 1)
            <==> c.sz > 0 || c.rounds <= 1
  {
    if c.sz > 0 || c.rounds <= 1 {
      forall acts, s | Reaches(c, acts, s)
        ensures ClientRounds(c, s) - 1 <= ServerRounds(c, s) <= ClientRounds(c, s) + 1
      {
        RunInv(c, acts, s);
        if c.sz > 0 { LockStepHolds(c, acts, s); }
      }
    } else {
      var acts, s := EmptyMessagesRunAhead(c);
    }
  }

  predicate Finished(s: State) {
    s.client.CDone? && s.server.SDone?
  }

  /** No reachable state is stuck before both sides have finished. */
  lemma NoDeadlock(c: Config, acts: seq<Action>, s: State)
    requires Reaches(c, acts, s)
    ensures Finished(s) || exists a :: Enabled(c, s, a)
  {
    RunInv(c, acts, s);
    if s.client.CSend? {
      assert Enabled(c, s, ClientSend);
    } else if s.server.SSend? {
      assert Enabled(c, s, ServerSend);
    } else if s.client.CRecv? && s.toClient != [] {
      assert Enabled(c, s, ClientRecv(1));
    } else if s.server.SRecv? && s.toServer != [] {
      assert Enabled(c, s, ServerRecv(1));
    }
  }

  // ----- every run is finite -----

  /** Calls and bytes left, with sz + 1 for a round. */
  function ClientLeft(c: Config, s: State): int {
    match s.client
    case CSend(i) => Rest(c, i)
    case CRecv(i, got) => Rest(c, i) - 1 - got
    case CDone => 0
  }

  function ServerLeft(c: Config, s: State): int {
    match s.server
    case SRecv(i, got) => Rest(c, i) - got
    case SSend(i) => Rest(c, i) - c.sz
    case SDone => 0
  }

  function Rest(c: Config, i: nat): int {
    (c.rounds - i) * (c.sz + 1)
  }

  lemma RoundLeft(c: Config, i: nat)
    requires i < c.rounds
    ensures Rest(c, i) == Rest(c, i + 1) + c.sz + 1 && Rest(c, i + 1) >= 0
    ensures i + 1 == c.rounds ==> Rest(c, i + 1) == 0
  {
    Distribute(c.rounds - i - 1, c.sz + 1);
  }

  lemma StepSpends(c: Config, s: State, a: Action)
    requires Inv(c, s) && Enabled(c, s, a)
    ensures ClientLeft(c, Do(c, s, a)) + ServerLeft(c, Do(c, s, a)) < ClientLeft(c, s) + ServerLeft(c, s)
  {
    hide Rest, Overlay;
    if !s.client.CDone? { RoundLeft(c, s.client.i); }
    if !s.server.SDone? { RoundLeft(c, s.server.i); }
  }

  lemma LeftNonNegative(c: Config, s: State)
    requires Inv(c, s)
    ensures ClientLeft(c, s) >= 0 && ServerLeft(c, s) >= 0
  {
    hide Rest;
    if !s.client.CDone? { RoundLeft(c, s.client.i); }
    if !s.server.SDone? { RoundLeft(c, s.server.i); }
  }

  lemma {:induction false} RunSpends(c: Config, acts: seq<Action>, s: State)
    requires Reaches(c, acts, s)
    ensures |acts| + ClientLeft(c, s) + ServerLeft(c, s) <= 2 * c.rounds * (c.sz + 1)
  {
    if acts == [] {
      assert Rest(c, 0) + Rest(c, 0) == 2 * c.rounds * (c.sz + 1);
    } else {
      var p := Run(c, acts[..|acts| - 1]).value;
      RunSpends(c, acts[..|acts| - 1], p);
      RunInv(c, acts[..|acts| - 1], p);
      StepSpends(c, p, acts[|acts| - 1]);
    }
  }

  /** However reads are split and sides scheduled, no run is longer than 2 * rounds * (sz + 1)
      calls, and one that cannot go on has made exactly `rounds` rounds on both sides and
      left no byte behind. */
  lemma RunsFinish(c: Config, acts: seq<Action>, s: State)
    requires Reaches(c, acts, s)
    ensures |acts| <= 2 * c.rounds * (c.sz + 1)
    ensures (forall a :: !Enabled(c, s, a)) ==>
      ClientRounds(c, s) == ServerRounds(c, s) == c.rounds && s.toServer == s.toClient == []
  {
    RunInv(c, acts, s);
    RunSpends(c, acts, s);
    LeftNonNegative(c, s);
    NoDeadlock(c, acts, s);
  }

  // ----- what a message becomes -----

  function Sum(rs: seq<nat>): nat {
    if rs == [] then 0 else Sum(rs[..|rs| - 1]) + rs[|rs| - 1]
  }

  /** Reads of the given sizes, none empty, cover n bytes. */
  predicate Split(n: nat, rs: seq<nat>) {
    Sum(rs) == n && forall k :: 0 <= k < |rs| ==> rs[k] > 0
  }

  /** The buffer after reading msg in parts of the given sizes. */
  function Buf(buf: string, msg: string, rs: seq<nat>): (b: string)
    requires Sum(rs) <= |msg|
    ensures |buf| == |msg| ==> |b| == |buf|
  {
    if rs == [] then buf
    else
      var at := Sum(rs[..|rs| - 1]);
      Overlay(Buf(buf, msg, rs[..|rs| - 1]), msg[at..Sum(rs)])
  }

  lemma SumAppend(rs: seq<nat>, r: nat)
    ensures Sum(rs + [r]) == Sum(rs) + r
  {
    assert (rs + [r])[..|rs|] == rs;
  }

  lemma BufAppend(buf: string, msg: string, rs: seq<nat>, r: nat)
    requires Sum(rs) + r <= |msg|
    ensures Sum(rs + [r]) == Sum(rs) + r
    ensures Buf(buf, msg, rs + [r]) == Overlay(Buf(buf, msg, rs), msg[Sum(rs)..Sum(rs) + r])
  {
    SumAppend(rs, r);
    assert (rs + [r])[..|rs|] == rs;
  }

  lemma {:induction false} PartsBelow(n: nat, rs: seq<nat>)
    requires Split(n, rs)
    ensures |rs| <= n && (|rs| >= 2 ==> forall k :: 0 <= k < |rs| ==> rs[k] < n)
    ensures |rs| == 1 ==> rs == [n]
    decreases |rs|
  {
    if rs != [] {
      var init := rs[..|rs| - 1];
      PartsBelow(Sum(init), init);
      if |rs| == 1 {
        assert init == [] && rs == [rs[0]];
      }
      forall k | 0 <= k < |init| ensures rs[k] <= Sum(init) {
        PartAtMost(init, k);
      }
    }
  }

  lemma {:induction false} PartAtMost(rs: seq<nat>, k: nat)
    requires k < |rs|
    ensures rs[k] <= Sum(rs)
  {
    if k < |rs| - 1 {
      PartAtMost(rs[..|rs| - 1], k);
    }
  }

  /** Bytes beyond the longest part keep what was in the buffer. */
  lemma {:induction false} TailKept(buf: string, msg: string, rs: seq<nat>, i: nat)
    requires Sum(rs) <= |msg| == |buf| && i < |buf| && forall k :: 0 <= k < |rs| ==> rs[k] <= i
    ensures Buf(buf, msg, rs)[i] == buf[i]
  {
    if rs != [] {
      TailKept(buf, msg, rs[..|rs| - 1], i);
    }
  }

  lemma OneRead(buf: string, msg: string)
    requires |buf| == |msg|
    ensures Sum([|msg|]) == |msg| && Buf(buf, msg, [|msg|]) == msg
  {
    hide Buf, Sum, Overlay;
    NoReads(buf, msg);
    BufAppend(buf, msg, [], |msg|);
    assert [] + [|msg|] == [|msg|];
    OverlayAll(buf, msg);
  }

  lemma OverlayAll(buf: string, msg: string)
    requires |buf| == |msg|
    ensures Overlay(buf, msg[0..|msg|]) == msg
  {
    assert buf[|msg|..] == [] && msg[0..|msg|] == msg;
  }

  ghost predicate AlwaysCopies(n: nat, rs: seq<nat>)
    requires Split(n, rs)
  {
    forall buf, msg :: |buf| == |msg| == n ==> Buf(buf, msg, rs) == msg
  }

  /** A way of splitting the reads reproduces every message over every buffer if and only if it
      is a single read: otherwise the last byte is never written. */
  lemma SplitExact(n: nat, rs: seq<nat>)
    requires n > 0 && Split(n, rs)
    ensures AlwaysCopies(n, rs) <==> |rs| == 1
  {
    PartsBelow(n, rs);
    if |rs| == 1 {
      forall buf, msg | |buf| == |msg| == n ensures Buf(buf, msg, rs) == msg {
        OneRead(buf, msg);
      }
    } else {
      var buf, msg := seq(n, _ => 'b'), seq(n, _ => 'm');
      TailKept(buf, msg, rs, n - 1);
      assert Buf(buf, msg, rs)[n - 1] != msg[n - 1];
    }
  }

  // ----- every echo of every run -----

  /** The echo is what the reads made of the request. */
  ghost predicate Explained(c: Config, e: Exchange) {
    && |e.request| == |e.start| == c.sz && Split(c.sz, e.parts)
    && e.echo == Buf(e.start, e.request, e.parts)
  }

  /** The client's message is in the channel or being read. */
  predicate Pending(c: Config, s: State) {
    s.client.CRecv? && s.server != ServerRound(c, s.client.i + 1)
  }

  ghost predicate Reading(c: Config, s: State) {
    && |s.start| == c.sz && Sum(s.parts) <= |s.request|
    && (forall k :: 0 <= k < |s.parts| ==> s.parts[k] > 0)
    && s.serverBuf == Buf(s.start, s.request, s.parts)
    && (if Pending(c, s) || c.sz == 0
        then |s.request| == c.sz && s.toServer == s.request[Sum(s.parts)..]
        else s.parts == [])
  }

  ghost predicate Contents(c: Config, s: State) {
    Reading(c, s) && forall k :: 0 <= k < |s.done| ==> Explained(c, s.done[k])
  }

  lemma ClientKeepsReading(c: Config, s: State, a: Action)
    requires Inv(c, s) && Enabled(c, s, a) && Reading(c, s) && (a.ClientSend? || a.ClientRecv?)
    ensures Reading(c, Do(c, s, a))
  {
    hide Overlay;
  }

  lemma ReadKeepsReading(c: Config, s: State, r: nat)
    requires Inv(c, s) && Enabled(c, s, ServerRecv(r)) && Reading(c, s)
    ensures Reading(c, Do(c, s, ServerRecv(r)))
  {
    hide Overlay, Sum, Buf;
    assert s.toServer == s.request[Sum(s.parts)..];
    assert s.toServer[..r] == s.request[Sum(s.parts)..Sum(s.parts) + r];
    BufAppend(s.start, s.request, s.parts, r);
    assert s.toServer[r..] == s.request[Sum(s.parts) + r..];
  }

  lemma SendExplained(c: Config, s: State)
    requires Inv(c, s) && Enabled(c, s, ServerSend) && Reading(c, s)
    ensures Reading(c, Do(c, s, ServerSend))
    ensures Explained(c, Exchange(s.request, s.start, s.parts, s.serverBuf))
  {
    assert s.toServer == [];
  }

  lemma StepReading(c: Config, s: State, a: Action)
    requires Inv(c, s) && Enabled(c, s, a) && Reading(c, s)
    ensures Reading(c, Do(c, s, a))
    ensures a.ServerSend? ==> Explained(c, Exchange(s.request, s.start, s.parts, s.serverBuf))
  {
    hide Inv, Reading, Explained;
    match a
    case ClientSend => ClientKeepsReading(c, s, a);
    case ClientRecv(_) => ClientKeepsReading(c, s, a);
    case ServerRecv(r) => ReadKeepsReading(c, s, r);
    case ServerSend => SendExplained(c, s);
  }

  lemma InitContents(c: Config)
    ensures Contents(c, Init(c))
  {
  }

  lemma StepContents(c: Config, s: State, a: Action)
    requires Inv(c, s) && Enabled(c, s, a) && Contents(c, s)
    ensures Contents(c, Do(c, s, a))
  {
    hide Inv, Reading, Explained;
    StepReading(c, s, a);
  }

  lemma {:induction false} RunContents(c: Config, acts: seq<Action>, s: State)
    requires Reaches(c, acts, s)
    ensures Contents(c, s)
  {
    hide Inv, Contents, Enabled, Do, Init;
    if acts == [] {
      InitContents(c);
    } else {
      var p := Run(c, acts[..|acts| - 1]).value;
      RunContents(c, acts[..|acts| - 1], p);
      RunInv(c, acts[..|acts| - 1], p);
      StepContents(c, p, acts[|acts| - 1]);
    }
  }

  /** In every run every echo is the request as its reads left it; a request that was read in one
      piece comes back unchanged. */
  lemma EveryEcho(c: Config, acts: seq<Action>, s: State, k: nat)
    requires Reaches(c, acts, s) && k < |s.done|
    ensures Explained(c, s.done[k])
    ensures |s.done[k].parts| <= 1 ==> s.done[k].echo == s.done[k].request
  {
    RunContents(c, acts, s);
    var e := s.done[k];
    PartsBelow(c.sz, e.parts);
    if |e.parts| == 1 {
      OneRead(e.start, e.request);
    }
  }

  // ----- what the client sends next -----

  /** buf is the client's buffer once it has read `got` bytes of the echo over its request.  With
      `whole`, in at most one read. */
  ghost predicate PartlyRead(request: string, echo: string, got: nat, buf: string, whole: bool) {
    exists rs :: Split(got, rs) && got <= |echo| && (whole ==> |rs| <= 1) && buf == Buf(request, echo, rs)
  }

  /** The next request is what the client's reads made of the echo. */
  ghost predicate Follows(c: Config, e: Exchange, next: string, whole: bool) {
    PartlyRead(e.request, e.echo, c.sz, next, whole)
  }

  /** next is what the client may send after the exchanges so far. */
  ghost predicate NextRequest(c: Config, done: seq<Exchange>, next: string, whole: bool) {
    if done == [] then next == c.client else Follows(c, done[|done| - 1], next, whole)
  }

  ghost predicate Chained(c: Config, done: seq<Exchange>, whole: bool) {
    forall k :: 0 <= k < |done| ==> NextRequest(c, done[..k], done[k].request, whole)
  }

  /** Where the client stands between its last request and the server's last echo. */
  ghost predicate ClientInv(c: Config, s: State, whole: bool) {
    match s.client
    case CSend(i) => NextRequest(c, s.done, s.clientBuf, whole)
    case CRecv(i, got) =>
      && |s.request| == c.sz
      && if Pending(c, s) then s.clientBuf == s.request && NextRequest(c, s.done, s.request, whole)
         else Answered(s, got, whole)
    case CDone => c.rounds > 0 ==> NextRequest(c, s.done, s.clientBuf, whole)
  }

  /** The last exchange is the answer, and what is unread of its echo waits in the channel. */
  ghost predicate Answered(s: State, got: nat, whole: bool) {
    && s.done != []
    && var e := s.done[|s.done| - 1];
       && e.request == s.request && got <= |e.echo| && s.toClient == e.echo[got..]
       && PartlyRead(s.request, e.echo, got, s.clientBuf, whole)
  }

  lemma ReadOn(request: string, echo: string, got: nat, buf: string, r: nat, whole: bool)
    requires PartlyRead(request, echo, got, buf, whole) && 0 < r && got + r <= |echo| && (whole ==> got == 0)
    ensures PartlyRead(request, echo, got + r, Overlay(buf, echo[got..got + r]), whole)
  {
    hide Buf, Overlay, Sum;
    var rs :| Split(got, rs) && got <= |echo| && (whole ==> |rs| <= 1) && buf == Buf(request, echo, rs);
    SplitOn(got, rs, r);
    BufAppend(request, echo, rs, r);
    PartsBelow(got, rs);
    assert |rs + [r]| == |rs| + 1;
  }

  lemma SplitOn(n: nat, rs: seq<nat>, r: nat)
    requires Split(n, rs) && r > 0
    ensures Sum(rs) == n && Split(n + r, rs + [r])
  {
    hide Sum;
    SumAppend(rs, r);
  }

  /** A whole read leaves exactly the echo. */
  lemma WholeFollows(c: Config, e: Exchange, next: string)
    requires c.sz > 0 && |e.request| == |e.echo| == c.sz && Follows(c, e, next, true)
    ensures next == e.echo
  {
    hide Buf, Sum;
    var rs :| Split(c.sz, rs) && c.sz <= |e.echo| && |rs| <= 1 && next == Buf(e.request, e.echo, rs);
    NoReads(e.request, e.echo);
    PartsBelow(c.sz, rs);
    OneRead(e.request, e.echo);
  }

  lemma NothingRead(request: string, echo: string, whole: bool)
    ensures PartlyRead(request, echo, 0, request, whole)
  {
    NoReads(request, echo);
    assert Split(0, []);
  }

  lemma ChainOn(c: Config, done: seq<Exchange>, e: Exchange, whole: bool)
    requires Chained(c, done, whole) && NextRequest(c, done, e.request, whole)
    ensures Chained(c, done + [e], whole)
  {
    var more := done + [e];
    forall k | 0 <= k < |more| ensures NextRequest(c, more[..k], more[k].request, whole) {
      assert more[..k] == done[..k];
      assert done[..|done|] == done;
    }
  }

  /** A read of the whole message, when reads are to be whole. */
  predicate WholeRead(c: Config, a: Action) {
    match a
    case ClientRecv(r) => r == c.sz
    case ServerRecv(r) => r == c.sz
    case _ => true
  }

  lemma ClientReads(c: Config, s: State, r: nat, whole: bool)
    requires c.sz > 0 && Inv(c, s) && Enabled(c, s, ClientRecv(r)) && ClientInv(c, s, whole)
    requires whole ==> r == c.sz
    ensures ClientInv(c, Do(c, s, ClientRecv(r)), whole)
  {
    hide Overlay, Buf, PartlyRead;
    var got, e := s.client.got, s.done[|s.done| - 1];
    assert !Pending(c, s);
    ReadOn(s.request, e.echo, got, s.clientBuf, r, whole);
    assert s.toClient[..r] == e.echo[got..got + r] && s.toClient[r..] == e.echo[got + r..];
    assert |e.echo| == c.sz;
  }

  lemma ServerAnswers(c: Config, s: State, whole: bool)
    requires c.sz > 0 && Inv(c, s) && Enabled(c, s, ServerSend) && ClientInv(c, s, whole)
    ensures ClientInv(c, Do(c, s, ServerSend), whole)
    ensures NextRequest(c, s.done, s.request, whole)
  {
    hide Buf, PartlyRead;
    assert Pending(c, s);
    NothingRead(s.request, s.serverBuf, whole);
    assert s.toClient + s.serverBuf == s.serverBuf[0..];
  }

  lemma StepClient(c: Config, s: State, a: Action, whole: bool)
    requires c.sz > 0 && Inv(c, s) && Enabled(c, s, a) && ClientInv(c, s, whole) && Chained(c, s.done, whole)
    requires whole ==> WholeRead(c, a)
    ensures ClientInv(c, Do(c, s, a), whole) && Chained(c, Do(c, s, a).done, whole)
  {
    hide Overlay, Buf, PartlyRead, Chained;
    match a
    case ClientSend =>
    case ClientRecv(r) => ClientReads(c, s, r, whole);
    case ServerRecv(r) =>
    case ServerSend =>
      ServerAnswers(c, s, whole);
      ChainOn(c, s.done, Exchange(s.request, s.start, s.parts, s.serverBuf), whole);
  }

  predicate WholeReads(c: Config, acts: seq<Action>) {
    forall i :: 0 <= i < |acts| ==> WholeRead(c, acts[i])
  }

  lemma {:induction false} RunClient(c: Config, acts: seq<Action>, s: State, whole: bool)
    requires c.sz > 0 && Reaches(c, acts, s) && (whole ==> WholeReads(c, acts))
    ensures ClientInv(c, s, whole) && Chained(c, s.done, whole)
  {
    hide Inv, ClientInv, Chained, Enabled, Do, Init, WholeRead;
    if acts == [] {
      ClientStarts(c, whole);
    } else {
      var p := Run(c, acts[..|acts| - 1]).value;
      RunClient(c, acts[..|acts| - 1], p, whole);
      RunInv(c, acts[..|acts| - 1], p);
      StepClient(c, p, acts[|acts| - 1], whole);
    }
  }

  lemma ClientStarts(c: Config, whole: bool)
    requires c.sz > 0
    ensures ClientInv(c, Init(c), whole) && Chained(c, Init(c).done, whole)
  {
  }

  /** In every run the first request is the client's buffer, and each later one is the previous
      request with the echo to it read over it in some split. */
  lemma RequestsChain(c: Config, acts: seq<Action>, s: State, k: nat)
    requires c.sz > 0 && Reaches(c, acts, s) && k < |s.done|
    ensures k == 0 ==> s.done[k].request == c.client
    ensures k > 0 ==> exists rs :: Split(c.sz, rs) && |s.done[k - 1].echo| == c.sz &&
                                   s.done[k].request == Buf(s.done[k - 1].request, s.done[k - 1].echo, rs)
  {
    hide Reaches, Buf;
    RunClient(c, acts, s, false);
    assert NextRequest(c, s.done[..k], s.done[k].request, false);
    if k > 0 {
      EveryEcho(c, acts, s, k - 1);
      var rs :| Split(c.sz, rs) && c.sz <= |s.done[k - 1].echo| &&
                s.done[k].request == Buf(s.done[k - 1].request, s.done[k - 1].echo, rs);
    }
  }

  /** What waits for the client is the unread end of the server's last echo. */
  lemma UnreadEcho(c: Config, acts: seq<Action>, s: State)
    requires c.sz > 0 && Reaches(c, acts, s) && s.toClient != []
    ensures s.client.CRecv? && s.done != []
    ensures s.client.got <= c.sz == |s.done[|s.done| - 1].echo|
    ensures s.toClient == s.done[|s.done| - 1].echo[s.client.got..]
  {
    hide Reaches, Buf;
    RunInv(c, acts, s);
    RunClient(c, acts, s, false);
    EveryEcho(c, acts, s, |s.done| - 1);
  }

  lemma {:induction false} WholeParts(c: Config, acts: seq<Action>, s: State)
    requires c.sz > 0 && Reaches(c, acts, s) && WholeReads(c, acts)
    ensures |s.parts| <= 1 && (s.server.SRecv? ==> s.parts == [])
    ensures forall k :: 0 <= k < |s.done| ==> |s.done[k].parts| <= 1
  {
    if acts != [] {
      var p := Run(c, acts[..|acts| - 1]).value;
      WholeParts(c, acts[..|acts| - 1], p);
      RunInv(c, acts[..|acts| - 1], p);
      RunContents(c, acts[..|acts| - 1], p);
    }
  }

  /** When every read is whole, every request and every echo of the run is the client's message. */
  lemma {:induction false} WholeRuns(c: Config, acts: seq<Action>, s: State, k: nat)
    requires c.sz > 0 && Reaches(c, acts, s) && WholeReads(c, acts) && k < |s.done|
    ensures s.done[k].request == s.done[k].echo == c.client
  {
    hide Reaches, Buf, WholeReads, Follows;
    RunClient(c, acts, s, true);
    WholeParts(c, acts, s);
    EveryEcho(c, acts, s, k);
    assert NextRequest(c, s.done[..k], s.done[k].request, true);
    if k > 0 {
      WholeRuns(c, acts, s, k - 1);
      WholeFollows(c, s.done[k - 1], s.done[k].request);
    }
  }

  // ----- when every run echoes correctly -----

  ghost predicate Faithful(s: State) {
    forall k :: 0 <= k < |s.done| ==> s.done[k].echo == s.done[k].request
  }

  /** All of the client's bytes and all but the first of the server's are the same. */
  predicate Uniform(c: Config) {
    && (forall i :: 0 <= i < c.sz ==> c.client[i] == c.client[0])
    && (forall i :: 0 < i < c.sz ==> c.server[i] == c.client[0])
  }

  function Recvs(rs: seq<nat>): seq<Action> {
    if rs == [] then [] else Recvs(rs[..|rs| - 1]) + [ServerRecv(rs[|rs| - 1])]
  }

  /** The first message after reads of the given sizes. */
  function AfterReads(c: Config, rs: seq<nat>): State
    requires Sum(rs) <= c.sz
  {
    State(CRecv(0, 0), ServerReading(c, 0, Sum(rs)), c.client[Sum(rs)..], "", c.client,
          Buf(c.server, c.client, rs), c.client, c.server, rs, [])
  }

  lemma FirstSend(c: Config)
    requires c.rounds > 0 && c.sz > 0
    ensures Reaches(c, [ClientSend], AfterReads(c, []))
  {
    RunExtends(c, [], Init(c), ClientSend);
    assert "" + c.client == c.client == c.client[0..];
    assert [] + [ClientSend] == [ClientSend];
  }

  lemma ReadMore(c: Config, rs: seq<nat>, r: nat)
    requires 0 < r && Sum(rs) + r <= c.sz
    ensures Enabled(c, AfterReads(c, rs), ServerRecv(r)) && Sum(rs + [r]) == Sum(rs) + r
    ensures Do(c, AfterReads(c, rs), ServerRecv(r)) == AfterReads(c, rs + [r])
  {
    hide Buf, Sum, Overlay;
    BufAppend(c.server, c.client, rs, r);
    var rest, at := c.client[Sum(rs)..], Sum(rs);
    assert rest[..r] == c.client[at..at + r] && rest[r..] == c.client[at + r..];
  }

  lemma {:induction false} ReadsReached(c: Config, rs: seq<nat>)
    requires c.rounds > 0 && c.sz > 0 && Sum(rs) <= c.sz && forall k :: 0 <= k < |rs| ==> rs[k] > 0
    ensures Reaches(c, [ClientSend] + Recvs(rs), AfterReads(c, rs))
    decreases |rs|
  {
    hide Reaches, AfterReads, Do, Enabled;
    if rs == [] {
      FirstSend(c);
      assert [ClientSend] + Recvs(rs) == [ClientSend];
    } else {
      var init, r := rs[..|rs| - 1], rs[|rs| - 1];
      ReadsReached(c, init);
      ReadMore(c, init, r);
      RunExtends(c, [ClientSend] + Recvs(init), AfterReads(c, init), ServerRecv(r));
      assert init + [r] == rs;
      assert [ClientSend] + Recvs(init) + [ServerRecv(r)] == [ClientSend] + Recvs(rs);
    }
  }

  /** Every way of splitting the first message is the first exchange of some run. */
  lemma EverySplitHappens(c: Config, rs: seq<nat>) returns (acts: seq<Action>, s: State)
    requires c.rounds > 0 && c.sz > 0 && Split(c.sz, rs)
    ensures Reaches(c, acts, s)
    ensures s.done == [Exchange(c.client, c.server, rs, Buf(c.server, c.client, rs))]
  {
    hide Run, Buf, Sum;
    ReadsReached(c, rs);
    acts, s := [ClientSend] + Recvs(rs), AfterReads(c, rs);
    RunExtends(c, acts, s, ServerSend);
    acts, s := acts + [ServerSend], Do(c, s, ServerSend);
  }

  lemma OverlayLast(buf: string, msg: string)
    requires |buf| == |msg| >= 2
    ensures var one := Overlay(buf, msg[0..1]);
            Overlay(one, msg[1..1 + (|msg| - 1)]) == msg[1..] + [buf[|msg| - 1]]
  {
    var n, one := |msg|, Overlay(buf, msg[0..1]);
    assert |one| == n && one[n - 1..] == [buf[n - 1]];
  }

  lemma TwoReads(buf: string, msg: string)
    requires |buf| == |msg| >= 2
    ensures Split(|msg|, [1, |msg| - 1])
    ensures Buf(buf, msg, [1, |msg| - 1]) == msg[1..] + [buf[|msg| - 1]]
  {
    hide Buf, Sum, Overlay;
    FirstByte(buf, msg);
    BufAppend(buf, msg, [1], |msg| - 1);
    assert [1] + [|msg| - 1] == [1, |msg| - 1];
    OverlayLast(buf, msg);
  }

  lemma FirstByte(buf: string, msg: string)
    requires msg != []
    ensures Sum([1]) == 1 && Buf(buf, msg, [1]) == Overlay(buf, msg[0..1])
  {
    hide Buf, Sum, Overlay;
    NoReads(buf, msg);
    BufAppend(buf, msg, [], 1);
    assert [] + [1] == [1];
  }

  lemma NoReads(buf: string, msg: string)
    ensures Sum([]) == 0 && Buf(buf, msg, []) == buf
  {
  }

  function Ones(k: nat): seq<nat> {
    if k == 0 then [] else Ones(k - 1) + [1]
  }

  lemma {:induction false} ByteReads(buf: string, msg: string, k: nat)
    requires |buf| == |msg| && k <= |msg|
    ensures Split(k, Ones(k))
    ensures k > 0 ==> Buf(buf, msg, Ones(k)) == [msg[k - 1]] + buf[1..]
  {
    hide Buf, Sum;
    NoReads(buf, msg);
    if k > 0 {
      ByteReads(buf, msg, k - 1);
      BufAppend(buf, msg, Ones(k - 1), 1);
    }
  }

  lemma {:induction false} ConstantFrom(msg: string, i: nat)
    requires i < |msg| && forall k :: 0 <= k < |msg| - 1 ==> msg[k] == msg[k + 1]
    ensures msg[i] == msg[0]
  {
    if i > 0 {
      ConstantFrom(msg, i - 1);
    }
  }

  /** If two reads and byte-wise reads both reproduce the message, the bytes are uniform. */
  lemma CopiesAreUniform(c: Config)
    requires c.sz >= 2
    requires c.client[1..] + [c.server[c.sz - 1]] == c.client
    requires [c.client[c.sz - 1]] + c.server[1..] == c.client
    ensures Uniform(c)
  {
    var m, t := c.client, c.client[1..] + [c.server[c.sz - 1]];
    forall k | 0 <= k < |m| - 1 ensures m[k] == m[k + 1] {
      assert t[k] == m[k + 1];
    }
    forall i | 0 <= i < |m| ensures m[i] == m[0] {
      ConstantFrom(m, i);
    }
    forall i | 0 < i < |m| ensures c.server[i] == m[0] {
      assert ([m[|m| - 1]] + c.server[1..])[i] == c.server[i];
    }
  }

  lemma WrongEcho(c: Config) returns (acts: seq<Action>, s: State)
    requires c.rounds > 0 && c.sz >= 2 && !Uniform(c)
    ensures Reaches(c, acts, s) && !Faithful(s)
  {
    hide Reaches, Buf, Uniform;
    var n := c.sz;
    TwoReads(c.server, c.client);
    ByteReads(c.server, c.client, n);
    if Buf(c.server, c.client, [1, n - 1]) != c.client {
      acts, s := EverySplitHappens(c, [1, n - 1]);
    } else {
      if Buf(c.server, c.client, Ones(n)) == c.client { CopiesAreUniform(c); }
      acts, s := EverySplitHappens(c, Ones(n));
    }
    assert s.done[0].echo != s.done[0].request;
  }

  /** "ab" read as two single bytes into a buffer holding "xy" comes back as "by". */
  lemma WrongEchoExample() returns (acts: seq<Action>, s: State)
    ensures Reaches(Setup(1, "ab", "xy"), acts, s)
    ensures s.done == [Exchange("ab", "xy", [1, 1], "by")]
  {
    hide Reaches, Buf;
    TwoReads("xy", "ab");
    assert "ab"[1..] + ["xy"[1]] == "by";
    acts, s := EverySplitHappens(Setup(1, "ab", "xy"), [1, 1]);
  }

  // ----- uniform bytes stay uniform -----

  predicate Only(b: string, x: char) {
    forall i :: 0 <= i < |b| ==> b[i] == x
  }

  ghost predicate OnlyX(s: State, x: char) {
    && Only(s.toServer, x) && Only(s.toClient, x) && Only(s.clientBuf, x) && Only(s.request, x)
    && (forall i :: 0 < i < |s.serverBuf| ==> s.serverBuf[i] == x)
    && (s.parts != [] ==> Only(s.serverBuf, x))
  }

  lemma OverlayOnly(buf: string, part: string, x: char)
    requires Only(part, x) && part != [] && forall i :: 0 < i < |buf| ==> buf[i] == x
    ensures Only(Overlay(buf, part), x)
  {
  }

  lemma StepOnly(c: Config, s: State, a: Action, x: char)
    requires Inv(c, s) && Reading(c, s) && Enabled(c, s, a) && OnlyX(s, x) && c.sz > 0
    ensures OnlyX(Do(c, s, a), x)
    ensures a.ServerSend? ==> s.serverBuf == s.request
  {
    hide Overlay, Buf;
    match a
    case ClientSend =>
    case ClientRecv(r) => OverlayOnly(s.clientBuf, s.toClient[..r], x);
    case ServerRecv(r) => OverlayOnly(s.serverBuf, s.toServer[..r], x);
    case ServerSend =>
      assert s.toServer == [] && Sum(s.parts) == c.sz;
  }

  lemma StepFaithful(c: Config, s: State, a: Action)
    requires Enabled(c, s, a) && Faithful(s) && (a.ServerSend? ==> s.serverBuf == s.request)
    ensures Faithful(Do(c, s, a))
  {
  }

  lemma {:induction false} UniformRuns(c: Config, acts: seq<Action>, s: State)
    requires Reaches(c, acts, s) && c.sz > 0 && Uniform(c)
    ensures OnlyX(s, c.client[0]) && Faithful(s)
  {
    hide Inv, Reading, Enabled, Do, OnlyX, Faithful;
    if acts == [] {
      UniformStart(c);
    } else {
      var p, a := Run(c, acts[..|acts| - 1]).value, acts[|acts| - 1];
      UniformRuns(c, acts[..|acts| - 1], p);
      RunInv(c, acts[..|acts| - 1], p);
      RunContents(c, acts[..|acts| - 1], p);
      StepOnly(c, p, a, c.client[0]);
      StepFaithful(c, p, a);
    }
  }

  lemma UniformStart(c: Config)
    requires c.sz > 0 && Uniform(c)
    ensures OnlyX(Init(c), c.client[0]) && Faithful(Init(c))
  {
  }

  lemma NoRounds(c: Config, acts: seq<Action>, s: State)
    requires Reaches(c, acts, s) && c.rounds == 0
    ensures acts == []
  {
    if acts != [] {
      RunInv(c, acts[..|acts| - 1], Run(c, acts[..|acts| - 1]).value);
    }
  }

  lemma ShortMessages(c: Config, acts: seq<Action>, s: State)
    requires Reaches(c, acts, s) && c.sz <= 1
    ensures Faithful(s)
  {
    hide Reaches;
    forall k | 0 <= k < |s.done| ensures s.done[k].echo == s.done[k].request {
      EveryEcho(c, acts, s, k);
      PartsBelow(c.sz, s.done[k].parts);
    }
  }

  /** Every run echoes every message unchanged if and only if there are no rounds, messages have
      at most one byte, or the bytes are uniform so that the damage does not show. */
  lemma EchoIff(c: Config)
    ensures (forall acts, s :: Reaches(c, acts, s) ==> Faithful(s)) <==> c.rounds == 0 || c.sz <= 1 || Uniform(c)
  {
    hide Reaches, Faithful, Uniform;
    if c.rounds == 0 || c.sz <= 1 || Uniform(c) {
      forall acts, s | Reaches(c, acts, s) ensures Faithful(s) {
        if c.sz <= 1 {
          ShortMessages(c, acts, s);
        } else if Uniform(c) {
          UniformRuns(c, acts, s);
        } else {
          NoRounds(c, acts, s);
          StartFaithful(c, s);
        }
      }
    } else {
      var acts, s := WrongEcho(c);
    }
  }

  lemma StartFaithful(c: Config, s: State)
    requires Reaches(c, [], s)
    ensures Faithful(s)
  {
  }
}
