/** The one-way stream benchmark as a transition system, with the steps of
    module Loopback: the client sends whole chunks until it has sent `total`
    bytes, the server reads whatever is there until it has read that many. */
module Throughput {
  import opened Loopback

  const CHUNK_BYTES: nat := 64 * 1024
  const MIB: nat := 1024 * 1024

  /** `total` is the number of bytes to stream; the kernel buffers at least one. */
  datatype Config = Config(total: nat, capacity: nat)

  /** The benchmark streams a whole number of MiB. */
  function Streaming(mib: nat, capacity: nat): Config {
    Config(mib * MIB, capacity)
  }

  predicate ValidConfig(c: Config) {
    c.capacity >= 1 && c.total % CHUNK_BYTES == 0
  }

  /** The client has sent `chunks` chunks and `offset` bytes of the next one. */
  datatype Sender = Sender(status: Status, chunks: nat, offset: nat)

  datatype Receiver = Receiver(status: Status, received: nat)

  /** `unread` bytes lie in the channel, whose ends may have been shut down. */
  datatype State = State(client: Sender, server: Receiver, unread: nat, clientClosed: bool, serverClosed: bool)

  /** Both loops test their condition before the first call. */
  function Init(c: Config): State {
    var status := if c.total > 0 then Running else Stopped(false);
    State(Sender(status, 0, 0), Receiver(status, 0), 0, false, false)
  }

  predicate Final(s: State) {
    s.client.status.Stopped? && s.server.status.Stopped?
  }

  predicate Enabled(c: Config, s: State, who: Who, a: Action) {
    match (who, a)
    case (Client, Move(k)) =>
      s.client.status.Running? && 1 <= k && s.client.offset + k <= CHUNK_BYTES && s.unread + k <= c.capacity
    case (Server, Move(k)) => s.server.status.Running? && 1 <= k <= CHUNK_BYTES && k <= s.unread
    case (Client, SeeEof) => false
    case (Server, SeeEof) => s.server.status.Running? && s.unread == 0 && s.clientClosed
    case (Client, Refused) => s.client.status.Running? && s.serverClosed
    case (Server, Refused) => false
    case (Client, Close) => s.client.status.Failing?
    case (Server, Close) => s.server.status.Failing?
    case (Client, CloseFails) => s.client.status.Failing?
    case (Server, CloseFails) => s.server.status.Failing?
    case (Client, _) => s.client.status.Running?
    case (Server, _) => s.server.status.Running?
  }

  /** The client's own work after a call: a chunk that is out counts as sent,
      and the loop goes on while less than `total` has been sent. */
  function Advance(c: Config, p: Sender): Sender {
    if p.offset < CHUNK_BYTES then p
    else Sender(if CHUNK_BYTES * (p.chunks + 1) < c.total then Running else Stopped(false), p.chunks + 1, 0)
  }

  function Step(c: Config, s: State, who: Who, a: Action): State
    requires Enabled(c, s, who, a)
  {
    match (who, a)
    case (_, Interrupted) => s
    case (Client, Move(k)) =>
      s.(client := Advance(c, s.client.(offset := s.client.offset + k)), unread := s.unread + k)
    case (Server, Move(k)) =>
      var received := s.server.received + k;
      s.(server := Receiver(if received < c.total then Running else Stopped(false), received), unread := s.unread - k)
    case (Client, Close) => s.(client := s.client.(status := Stopped(true)), clientClosed := true)
    case (Server, Close) => s.(server := s.server.(status := Stopped(true)), serverClosed := true)
    case (Client, CloseFails) => s.(client := s.client.(status := Stopped(true)))
    case (Server, CloseFails) => s.(server := s.server.(status := Stopped(true)))
    case (Client, _) => s.(client := s.client.(status := Failing))
    case (Server, _) => s.(server := s.server.(status := Failing))
  }

  predicate IsRun(c: Config, s: State, trace: Trace)
    decreases |trace|
  {
    trace == [] ||
    (Enabled(c, s, trace[0].0, trace[0].1) && IsRun(c, Step(c, s, trace[0].0, trace[0].1), trace[1..]))
  }

  function After(c: Config, s: State, trace: Trace): State
    requires IsRun(c, s, trace)
    decreases |trace|
  {
    if trace == [] then s else After(c, Step(c, s, trace[0].0, trace[0].1), trace[1..])
  }

  function Sent(p: Sender): nat {
    CHUNK_BYTES * p.chunks + p.offset
  }

  ghost predicate Inv(c: Config, s: State) {
    && s.server.received + s.unread == Sent(s.client) <= c.total
    && s.unread <= c.capacity && s.client.offset < CHUNK_BYTES
    && (s.client.status == Stopped(false) <==> Sent(s.client) == c.total)
    && (s.server.status == Stopped(false) <==> s.server.received == c.total)
    && (s.clientClosed ==> s.client.status == Stopped(true))
    && (s.serverClosed ==> s.server.status == Stopped(true))
  }

  /** Whole chunks never overshoot a total that is a whole number of chunks. */
  lemma ChunkFits(total: nat, chunks: nat)
    requires total % CHUNK_BYTES == 0 && CHUNK_BYTES * chunks < total
    ensures CHUNK_BYTES * (chunks + 1) <= total
  {
  }

  lemma StepInv(c: Config, s: State, who: Who, a: Action)
    requires ValidConfig(c) && Inv(c, s) && Enabled(c, s, who, a)
    ensures Inv(c, Step(c, s, who, a))
  {
    if who == Client && a.Move? {
      ChunkFits(c.total, s.client.chunks);
    }
  }

  lemma {:induction false} RunInv(c: Config, s: State, trace: Trace)
    requires ValidConfig(c) && Inv(c, s) && IsRun(c, s, trace)
    ensures Inv(c, After(c, s, trace))
    decreases |trace|
  {
    if trace != [] {
      StepInv(c, s, trace[0].0, trace[0].1);
      RunInv(c, Step(c, s, trace[0].0, trace[0].1), trace[1..]);
    }
  }

  /** In every state of every run, received <= sent <= total, and the server
      may not be done before it has everything. */
  lemma RunSafe(c: Config, trace: Trace)
    requires ValidConfig(c) && IsRun(c, Init(c), trace)
    ensures var s := After(c, Init(c), trace);
            && s.server.received <= Sent(s.client) <= c.total
            && (s.server.status == Stopped(false) <==> s.server.received == c.total)
  {
    RunInv(c, Init(c), trace);
  }

  /** The byte-count mismatch branch cannot be reached: when neither side has
      failed, everything sent has been received and nothing is left unread. */
  lemma EndsClean(mib: nat, capacity: nat, trace: Trace)
    requires capacity >= 1
    requires IsRun(Streaming(mib, capacity), Init(Streaming(mib, capacity)), trace)
    requires var s := After(Streaming(mib, capacity), Init(Streaming(mib, capacity)), trace);
             s.client.status == Stopped(false) && s.server.status == Stopped(false)
    ensures var c := Streaming(mib, capacity); var s := After(c, Init(c), trace);
            s.server.received == Sent(s.client) == c.total == 1048576 * mib && s.unread == 0
    ensures Moved(trace, Client) == Moved(trace, Server) == 1048576 * mib
  {
    var c := Streaming(mib, capacity);
    MibIsChunks(mib);
    RunInv(c, Init(c), trace);
    BytesCounted(c, Init(c), trace);
  }

  lemma MibIsChunks(mib: nat)
    ensures (mib * MIB) % CHUNK_BYTES == 0
  {
    assert mib * MIB == CHUNK_BYTES * (16 * mib);
    ChunksDivide(16 * mib);
  }

  lemma ChunksDivide(chunks: nat)
    ensures (CHUNK_BYTES * chunks) % CHUNK_BYTES == 0
  {
  }

  ghost predicate CanProceed(c: Config, s: State, who: Who) {
    exists a :: Productive(a) && Enabled(c, s, who, a)
  }

  /** The thread waits for a peer that has given up and whose `Shutdown` failed:
      only its own time-out, a failing call, ends the wait. */
  ghost predicate Deserted(s: State, who: Who) {
    if who == Client then s.client.status.Running? && s.server.status == Stopped(true) && !s.serverClosed
    else s.server.status.Running? && s.client.status == Stopped(true) && !s.clientClosed
  }

  lemma SomeoneProceeds(c: Config, s: State)
    requires ValidConfig(c) && Inv(c, s) && !Final(s) && !Deserted(s, Client) && !Deserted(s, Server)
    ensures CanProceed(c, s, Client) || CanProceed(c, s, Server)
  {
    if s.client.status.Failing? {
      assert Enabled(c, s, Client, Close);
    } else if s.server.status.Failing? {
      assert Enabled(c, s, Server, Close);
    } else if s.client.status.Running? && (s.unread < c.capacity || s.serverClosed) {
      assert Enabled(c, s, Client, if s.serverClosed then Refused else Move(1));
    } else {
      assert Enabled(c, s, Server, if s.unread == 0 then SeeEof else Move(1));
    }
  }

  /** No run is ever stuck before both threads are done. Only a thread deserted
      by a peer whose `Shutdown` failed may have nothing left but its time-out. */
  lemma NoDeadlock(c: Config, trace: Trace)
    requires ValidConfig(c) && IsRun(c, Init(c), trace) && !Final(After(c, Init(c), trace))
    ensures var s := After(c, Init(c), trace);
            || CanProceed(c, s, Client) || CanProceed(c, s, Server)
            || (exists who :: Deserted(s, who) && Enabled(c, s, who, Fault))
  {
    RunInv(c, Init(c), trace);
    var s := After(c, Init(c), trace);
    if Deserted(s, Client) {
      assert Enabled(c, s, Client, Fault);
    } else if Deserted(s, Server) {
      assert Enabled(c, s, Server, Fault);
    } else {
      SomeoneProceeds(c, s);
    }
  }

  /** While each `Shutdown` takes effect nobody is deserted, whatever else fails. */
  lemma NoDeadlockAfterShutdown(c: Config, trace: Trace)
    requires ValidConfig(c) && IsRun(c, Init(c), trace) && !Final(After(c, Init(c), trace))
    requires forall step <- trace :: !step.1.CloseFails?
    ensures CanProceed(c, After(c, Init(c), trace), Client) || CanProceed(c, After(c, Init(c), trace), Server)
  {
    RunInv(c, Init(c), trace);
    RunNotSilent(c, Init(c), trace);
    SomeoneProceeds(c, After(c, Init(c), trace));
  }

  ghost predicate NoneSilent(s: State) {
    && (s.client.status == Stopped(true) ==> s.clientClosed)
    && (s.server.status == Stopped(true) ==> s.serverClosed)
  }

  lemma {:induction false} RunNotSilent(c: Config, s: State, trace: Trace)
    requires ValidConfig(c) && Inv(c, s) && NoneSilent(s) && IsRun(c, s, trace)
    requires forall step <- trace :: !step.1.CloseFails?
    ensures NoneSilent(After(c, s, trace))
    decreases |trace|
  {
    if trace != [] {
      StepInv(c, s, trace[0].0, trace[0].1);
      assert trace[0] in trace && forall step <- trace[1..] :: step in trace;
      RunNotSilent(c, Step(c, s, trace[0].0, trace[0].1), trace[1..]);
    }
  }

  /** A running thread's call may be interrupted, may fail, and may move any
      number of bytes from one up to all that it asks for and the channel allows. */
  lemma AnyOutcome(c: Config, s: State, who: Who, k: nat)
    requires k >= 1
    requires if who == Client
             then s.client.status.Running? && k <= 65536 - s.client.offset && s.unread + k <= c.capacity
             else s.server.status.Running? && k <= 65536 && k <= s.unread
    ensures Enabled(c, s, who, Move(k)) && Enabled(c, s, who, Interrupted) && Enabled(c, s, who, Fault)
  {
  }

  /** The threads have moved what their calls moved. */
  lemma {:induction false} BytesCounted(c: Config, s: State, trace: Trace)
    requires ValidConfig(c) && Inv(c, s) && IsRun(c, s, trace)
    ensures Sent(After(c, s, trace).client) == Sent(s.client) + Moved(trace, Client)
    ensures After(c, s, trace).server.received == s.server.received + Moved(trace, Server)
    decreases |trace|
  {
    if trace != [] {
      var (who, a) := trace[0];
      StepInv(c, s, who, a);
      assert Sent(Step(c, s, who, a).client) == Sent(s.client) + if who == Client && a.Move? then a.k else 0;
      BytesCounted(c, Step(c, s, who, a), trace[1..]);
    }
  }

  function Measure(c: Config, s: State): int {
    (match s.client.status
     case Running => 2 + c.total - Sent(s.client)
     case Failing => 1
     case Stopped(_) => 0)
    +
    (match s.server.status
     case Running => 2 + c.total - s.server.received
     case Failing => 1
     case Stopped(_) => 0)
  }

  lemma {:induction false} CallsBounded(c: Config, s: State, trace: Trace)
    requires ValidConfig(c) && Inv(c, s) && IsRun(c, s, trace)
    ensures Calls(trace) + Measure(c, After(c, s, trace)) <= Measure(c, s)
    decreases |trace|
  {
    if trace != [] {
      var t := Step(c, s, trace[0].0, trace[0].1);
      StepInv(c, s, trace[0].0, trace[0].1);
      assert trace[0].1.Interrupted? || Measure(c, t) < Measure(c, s);
      CallsBounded(c, t, trace[1..]);
    }
  }

  /** Every run ends: besides interrupted calls there is at most one call per
      byte and side, and two more per thread. */
  lemma RunEnds(c: Config, trace: Trace)
    requires ValidConfig(c) && IsRun(c, Init(c), trace)
    ensures Calls(trace) <= 2 * c.total + 4
  {
    CallsBounded(c, Init(c), trace);
    RunInv(c, Init(c), trace);
  }

  ghost predicate NoError(s: State) {
    s.client.status in {Running, Stopped(false)} && s.server.status in {Running, Stopped(false)}
  }

  lemma {:induction false} FaultFreeNoError(c: Config, s: State, trace: Trace)
    requires ValidConfig(c) && Inv(c, s) && NoError(s) && IsRun(c, s, trace) && FaultFree(trace)
    ensures NoError(After(c, s, trace))
    decreases |trace|
  {
    if trace != [] {
      StepInv(c, s, trace[0].0, trace[0].1);
      assert trace[0] in trace;
      assert forall step <- trace[1..] :: step in trace;
      FaultFreeNoError(c, Step(c, s, trace[0].0, trace[0].1), trace[1..]);
    }
  }

  /** A run in which no call fails and which has come to its end has succeeded. */
  lemma FaultFreeSucceeds(c: Config, trace: Trace)
    requires ValidConfig(c) && IsRun(c, Init(c), trace) && FaultFree(trace)
    requires var s := After(c, Init(c), trace); !CanProceed(c, s, Client) && !CanProceed(c, s, Server)
    ensures var s := After(c, Init(c), trace);
            s.client.status == s.server.status == Stopped(false) && s.server.received == c.total
  {
    FaultFreeNoError(c, Init(c), trace);
    RunInv(c, Init(c), trace);
    if !Final(After(c, Init(c), trace)) {
      SomeoneProceeds(c, After(c, Init(c), trace));
    }
  }

  // --- Totals that are not whole chunks ------------------------------------------

  /** What the client sends in the end: the total, up to a whole chunk. */
  function RoundUp(total: nat): nat {
    CHUNK_BYTES * ((total + CHUNK_BYTES - 1) / CHUNK_BYTES)
  }

  /** The state after so many bytes sent and received, without any error. */
  function At(c: Config, sent: nat, received: nat): State
    requires received <= sent
  {
    State(Sender(if sent < RoundUp(c.total) then Running else Stopped(false), sent / CHUNK_BYTES, sent % CHUNK_BYTES),
          Receiver(if received < c.total then Running else Stopped(false), received),
          sent - received, false, false)
  }

  lemma SendOne(c: Config, sent: nat, received: nat)
    requires received <= sent < RoundUp(c.total) && sent - received < c.capacity
    ensures Enabled(c, At(c, sent, received), Client, Move(1))
    ensures Step(c, At(c, sent, received), Client, Move(1)) == At(c, sent + 1, received)
  {
    NextByte(sent);
    WholeChunksSent(c.total, sent / CHUNK_BYTES + 1);
  }

  lemma NextByte(n: nat)
    ensures if n % CHUNK_BYTES + 1 < CHUNK_BYTES
            then (n + 1) / CHUNK_BYTES == n / CHUNK_BYTES && (n + 1) % CHUNK_BYTES == n % CHUNK_BYTES + 1
            else (n + 1) / CHUNK_BYTES == n / CHUNK_BYTES + 1 && (n + 1) % CHUNK_BYTES == 0
    ensures n == CHUNK_BYTES * (n / CHUNK_BYTES) + n % CHUNK_BYTES
  {
  }

  /** The loop condition and the final count agree after whole chunks. */
  lemma WholeChunksSent(total: nat, chunks: nat)
    ensures CHUNK_BYTES * chunks < total <==> CHUNK_BYTES * chunks < RoundUp(total)
    ensures RoundUp(total) % CHUNK_BYTES == 0
  {
  }

  lemma ReceiveSome(c: Config, sent: nat, received: nat, k: nat)
    requires received + k <= sent && received < c.total && 1 <= k <= CHUNK_BYTES
    ensures Enabled(c, At(c, sent, received), Server, Move(k))
    ensures Step(c, At(c, sent, received), Server, Move(k)) == At(c, sent, received + k)
  {
  }

  /** A run without failing calls leads there. */
  ghost predicate Reachable(c: Config, s: State) {
    exists trace :: IsRun(c, Init(c), trace) && FaultFree(trace) && After(c, Init(c), trace) == s
  }

  lemma {:induction false} RunOn(c: Config, s: State, trace: Trace, who: Who, a: Action)
    requires IsRun(c, s, trace) && Enabled(c, After(c, s, trace), who, a)
    ensures IsRun(c, s, trace + [(who, a)])
    ensures After(c, s, trace + [(who, a)]) == Step(c, After(c, s, trace), who, a)
    decreases |trace|
  {
    if trace == [] {
      var last: Trace := [(who, a)];
      assert trace + [(who, a)] == last && last[1..] == [];
      assert IsRun(c, Step(c, s, who, a), last[1..]);
    } else {
      assert (trace + [(who, a)])[1..] == trace[1..] + [(who, a)];
      RunOn(c, Step(c, s, trace[0].0, trace[0].1), trace[1..], who, a);
    }
  }

  lemma ReachOn(c: Config, s: State, who: Who, a: Action)
    requires Reachable(c, s) && Enabled(c, s, who, a) && !Fails(a)
    ensures Reachable(c, Step(c, s, who, a))
  {
    var trace :| IsRun(c, Init(c), trace) && FaultFree(trace) && After(c, Init(c), trace) == s;
    RunOn(c, Init(c), trace, who, a);
    assert FaultFree(trace + [(who, a)]);
  }

  /** The client may send ahead as far as the buffer goes. */
  lemma {:induction false} ReachSent(c: Config, sent: nat, received: nat)
    requires received <= sent <= RoundUp(c.total) && sent - received <= c.capacity
    requires Reachable(c, At(c, received, received))
    ensures Reachable(c, At(c, sent, received))
    decreases sent
  {
    if received < sent {
      ReachSent(c, sent - 1, received);
      SendOne(c, sent - 1, received);
      ReachOn(c, At(c, sent - 1, received), Client, Move(1));
    }
  }

  /** The server may read byte by byte what is there. */
  lemma {:induction false} ReachReceived(c: Config, sent: nat, received: nat)
    requires received <= sent && received <= c.total && Reachable(c, At(c, sent, 0))
    ensures Reachable(c, At(c, sent, received))
  {
    if received > 0 {
      ReachReceived(c, sent, received - 1);
      ReceiveSome(c, sent, received - 1, 1);
      ReachOn(c, At(c, sent, received - 1), Server, Move(1));
    }
  }

  lemma InitIsAt(c: Config)
    requires c.total > 0
    ensures Reachable(c, At(c, 0, 0))
  {
    var trace: Trace := [];
    assert IsRun(c, Init(c), trace) && FaultFree(trace) && After(c, Init(c), trace) == At(c, 0, 0);
  }

  /** Byte after byte, sent and read at once. */
  lemma {:induction false} ReachBoth(c: Config, n: nat)
    requires c.total > 0 && c.capacity >= 1 && n <= c.total
    ensures Reachable(c, At(c, n, n))
  {
    if n == 0 {
      InitIsAt(c);
    } else {
      ReachBoth(c, n - 1);
      ReachSent(c, n, n - 1);
      ReceiveSome(c, n, n - 1, 1);
      ReachOn(c, At(c, n, n - 1), Server, Move(1));
    }
  }

  ghost predicate Stuck(c: Config, s: State) {
    !Final(s) && !CanProceed(c, s, Client) && !CanProceed(c, s, Server)
  }

  /** With a buffer too small for the rest of the last chunk a run without
      failing calls gets stuck: the server leaves with its total while the
      client has more to send than the buffer takes. */
  lemma SmallBufferSticks(c: Config)
    requires 1 <= c.capacity < CHUNK_BYTES - c.total % CHUNK_BYTES && c.total % CHUNK_BYTES != 0
    ensures exists s :: Reachable(c, s) && Stuck(c, s)
  {
    var s := At(c, c.total + c.capacity, c.total);
    RestOfChunk(c.total);
    ReachBoth(c, c.total);
    ReachSent(c, c.total + c.capacity, c.total);
    FullBufferSticks(c, s);
  }

  lemma RestOfChunk(total: nat)
    requires total % CHUNK_BYTES != 0
    ensures RoundUp(total) == total + CHUNK_BYTES - total % CHUNK_BYTES
  {
  }

  lemma FullBufferSticks(c: Config, s: State)
    requires s.client.status.Running? && s.server.status.Stopped? && s.unread == c.capacity && !s.serverClosed
    ensures Stuck(c, s)
  {
  }

  /** With a buffer for all of it a run without failing calls may end, without
      an error, with more received than the total: the mismatch is reported. */
  lemma LargeBufferOvershoots(c: Config)
    requires c.capacity >= RoundUp(c.total) && c.total % CHUNK_BYTES != 0
    ensures exists s :: Reachable(c, s) && Final(s) && NoError(s) && s.server.received > c.total
  {
    var all := RoundUp(c.total);
    RestOfChunk(c.total);
    InitIsAt(c);
    ReachSent(c, all, 0);
    ReachReceived(c, all, c.total - 1);
    ReceiveSome(c, all, c.total - 1, all - c.total + 1);
    ReachOn(c, At(c, all, c.total - 1), Server, Move(all - c.total + 1));
    var s := At(c, all, all);
    assert Final(s) && NoError(s) && s.server.received > c.total;
  }

  /** Without failing calls, to come to an end is to have delivered the total. */
  ghost predicate Delivers(c: Config) {
    forall s | Reachable(c, s) && !CanProceed(c, s, Client) && !CanProceed(c, s, Server) ::
      s.client.status == s.server.status == Stopped(false) && s.server.received == c.total
  }

  /** That the benchmark works over every buffer is exactly that its total is a
      whole number of chunks. */
  lemma WholeChunksExactly(total: nat)
    ensures (forall capacity: nat | capacity >= 1 :: Delivers(Config(total, capacity))) <==> total % 65536 == 0
  {
    if total % CHUNK_BYTES == 0 {
      forall capacity: nat | capacity >= 1
        ensures Delivers(Config(total, capacity))
      {
        WholeChunksDeliver(Config(total, capacity));
      }
    } else {
      var c := Config(total, RoundUp(total));
      LargeBufferOvershoots(c);
      var s :| Reachable(c, s) && Final(s) && NoError(s) && s.server.received > c.total;
      assert !Delivers(c);
    }
  }

  lemma WholeChunksDeliver(c: Config)
    requires ValidConfig(c)
    ensures Delivers(c)
  {
    forall s | Reachable(c, s) && !CanProceed(c, s, Client) && !CanProceed(c, s, Server)
      ensures s.client.status == s.server.status == Stopped(false) && s.server.received == c.total
    {
      var trace :| IsRun(c, Init(c), trace) && FaultFree(trace) && After(c, Init(c), trace) == s;
      FaultFreeSucceeds(c, trace);
    }
  }
}
