/** The round-trip benchmark: two threads that exchange fixed-size messages over
    one TCP connection, as a transition system. A step is one system call with
    whatever it moved, together with the thread's own work up to its next call;
    the environment picks which thread steps, how many bytes move, and when a
    call is interrupted or fails. */
module RoundTrips {
  import opened Common
  import opened Loopback

  const MESSAGE_BYTES: nat := 64
  const WARMUP_ROUNDS: nat := 256

  type Message = m: seq<byte> | |m| == MESSAGE_BYTES witness Zeros()

  function Zeros(): seq<byte> {
    seq(MESSAGE_BYTES, i => 0)
  }

  /** One direction of the connection: bytes accepted from the writer and not
      yet read, and which of its two ends has been shut down. */
  datatype Channel = Channel(data: seq<byte>, writerClosed: bool, readerClosed: bool)

  datatype Phase = Sending | Receiving

  /** A thread: `index` messages exchanged before this one, `offset` bytes of
      the current message already sent or received, and its message buffer
      (`reply` for the client, `echo` for the server). */
  datatype Peer = Peer(status: Status, index: nat, phase: Phase, offset: nat, buffer: Message)

  /** `up` leads from the client to the server. */
  datatype State = State(client: Peer, server: Peer, up: Channel, down: Channel)

  /** The parameters of a run; buffers in the kernel hold at least one byte. */
  datatype Config = Config(rounds: nat, request: Message, upCapacity: nat, downCapacity: nat)

  predicate ValidConfig(c: Config) {
    c.upCapacity >= 1 && c.downCapacity >= 1
  }

  function Exchanges(c: Config): nat {
    WARMUP_ROUNDS + c.rounds
  }

  function First(who: Who): Phase {
    if who == Client then Sending else Receiving
  }

  function Start(who: Who): Peer {
    Peer(Running, 0, First(who), 0, Zeros())
  }

  function Init(): State {
    State(Start(Client), Start(Server), Channel([], false, false), Channel([], false, false))
  }

  predicate Final(s: State) {
    s.client.status.Stopped? && s.server.status.Stopped?
  }

  function Get(s: State, who: Who): Peer {
    if who == Client then s.client else s.server
  }

  function Out(s: State, who: Who): Channel {
    if who == Client then s.up else s.down
  }

  function In(s: State, who: Who): Channel {
    if who == Client then s.down else s.up
  }

  function OutCapacity(c: Config, who: Who): nat {
    if who == Client then c.upCapacity else c.downCapacity
  }

  function Put(s: State, who: Who, p: Peer, output: Channel, input: Channel): State {
    if who == Client then State(p, s.server, output, input) else State(s.client, p, input, output)
  }

  /** What the thread's send loop sends. */
  function Source(c: Config, who: Who, p: Peer): Message {
    if who == Client then c.request else p.buffer
  }

  predicate Enabled(c: Config, s: State, who: Who, a: Action) {
    var p := Get(s, who);
    match a
    case Move(k) =>
      && p.status.Running? && 1 <= k && p.offset + k <= MESSAGE_BYTES
      && if p.phase.Sending? then |Out(s, who).data| + k <= OutCapacity(c, who) else k <= |In(s, who).data|
    case Interrupted => p.status.Running?
    case Fault => p.status.Running?
    case SeeEof => p.status.Running? && p.phase.Receiving? && In(s, who).data == [] && In(s, who).writerClosed
    case Refused => p.status.Running? && p.phase.Sending? && Out(s, who).readerClosed
    case Close => p.status.Failing?
    case CloseFails => p.status.Failing?
  }

  /** The thread's own work once a message is complete: the client turns from
      sending to receiving, the server from receiving to sending, and after the
      second half of the last exchange the loop is over. */
  function Advance(c: Config, who: Who, p: Peer): Peer {
    if p.offset < MESSAGE_BYTES then p
    else if p.phase == First(who) then p.(phase := if p.phase.Sending? then Receiving else Sending, offset := 0)
    else p.(status := if p.index + 1 < Exchanges(c) then Running else Stopped(false),
            index := p.index + 1, phase := First(who), offset := 0)
  }

  /** Received bytes go where the message is filled up to. */
  function Take(p: Peer, chunk: seq<byte>): Peer
    requires p.offset + |chunk| <= MESSAGE_BYTES
  {
    p.(offset := p.offset + |chunk|, buffer := p.buffer[..p.offset] + chunk + p.buffer[p.offset + |chunk|..])
  }

  function Step(c: Config, s: State, who: Who, a: Action): State
    requires Enabled(c, s, who, a)
  {
    var p, output, input := Get(s, who), Out(s, who), In(s, who);
    match a
    case Move(k) =>
      if p.phase.Sending? then
        var sent := Source(c, who, p)[p.offset..p.offset + k];
        Put(s, who, Advance(c, who, p.(offset := p.offset + k)), output.(data := output.data + sent), input)
      else
        Put(s, who, Advance(c, who, Take(p, input.data[..k])), output, input.(data := input.data[k..]))
    case Interrupted => s
    case Fault => Put(s, who, p.(status := Failing), output, input)
    case SeeEof => Put(s, who, p.(status := Failing), output, input)
    case Refused => Put(s, who, p.(status := Failing), output, input)
    case Close => Put(s, who, p.(status := Stopped(true)),
                      output.(writerClosed := true), input.(readerClosed := true))
    case CloseFails => Put(s, who, p.(status := Stopped(true)), output, input)
  }

  predicate IsRun(c: Config, s: State, trace: Trace)
    decreases |trace|
  {
    trace == [] ||
    (Enabled(c, s, trace[0].0, trace[0].1) && IsRun(c, Step(c, s, trace[0].0, trace[0].1), trace[1..]))
  }

  function After(c: Config, s: State, trace: Trace): State
    requires IsRun(c, s, trace)
    decreases |trace|
  {
    if trace == [] then s else After(c, Step(c, s, trace[0].0, trace[0].1), trace[1..])
  }

  // --- What every reachable state satisfies ---------------------------------

  /** Bytes a thread has sent, and received, since the start. */
  function Sent(who: Who, p: Peer): nat {
    MESSAGE_BYTES * p.index + if p.phase.Sending? then p.offset else if who == Client then MESSAGE_BYTES else 0
  }

  function Received(who: Who, p: Peer): nat {
    MESSAGE_BYTES * p.index + if p.phase.Receiving? then p.offset else if who == Server then MESSAGE_BYTES else 0
  }

  /** Byte n of the stream in which every message is the request. */
  function StreamByte(c: Config, n: nat): byte {
    c.request[n % MESSAGE_BYTES]
  }

  ghost predicate PeerOk(c: Config, who: Who, p: Peer) {
    && (p.status == Stopped(false) <==> p.index == Exchanges(c))
    && p.index <= Exchanges(c) && p.offset < MESSAGE_BYTES
    && (p.status == Stopped(false) ==> p.phase == First(who) && p.offset == 0)
    && (forall k | 0 <= k < Filled(who, p) :: p.buffer[k] == c.request[k])
  }

  /** How much of the buffer holds bytes of the request: all of it once one
      message has been received. */
  function Filled(who: Who, p: Peer): nat {
    if p.index > 0 || (who == Server && p.phase.Sending?) then MESSAGE_BYTES
    else if p.phase.Receiving? then p.offset
    else 0
  }

  ghost predicate ChannelOk(c: Config, ch: Channel, capacity: nat, sent: nat, received: nat) {
    && received + |ch.data| == sent
    && |ch.data| <= capacity
    && forall k | 0 <= k < |ch.data| :: ch.data[k] == StreamByte(c, received + k)
  }

  ghost predicate Inv(c: Config, s: State) {
    && PeerOk(c, Client, s.client) && PeerOk(c, Server, s.server)
    && ChannelOk(c, s.up, c.upCapacity, Sent(Client, s.client), Received(Server, s.server))
    && ChannelOk(c, s.down, c.downCapacity, Sent(Server, s.server), Received(Client, s.client))
    && (s.up.writerClosed ==> s.client.status == Stopped(true)) && s.up.writerClosed == s.down.readerClosed
    && (s.down.writerClosed ==> s.server.status == Stopped(true)) && s.down.writerClosed == s.up.readerClosed
  }

  lemma InitInv(c: Config)
    requires ValidConfig(c)
    ensures Inv(c, Init())
  {
  }

  /** Byte `offset` of message `index` is that byte of the request. */
  lemma StreamAt(c: Config, index: nat, offset: nat)
    requires offset < MESSAGE_BYTES
    ensures StreamByte(c, MESSAGE_BYTES * index + offset) == c.request[offset]
  {
  }

  lemma ChannelSend(c: Config, ch: Channel, capacity: nat, index: nat, offset: nat, k: nat, received: nat, sent: nat)
    requires ChannelOk(c, ch, capacity, MESSAGE_BYTES * index + offset, received)
    requires offset + k <= MESSAGE_BYTES && |ch.data| + k <= capacity && sent == MESSAGE_BYTES * index + offset + k
    ensures ChannelOk(c, ch.(data := ch.data + c.request[offset..offset + k]), capacity, sent, received)
  {
    var data := ch.data + c.request[offset..offset + k];
    forall m | 0 <= m < |data|
      ensures data[m] == StreamByte(c, received + m)
    {
      if m >= |ch.data| {
        StreamAt(c, index, offset + (m - |ch.data|));
      }
    }
  }

  lemma ChannelReceive(c: Config, ch: Channel, capacity: nat, sent: nat, index: nat, offset: nat, k: nat, received: nat)
    requires ChannelOk(c, ch, capacity, sent, MESSAGE_BYTES * index + offset)
    requires offset + k <= MESSAGE_BYTES && k <= |ch.data| && received == MESSAGE_BYTES * index + offset + k
    ensures ChannelOk(c, ch.(data := ch.data[k..]), capacity, sent, received)
  {
  }

  lemma RequestComes(c: Config, ch: Channel, capacity: nat, sent: nat, index: nat, offset: nat, k: nat)
    requires ChannelOk(c, ch, capacity, sent, MESSAGE_BYTES * index + offset)
    requires offset + k <= MESSAGE_BYTES && k <= |ch.data|
    ensures ch.data[..k] == c.request[offset..offset + k]
  {
    forall m | 0 <= m < k
      ensures ch.data[m] == c.request[offset + m]
    {
      StreamAt(c, index, offset + m);
    }
  }

  /** Finishing a message changes neither count nor what the buffer holds. */
  lemma AdvanceOk(c: Config, who: Who, p: Peer)
    requires p.status.Running? && p.index < Exchanges(c) && p.offset <= MESSAGE_BYTES
    requires forall k | 0 <= k < Filled(who, p) :: p.buffer[k] == c.request[k]
    ensures PeerOk(c, who, Advance(c, who, p))
    ensures Sent(who, Advance(c, who, p)) == Sent(who, p) && Received(who, Advance(c, who, p)) == Received(who, p)
    ensures Advance(c, who, p).status in {Running, Stopped(false)}
  {
  }

  /** The invariant, seen from one thread. */
  ghost predicate InvOf(c: Config, who: Who, p: Peer, q: Peer, output: Channel, input: Channel) {
    && PeerOk(c, who, p) && PeerOk(c, Other(who), q)
    && ChannelOk(c, output, OutCapacity(c, who), Sent(who, p), Received(Other(who), q))
    && ChannelOk(c, input, OutCapacity(c, Other(who)), Sent(Other(who), q), Received(who, p))
    && (output.writerClosed ==> p.status == Stopped(true)) && output.writerClosed == input.readerClosed
    && (input.writerClosed ==> q.status == Stopped(true)) && input.writerClosed == output.readerClosed
  }

  lemma InvView(c: Config, s: State, who: Who)
    requires Inv(c, s)
    ensures InvOf(c, who, Get(s, who), Get(s, Other(who)), Out(s, who), In(s, who))
  {
  }

  lemma PutInv(c: Config, s: State, who: Who, p: Peer, output: Channel, input: Channel)
    requires InvOf(c, who, p, Get(s, Other(who)), output, input)
    ensures Inv(c, Put(s, who, p, output, input))
  {
  }

  lemma SentOk(c: Config, who: Who, p: Peer, k: nat)
    requires PeerOk(c, who, p) && p.status.Running? && p.phase.Sending? && p.offset + k <= MESSAGE_BYTES
    ensures var r := Advance(c, who, p.(offset := p.offset + k));
            && PeerOk(c, who, r) && r.status in {Running, Stopped(false)}
            && Sent(who, r) == Sent(who, p) + k && Received(who, r) == Received(who, p)
  {
    AdvanceOk(c, who, p.(offset := p.offset + k));
  }

  lemma SendInv(c: Config, who: Who, p: Peer, q: Peer, output: Channel, input: Channel, k: nat)
    requires InvOf(c, who, p, q, output, input) && p.status.Running? && p.phase.Sending?
    requires p.offset + k <= MESSAGE_BYTES && |output.data| + k <= OutCapacity(c, who)
    ensures InvOf(c, who, Advance(c, who, p.(offset := p.offset + k)), q,
                  output.(data := output.data + Source(c, who, p)[p.offset..p.offset + k]), input)
  {
    assert Source(c, who, p) == c.request;
    SentOk(c, who, p, k);
    ChannelSend(c, output, OutCapacity(c, who), p.index, p.offset, k, Received(Other(who), q),
                Sent(who, Advance(c, who, p.(offset := p.offset + k))));
  }

  /** Bytes of the request, received at their place, extend what the buffer holds. */
  lemma TakeOk(c: Config, who: Who, p: Peer, chunk: seq<byte>)
    requires p.phase.Receiving? && p.offset + |chunk| <= MESSAGE_BYTES
    requires forall k | 0 <= k < Filled(who, p) :: p.buffer[k] == c.request[k]
    requires chunk == c.request[p.offset..p.offset + |chunk|]
    ensures forall k | 0 <= k < Filled(who, Take(p, chunk)) :: Take(p, chunk).buffer[k] == c.request[k]
  {
  }

  lemma ReceivedOk(c: Config, who: Who, p: Peer, chunk: seq<byte>)
    requires PeerOk(c, who, p) && p.status.Running? && p.phase.Receiving? && p.offset + |chunk| <= MESSAGE_BYTES
    requires chunk == c.request[p.offset..p.offset + |chunk|]
    ensures var r := Advance(c, who, Take(p, chunk));
            && PeerOk(c, who, r) && r.status in {Running, Stopped(false)}
            && Sent(who, r) == Sent(who, p) && Received(who, r) == Received(who, p) + |chunk|
  {
    TakeOk(c, who, p, chunk);
    AdvanceOk(c, who, Take(p, chunk));
  }

  lemma ReceiveInv(c: Config, who: Who, p: Peer, q: Peer, output: Channel, input: Channel, k: nat)
    requires InvOf(c, who, p, q, output, input) && p.status.Running? && p.phase.Receiving?
    requires p.offset + k <= MESSAGE_BYTES && k <= |input.data|
    ensures InvOf(c, who, Advance(c, who, Take(p, input.data[..k])), q, output, input.(data := input.data[k..]))
  {
    RequestComes(c, input, OutCapacity(c, Other(who)), Sent(Other(who), q), p.index, p.offset, k);
    ReceiveChunk(c, who, p, q, output, input, input.data[..k], input.(data := input.data[k..]));
  }

  lemma ReceiveChunk(c: Config, who: Who, p: Peer, q: Peer, output: Channel, input: Channel, chunk: seq<byte>, less: Channel)
    requires InvOf(c, who, p, q, output, input) && p.status.Running? && p.phase.Receiving?
    requires p.offset + |chunk| <= MESSAGE_BYTES && chunk == c.request[p.offset..p.offset + |chunk|]
    requires |chunk| <= |input.data| && less == input.(data := input.data[|chunk|..])
    ensures InvOf(c, who, Advance(c, who, Take(p, chunk)), q, output, less)
  {
    var r := Advance(c, who, Take(p, chunk));
    ReceivedOk(c, who, p, chunk);
    ChannelReceive(c, input, OutCapacity(c, Other(who)), Sent(Other(who), q), p.index, p.offset, |chunk|, Received(who, r));
    InputReplaced(c, who, p, q, output, input, r, less);
  }

  lemma InputReplaced(c: Config, who: Who, p: Peer, q: Peer, output: Channel, input: Channel, r: Peer, less: Channel)
    requires InvOf(c, who, p, q, output, input) && p.status.Running?
    requires PeerOk(c, who, r) && r.status in {Running, Stopped(false)} && Sent(who, r) == Sent(who, p)
    requires ChannelOk(c, less, OutCapacity(c, Other(who)), Sent(Other(who), q), Received(who, r))
    requires less == input.(data := less.data)
    ensures InvOf(c, who, r, q, output, less)
  {
  }

  lemma SendStep(c: Config, s: State, who: Who, k: nat)
    requires Inv(c, s) && Enabled(c, s, who, Move(k)) && Get(s, who).phase.Sending?
    ensures Inv(c, Step(c, s, who, Move(k)))
  {
    var p, output := Get(s, who), Out(s, who);
    var q, more := Advance(c, who, p.(offset := p.offset + k)),
                   output.(data := output.data + Source(c, who, p)[p.offset..p.offset + k]);
    InvView(c, s, who);
    SendInv(c, who, p, Get(s, Other(who)), output, In(s, who), k);
    PutInv(c, s, who, q, more, In(s, who));
    StepIsSend(c, s, who, k, q, more);
  }

  lemma StepIsSend(c: Config, s: State, who: Who, k: nat, q: Peer, more: Channel)
    requires Enabled(c, s, who, Move(k)) && Get(s, who).phase.Sending?
    requires q == Advance(c, who, Get(s, who).(offset := Get(s, who).offset + k))
    requires var p, output := Get(s, who), Out(s, who);
             more == output.(data := output.data + Source(c, who, p)[p.offset..p.offset + k])
    ensures Step(c, s, who, Move(k)) == Put(s, who, q, more, In(s, who))
  {
  }

  lemma ReceiveStep(c: Config, s: State, who: Who, k: nat)
    requires Inv(c, s) && Enabled(c, s, who, Move(k)) && Get(s, who).phase.Receiving?
    ensures Inv(c, Step(c, s, who, Move(k)))
  {
    var p, input := Get(s, who), In(s, who);
    var q, less := Advance(c, who, Take(p, input.data[..k])), input.(data := input.data[k..]);
    InvView(c, s, who);
    ReceiveInv(c, who, p, Get(s, Other(who)), Out(s, who), input, k);
    PutInv(c, s, who, q, Out(s, who), less);
    StepIsReceive(c, s, who, k, q, less);
  }

  lemma StepIsReceive(c: Config, s: State, who: Who, k: nat, q: Peer, less: Channel)
    requires Enabled(c, s, who, Move(k)) && Get(s, who).phase.Receiving?
    requires q == Advance(c, who, Take(Get(s, who), In(s, who).data[..k]))
    requires less == In(s, who).(data := In(s, who).data[k..])
    ensures Step(c, s, who, Move(k)) == Put(s, who, q, Out(s, who), less)
  {
  }

  /** Giving up changes the status only; a shutdown also closes the channels' ends. */
  lemma GiveUpInv(c: Config, who: Who, p: Peer, q: Peer, output: Channel, input: Channel, close: bool)
    requires InvOf(c, who, p, q, output, input) && p.status in {Running, Failing} && (close ==> p.status.Failing?)
    ensures var r := p.(status := if p.status.Running? then Failing else Stopped(true));
            InvOf(c, who, r, q, if close then output.(writerClosed := true) else output,
                  if close then input.(readerClosed := true) else input)
  {
  }

  lemma FailStep(c: Config, s: State, who: Who, a: Action)
    requires Inv(c, s) && Enabled(c, s, who, a) && !a.Move?
    ensures Inv(c, Step(c, s, who, a))
  {
    if a.Interrupted? {
      return;
    }
    var p, q, output, input := Get(s, who), Get(s, Other(who)), Out(s, who), In(s, who);
    var r := p.(status := if p.status.Running? then Failing else Stopped(true));
    InvView(c, s, who);
    GiveUpInv(c, who, p, q, output, input, a.Close?);
    PutInv(c, s, who, r, if a.Close? then output.(writerClosed := true) else output,
           if a.Close? then input.(readerClosed := true) else input);
  }

  lemma StepInv(c: Config, s: State, who: Who, a: Action)
    requires Inv(c, s) && Enabled(c, s, who, a)
    ensures Inv(c, Step(c, s, who, a))
  {
    if !a.Move? {
      FailStep(c, s, who, a);
    } else if Get(s, who).phase.Sending? {
      SendStep(c, s, who, a.k);
    } else {
      ReceiveStep(c, s, who, a.k);
    }
  }

  lemma {:induction false} RunInv(c: Config, s: State, trace: Trace)
    requires Inv(c, s) && IsRun(c, s, trace)
    ensures Inv(c, After(c, s, trace))
    decreases |trace|
  {
    if trace != [] {
      StepInv(c, s, trace[0].0, trace[0].1);
      RunInv(c, Step(c, s, trace[0].0, trace[0].1), trace[1..]);
    }
  }

  // --- Safety ----------------------------------------------------------------

  /** The two threads are never both sending, so one message is all that is
      ever under way, and they stay in step. */
  lemma InStep(c: Config, s: State)
    requires Inv(c, s)
    ensures |s.up.data| + |s.down.data| <= 64
    ensures s.client.index <= s.server.index <= s.client.index + 1
    ensures s.client.phase.Sending? ==> s.server.phase.Receiving?
  {
  }

  /** In every state of every run: at most one message of unread bytes, the
      client at most one exchange behind the server and never ahead of it, and
      after its first exchange the client holds exactly what it sent. */
  lemma RunSafe(c: Config, trace: Trace)
    requires ValidConfig(c) && IsRun(c, Init(), trace)
    ensures var s := After(c, Init(), trace);
            && |s.up.data| + |s.down.data| <= 64
            && s.client.index <= s.server.index <= s.client.index + 1
            && (s.client.index > 0 ==> s.client.buffer == c.request)
  {
    InitInv(c);
    RunInv(c, Init(), trace);
    InStep(c, After(c, Init(), trace));
  }

  // --- Progress --------------------------------------------------------------

  ghost predicate CanProceed(c: Config, s: State, who: Who) {
    exists a :: Productive(a) && Enabled(c, s, who, a)
  }

  /** The thread waits for a peer that has given up and whose `Shutdown` failed:
      only its own time-out, a failing call, ends the wait. */
  ghost predicate Deserted(s: State, who: Who) {
    && Get(s, who).status.Running?
    && Get(s, Other(who)).status == Stopped(true) && !In(s, who).writerClosed
  }

  /** A sender that cannot proceed has filled its channel with bytes that a
      receiving, unfinished peer has still to read, or else is deserted. */
  lemma SenderWaits(c: Config, s: State, who: Who)
    requires ValidConfig(c) && Inv(c, s) && !Deserted(s, who)
    requires Get(s, who).status.Running? && Get(s, who).phase.Sending? && !CanProceed(c, s, who)
    ensures Out(s, who).data != [] && !Out(s, who).readerClosed
    ensures Get(s, Other(who)).phase.Receiving? && Get(s, Other(who)).status in {Running, Failing}
  {
    assert !Enabled(c, s, who, Move(1)) && !Enabled(c, s, who, Refused);
    InStep(c, s);
  }

  /** A receiver that cannot proceed waits for bytes from a peer that is
      unfinished and is either sending or has bytes to read itself, or else is
      deserted. */
  lemma ReceiverWaits(c: Config, s: State, who: Who)
    requires ValidConfig(c) && Inv(c, s) && !Deserted(s, who)
    requires Get(s, who).status.Running? && Get(s, who).phase.Receiving? && !CanProceed(c, s, who)
    ensures In(s, who).data == [] && Get(s, Other(who)).status in {Running, Failing}
    ensures Get(s, Other(who)).phase.Sending? || Out(s, who).data != []
  {
    assert !Enabled(c, s, who, Move(1)) && !Enabled(c, s, who, SeeEof);
    InStep(c, s);
  }

  lemma SomeoneProceeds(c: Config, s: State)
    requires ValidConfig(c) && Inv(c, s) && !Final(s) && !Deserted(s, Client) && !Deserted(s, Server)
    ensures CanProceed(c, s, Client) || CanProceed(c, s, Server)
  {
    var who := if s.client.status.Stopped? then Server else Client;
    if Get(s, who).status.Failing? {
      assert Enabled(c, s, who, Close);
    } else if !CanProceed(c, s, who) {
      var other := Other(who);
      if Get(s, who).phase.Sending? {
        SenderWaits(c, s, who);
      } else {
        ReceiverWaits(c, s, who);
      }
      assert Enabled(c, s, other, if Get(s, other).status.Failing? then Close else Move(1));
    }
  }

  /** No run is ever stuck before both threads are done. Only a thread deserted
      by a peer whose `Shutdown` failed may have nothing left but its time-out. */
  lemma NoDeadlock(c: Config, trace: Trace)
    requires ValidConfig(c) && IsRun(c, Init(), trace)
    requires !Final(After(c, Init(), trace))
    ensures var s := After(c, Init(), trace);
            || CanProceed(c, s, Client) || CanProceed(c, s, Server)
            || (exists who :: Deserted(s, who) && Enabled(c, s, who, Fault))
  {
    InitInv(c);
    RunInv(c, Init(), trace);
    var s := After(c, Init(), trace);
    if Deserted(s, Client) {
      assert Enabled(c, s, Client, Fault);
    } else if Deserted(s, Server) {
      assert Enabled(c, s, Server, Fault);
    } else {
      SomeoneProceeds(c, s);
    }
  }

  predicate ShutdownsWork(trace: Trace) {
    forall step <- trace :: !step.1.CloseFails?
  }

  ghost predicate NoneSilent(s: State) {
    && (s.client.status == Stopped(true) ==> s.up.writerClosed)
    && (s.server.status == Stopped(true) ==> s.down.writerClosed)
  }

  lemma {:induction false} RunNotSilent(c: Config, s: State, trace: Trace)
    requires Inv(c, s) && NoneSilent(s) && IsRun(c, s, trace) && ShutdownsWork(trace)
    ensures NoneSilent(After(c, s, trace))
    decreases |trace|
  {
    if trace != [] {
      StepInv(c, s, trace[0].0, trace[0].1);
      assert trace[0] in trace;
      assert forall step <- trace[1..] :: step in trace;
      StepNotSilent(c, s, trace[0].0, trace[0].1);
      RunNotSilent(c, Step(c, s, trace[0].0, trace[0].1), trace[1..]);
    }
  }

  lemma StepNotSilent(c: Config, s: State, who: Who, a: Action)
    requires Inv(c, s) && NoneSilent(s) && Enabled(c, s, who, a) && !a.CloseFails?
    ensures NoneSilent(Step(c, s, who, a))
  {
  }

  /** While each `Shutdown` takes effect nobody is deserted, whatever else fails. */
  lemma NoDeadlockAfterShutdown(c: Config, trace: Trace)
    requires ValidConfig(c) && IsRun(c, Init(), trace) && ShutdownsWork(trace)
    requires !Final(After(c, Init(), trace))
    ensures CanProceed(c, After(c, Init(), trace), Client) || CanProceed(c, After(c, Init(), trace), Server)
  {
    InitInv(c);
    RunInv(c, Init(), trace);
    RunNotSilent(c, Init(), trace);
    SomeoneProceeds(c, After(c, Init(), trace));
  }

  // --- Termination -----------------------------------------------------------

  /** The bytes a thread still has to move, and the two steps of giving up. */
  function Todo(c: Config, who: Who, p: Peer): int {
    match p.status
    case Running => 2 + 2 * MESSAGE_BYTES * Exchanges(c) - Sent(who, p) - Received(who, p)
    case Failing => 1
    case Stopped(_) => 0
  }

  function Measure(c: Config, s: State): int {
    Todo(c, Client, s.client) + Todo(c, Server, s.server)
  }

  lemma MeasureDrops(c: Config, s: State, who: Who, a: Action)
    requires Inv(c, s) && Enabled(c, s, who, a) && !a.Interrupted?
    ensures Measure(c, Step(c, s, who, a)) < Measure(c, s)
  {
    var p, t := Get(s, who), Step(c, s, who, a);
    StepMovesOne(c, s, who, a);
    MeasureOf(c, s, who);
    MeasureOf(c, t, who);
    assert PeerOk(c, who, p);
    if a.Move? {
      TodoDrops(c, who, p, Get(t, who).buffer, a.k);
    } else {
      TodoGivesUp(c, who, p, Get(t, who).status);
    }
  }

  lemma MeasureOf(c: Config, s: State, who: Who)
    ensures Measure(c, s) == Todo(c, who, Get(s, who)) + Todo(c, Other(who), Get(s, Other(who)))
  {
  }

  lemma TodoGivesUp(c: Config, who: Who, p: Peer, status: Status)
    requires PeerOk(c, who, p)
    requires (p.status.Running? && status.Failing?) || (p.status.Failing? && status.Stopped?)
    ensures Todo(c, who, p.(status := status)) < Todo(c, who, p)
  {
  }

  /** A step of one thread leaves the other thread as it is. */
  lemma StepMovesOne(c: Config, s: State, who: Who, a: Action)
    requires Enabled(c, s, who, a)
    ensures Get(Step(c, s, who, a), Other(who)) == Get(s, Other(who))
    ensures a.Move? ==> var p := Get(s, who);
              Get(Step(c, s, who, a), who) ==
              Advance(c, who, p.(offset := p.offset + a.k, buffer := Get(Step(c, s, who, a), who).buffer))
    ensures !a.Move? && !a.Interrupted? ==>
              Get(Step(c, s, who, a), who) ==
              Get(s, who).(status := if a.Close? || a.CloseFails? then Stopped(true) else Failing)
  {
  }

  /** Moving k bytes leaves a thread less to do, even when that ends a message
      or the loop. */
  lemma TodoDrops(c: Config, who: Who, p: Peer, buffer: Message, k: nat)
    requires PeerOk(c, who, p) && p.status.Running? && 1 <= k && p.offset + k <= MESSAGE_BYTES
    ensures Todo(c, who, Advance(c, who, p.(offset := p.offset + k, buffer := buffer))) < Todo(c, who, p)
  {
  }

  lemma MeasureBounded(c: Config, s: State)
    requires Inv(c, s)
    ensures 0 <= Measure(c, s)
    ensures Measure(c, s) == 0 <==> Final(s)
  {
  }

  lemma {:induction false} CallsBounded(c: Config, s: State, trace: Trace)
    requires Inv(c, s) && IsRun(c, s, trace)
    ensures Calls(trace) + Measure(c, After(c, s, trace)) <= Measure(c, s)
    decreases |trace|
  {
    if trace != [] {
      var t := Step(c, s, trace[0].0, trace[0].1);
      StepInv(c, s, trace[0].0, trace[0].1);
      if !trace[0].1.Interrupted? {
        MeasureDrops(c, s, trace[0].0, trace[0].1);
      }
      CallsBounded(c, t, trace[1..]);
    }
  }

  /** Every run ends: however bytes are split and calls fail, no more than one
      call per byte moved and two per thread are not interrupted. */
  lemma RunEnds(c: Config, trace: Trace)
    requires ValidConfig(c) && IsRun(c, Init(), trace)
    ensures Calls(trace) <= 4 * 64 * (256 + c.rounds) + 4
  {
    InitInv(c);
    CallsBounded(c, Init(), trace);
    assert 0 <= Measure(c, After(c, Init(), trace)) by {
      RunInv(c, Init(), trace);
      MeasureBounded(c, After(c, Init(), trace));
    }
    assert Measure(c, Init()) == 4 * MESSAGE_BYTES * Exchanges(c) + 4;
  }

  // --- Outcome ---------------------------------------------------------------

  /** What the benchmark reports once both threads are done. */
  predicate Succeeded(c: Config, s: State) {
    s.client.status == Stopped(false) && s.server.status == Stopped(false) && s.client.buffer == c.request
  }

  /** The bytes that the send calls, and the receive calls, of a thread move in a run. */
  function BytesSent(c: Config, s: State, trace: Trace, who: Who): nat
    requires IsRun(c, s, trace)
    decreases |trace|
  {
    if trace == [] then 0
    else
      var (w, a) := trace[0];
      (if w == who && a.Move? && Get(s, who).phase.Sending? then a.k else 0)
      + BytesSent(c, Step(c, s, w, a), trace[1..], who)
  }

  function BytesReceived(c: Config, s: State, trace: Trace, who: Who): nat
    requires IsRun(c, s, trace)
    decreases |trace|
  {
    if trace == [] then 0
    else
      var (w, a) := trace[0];
      (if w == who && a.Move? && Get(s, who).phase.Receiving? then a.k else 0)
      + BytesReceived(c, Step(c, s, w, a), trace[1..], who)
  }

  /** The counts that the threads' progress implies are those of the calls. */
  lemma {:induction false} BytesCounted(c: Config, s: State, trace: Trace, who: Who)
    requires Inv(c, s) && IsRun(c, s, trace)
    ensures Sent(who, Get(After(c, s, trace), who)) == Sent(who, Get(s, who)) + BytesSent(c, s, trace, who)
    ensures Received(who, Get(After(c, s, trace), who)) == Received(who, Get(s, who)) + BytesReceived(c, s, trace, who)
    decreases |trace|
  {
    if trace != [] {
      var (w, a) := trace[0];
      StepInv(c, s, w, a);
      StepCounted(c, s, w, a, who);
      BytesCounted(c, Step(c, s, w, a), trace[1..], who);
    }
  }

  lemma StepCounted(c: Config, s: State, w: Who, a: Action, who: Who)
    requires Inv(c, s) && Enabled(c, s, w, a)
    ensures var p, q := Get(s, who), Get(Step(c, s, w, a), who);
            && Sent(who, q) == Sent(who, p) + (if w == who && a.Move? && p.phase.Sending? then a.k else 0)
            && Received(who, q) == Received(who, p) + (if w == who && a.Move? && p.phase.Receiving? then a.k else 0)
  {
    StepMovesOne(c, s, w, a);
    if w != who {
      assert Other(w) == who;
    } else if a.Move? {
      assert PeerOk(c, who, Get(s, who));
      MoveCounted(c, who, Get(s, who), Get(Step(c, s, w, a), who).buffer, a.k);
    }
  }

  lemma MoveCounted(c: Config, who: Who, p: Peer, buffer: Message, k: nat)
    requires PeerOk(c, who, p) && p.status.Running? && p.offset + k <= MESSAGE_BYTES
    ensures var q := Advance(c, who, p.(offset := p.offset + k, buffer := buffer));
            && Sent(who, q) == Sent(who, p) + (if p.phase.Sending? then k else 0)
            && Received(who, q) == Received(who, p) + (if p.phase.Receiving? then k else 0)
  {
  }

  /** A run that ends without an error on either side has moved every message
      both ways, left nothing unread, and cannot end in a payload mismatch. */
  lemma EndsClean(c: Config, trace: Trace)
    requires ValidConfig(c) && IsRun(c, Init(), trace)
    requires var s := After(c, Init(), trace); s.client.status == Stopped(false) && s.server.status == Stopped(false)
    ensures var s := After(c, Init(), trace);
            && s.up.data == [] && s.down.data == []
            && s.client.buffer == c.request
    ensures BytesSent(c, Init(), trace, Client) == BytesReceived(c, Init(), trace, Server) == 64 * (256 + c.rounds)
    ensures BytesSent(c, Init(), trace, Server) == BytesReceived(c, Init(), trace, Client) == 64 * (256 + c.rounds)
  {
    InitInv(c);
    RunInv(c, Init(), trace);
    BytesCounted(c, Init(), trace, Client);
    BytesCounted(c, Init(), trace, Server);
  }

  ghost predicate NoError(s: State) {
    s.client.status in {Running, Stopped(false)} && s.server.status in {Running, Stopped(false)}
  }

  lemma StepNoError(c: Config, s: State, who: Who, a: Action)
    requires Inv(c, s) && NoError(s) && Enabled(c, s, who, a) && !Fails(a)
    ensures NoError(Step(c, s, who, a))
  {
  }

  lemma {:induction false} FaultFreeNoError(c: Config, s: State, trace: Trace)
    requires Inv(c, s) && NoError(s) && IsRun(c, s, trace) && FaultFree(trace)
    ensures NoError(After(c, s, trace))
    decreases |trace|
  {
    if trace != [] {
      StepInv(c, s, trace[0].0, trace[0].1);
      assert trace[0] in trace;
      assert forall step <- trace[1..] :: step in trace;
      StepNoError(c, s, trace[0].0, trace[0].1);
      FaultFreeNoError(c, Step(c, s, trace[0].0, trace[0].1), trace[1..]);
    }
  }

  /** Only the environment can make the benchmark fail: a run in which no call
      fails and which has come to its end has succeeded. */
  lemma FaultFreeSucceeds(c: Config, trace: Trace)
    requires ValidConfig(c) && IsRun(c, Init(), trace) && FaultFree(trace)
    requires var s := After(c, Init(), trace); !CanProceed(c, s, Client) && !CanProceed(c, s, Server)
    ensures Succeeded(c, After(c, Init(), trace))
  {
    InitInv(c);
    FaultFreeNoError(c, Init(), trace);
    RunInv(c, Init(), trace);
    if !Final(After(c, Init(), trace)) {
      NoDeadlockAfterShutdown(c, trace);
    }
    EndsClean(c, trace);
  }

  /** One side's error reaches the other: when all is over, a thread without an
      error has completed every one of its exchanges. */
  lemma ErrorsReachBoth(c: Config, trace: Trace, who: Who)
    requires ValidConfig(c) && IsRun(c, Init(), trace)
    requires Final(After(c, Init(), trace))
    ensures var p := Get(After(c, Init(), trace), who);
            p.status == Stopped(true) <==> p.index < Exchanges(c)
  {
    InitInv(c);
    RunInv(c, Init(), trace);
  }

  // --- What the environment may do ---------------------------------------------------

  /** A running thread's call may be interrupted, may fail, and may move any
      number of bytes from one up to all that it asks for and the channel allows. */
  lemma AnyOutcome(c: Config, s: State, who: Who, k: nat)
    requires Get(s, who).status.Running? && 1 <= k <= 64 - Get(s, who).offset
    requires if Get(s, who).phase.Sending? then |Out(s, who).data| + k <= OutCapacity(c, who) else k <= |In(s, who).data|
    ensures Enabled(c, s, who, Move(k)) && Enabled(c, s, who, Interrupted) && Enabled(c, s, who, Fault)
  {
  }

  /** From every state without an error some calls, none of which fails, lead to
      the end of both threads. */
  lemma CanFinish(c: Config, s: State) returns (trace: Trace)
    requires ValidConfig(c) && Inv(c, s) && NoError(s)
    ensures IsRun(c, s, trace) && FaultFree(trace)
    ensures Final(After(c, s, trace)) && NoError(After(c, s, trace))
    decreases Measure(c, s)
  {
    trace := [];
    MeasureBounded(c, s);
    if !Final(s) {
      SomeoneProceeds(c, s);
      var who := if CanProceed(c, s, Client) then Client else Server;
      var a :| Productive(a) && Enabled(c, s, who, a);
      StepInv(c, s, who, a);
      StepNoError(c, s, who, a);
      MeasureBounded(c, Step(c, s, who, a));
      MeasureDrops(c, s, who, a);
      var rest := CanFinish(c, Step(c, s, who, a));
      trace := [(who, a)] + rest;
      BeginRun(c, s, who, a, rest);
    }
  }

  lemma BeginRun(c: Config, s: State, who: Who, a: Action, rest: Trace)
    requires Enabled(c, s, who, a) && IsRun(c, Step(c, s, who, a), rest)
    ensures IsRun(c, s, [(who, a)] + rest) && After(c, s, [(who, a)] + rest) == After(c, Step(c, s, who, a), rest)
    ensures !Fails(a) && FaultFree(rest) ==> FaultFree([(who, a)] + rest)
  {
    assert ([(who, a)] + rest)[1..] == rest;
  }

  /** So success is within reach from the start, over every buffer. */
  lemma CanSucceed(c: Config) returns (trace: Trace)
    requires ValidConfig(c)
    ensures IsRun(c, Init(), trace) && FaultFree(trace) && Succeeded(c, After(c, Init(), trace))
  {
    InitInv(c);
    trace := CanFinish(c, Init());
    EndsClean(c, trace);
  }
}
