/** `SendAll` in one thread and `ReceiveExact` in another, over one bounded
    channel, as a transition system with the steps of module Loopback: any
    message, any buffer in the kernel, any splitting, interruptions and failures.
    A thread whose loop fails calls `Shutdown`, as the benchmark's threads do. */
module Delivery {
  import opened Common
  import opened Loopback

  /** `before` is what the receiver's buffer holds at first. */
  datatype Config = Config(message: seq<byte>, before: seq<byte>, capacity: nat)

  predicate ValidConfig(c: Config) {
    c.capacity >= 1 && |c.before| == |c.message|
  }

  /** The sender has `message[sent..]` left, the receiver `buffer[got..]`. */
  datatype State = State(sender: Status, sent: nat, receiver: Status, got: nat, buffer: seq<byte>, channel: seq<byte>,
                         senderClosed: bool, receiverClosed: bool)

  /** Both loops test for an empty rest before the first call. */
  function Init(c: Config): State {
    var status := if c.message == [] then Stopped(false) else Running;
    State(status, 0, status, 0, c.before, [], false, false)
  }

  function Get(s: State, who: Who): Status {
    if who == Client then s.sender else s.receiver
  }

  predicate Final(s: State) {
    s.sender.Stopped? && s.receiver.Stopped?
  }

  predicate Enabled(c: Config, s: State, who: Who, a: Action) {
    match a
    case Move(k) =>
      && Get(s, who).Running? && k >= 1
      && if who == Client then s.sent + k <= |c.message| && |s.channel| + k <= c.capacity
         else s.got + k <= |s.buffer| && k <= |s.channel|
    case SeeEof => who == Server && s.receiver.Running? && s.channel == [] && s.senderClosed
    case Refused => who == Client && s.sender.Running? && s.receiverClosed
    case Interrupted => Get(s, who).Running?
    case Fault => Get(s, who).Running?
    case Close => Get(s, who).Failing?
    case CloseFails => Get(s, who).Failing?
  }

  function Send(c: Config, s: State, k: nat): State
    requires s.sent + k <= |c.message|
  {
    s.(sent := s.sent + k, channel := s.channel + c.message[s.sent..s.sent + k],
       sender := if s.sent + k < |c.message| then Running else Stopped(false))
  }

  function Receive(s: State, k: nat): State
    requires s.got + k <= |s.buffer| && k <= |s.channel|
  {
    s.(got := s.got + k, channel := s.channel[k..],
       buffer := s.buffer[..s.got] + s.channel[..k] + s.buffer[s.got + k..],
       receiver := if s.got + k < |s.buffer| then Running else Stopped(false))
  }

  function Turn(s: State, who: Who, status: Status, closing: bool): State {
    if who == Client then s.(sender := status, senderClosed := s.senderClosed || closing)
    else s.(receiver := status, receiverClosed := s.receiverClosed || closing)
  }

  function Step(c: Config, s: State, who: Who, a: Action): State
    requires Enabled(c, s, who, a)
  {
    match a
    case Move(k) => if who == Client then Send(c, s, k) else Receive(s, k)
    case Interrupted => s
    case Close => Turn(s, who, Stopped(true), true)
    case CloseFails => Turn(s, who, Stopped(true), false)
    case _ => Turn(s, who, Failing, false)
  }

  predicate IsRun(c: Config, s: State, trace: Trace)
    decreases |trace|
  {
    trace == [] ||
    (Enabled(c, s, trace[0].0, trace[0].1) && IsRun(c, Step(c, s, trace[0].0, trace[0].1), trace[1..]))
  }

  function After(c: Config, s: State, trace: Trace): State
    requires IsRun(c, s, trace)
    decreases |trace|
  {
    if trace == [] then s else After(c, Step(c, s, trace[0].0, trace[0].1), trace[1..])
  }

  ghost predicate Inv(c: Config, s: State) {
    && s.got <= s.sent <= |c.message| == |s.buffer| == |c.before|
    && s.channel == c.message[s.got..s.sent] && |s.channel| <= c.capacity
    && s.buffer == c.message[..s.got] + c.before[s.got..]
    && (s.sender == Stopped(false) <==> s.sent == |c.message|)
    && (s.receiver == Stopped(false) <==> s.got == |c.message|)
    && (s.senderClosed ==> s.sender == Stopped(true)) && (s.receiverClosed ==> s.receiver == Stopped(true))
  }

  lemma SendInv(c: Config, s: State, k: nat)
    requires Inv(c, s) && Enabled(c, s, Client, Move(k))
    ensures Inv(c, Send(c, s, k))
  {
    assert c.message[s.got..s.sent] + c.message[s.sent..s.sent + k] == c.message[s.got..s.sent + k];
  }

  lemma ReceiveInv(c: Config, s: State, k: nat)
    requires Inv(c, s) && Enabled(c, s, Server, Move(k))
    ensures Inv(c, Receive(s, k))
  {
    assert s.channel[..k] == c.message[s.got..s.got + k] && s.channel[k..] == c.message[s.got + k..s.sent];
    assert s.buffer[..s.got] == c.message[..s.got] && s.buffer[s.got + k..] == c.before[s.got + k..];
    assert c.message[..s.got] + c.message[s.got..s.got + k] == c.message[..s.got + k];
  }

  lemma StepInv(c: Config, s: State, who: Who, a: Action)
    requires Inv(c, s) && Enabled(c, s, who, a)
    ensures Inv(c, Step(c, s, who, a))
  {
    if a.Move? {
      if who == Client {
        SendInv(c, s, a.k);
      } else {
        ReceiveInv(c, s, a.k);
      }
    }
  }

  lemma {:induction false} RunInv(c: Config, s: State, trace: Trace)
    requires Inv(c, s) && IsRun(c, s, trace)
    ensures Inv(c, After(c, s, trace))
    decreases |trace|
  {
    if trace != [] {
      StepInv(c, s, trace[0].0, trace[0].1);
      RunInv(c, Step(c, s, trace[0].0, trace[0].1), trace[1..]);
    }
  }

  /** At every moment of every run, failing ones too, the receiver has a prefix
      of the message, no longer than what was sent, and an untouched rest; what
      is sent and not received is in the channel. */
  lemma RunSafe(c: Config, trace: Trace)
    requires ValidConfig(c) && IsRun(c, Init(c), trace)
    ensures var s := After(c, Init(c), trace);
            && s.got <= s.sent <= |c.message| && s.channel == c.message[s.got..s.sent]
            && s.buffer == c.message[..s.got] + c.before[s.got..]
  {
    RunInv(c, Init(c), trace);
  }

  /** Composed, the two loops are the identity: a receiver that succeeds has the
      message, and then the sender has succeeded too and nothing is left over. */
  lemma Identity(c: Config, trace: Trace)
    requires ValidConfig(c) && IsRun(c, Init(c), trace)
    requires After(c, Init(c), trace).receiver == Stopped(false)
    ensures var s := After(c, Init(c), trace);
            s.buffer == c.message && s.sender == Stopped(false) && s.channel == []
    ensures Moved(trace, Client) == Moved(trace, Server) == |c.message|
  {
    RunInv(c, Init(c), trace);
    BytesCounted(c, Init(c), trace);
  }

  ghost predicate CanProceed(c: Config, s: State, who: Who) {
    exists a :: Productive(a) && Enabled(c, s, who, a)
  }

  /** The thread waits for a peer that has given up and whose `Shutdown` failed:
      only its own time-out, a failing call, ends the wait. */
  ghost predicate Deserted(s: State, who: Who) {
    Get(s, who).Running? && Get(s, Other(who)) == Stopped(true)
    && !(if who == Client then s.receiverClosed else s.senderClosed)
  }

  lemma SomeoneProceeds(c: Config, s: State)
    requires ValidConfig(c) && Inv(c, s) && !Final(s) && !Deserted(s, Client) && !Deserted(s, Server)
    ensures CanProceed(c, s, Client) || CanProceed(c, s, Server)
  {
    if s.sender.Failing? {
      assert Enabled(c, s, Client, Close);
    } else if s.receiver.Failing? {
      assert Enabled(c, s, Server, Close);
    } else if s.sender.Running? && (|s.channel| < c.capacity || s.receiverClosed) {
      assert Enabled(c, s, Client, if s.receiverClosed then Refused else Move(1));
    } else {
      assert Enabled(c, s, Server, if s.channel == [] then SeeEof else Move(1));
    }
  }

  /** No run is ever stuck before both threads are done. Only a thread deserted
      by a peer whose `Shutdown` failed may have nothing left but its time-out. */
  lemma NoDeadlock(c: Config, trace: Trace)
    requires ValidConfig(c) && IsRun(c, Init(c), trace) && !Final(After(c, Init(c), trace))
    ensures var s := After(c, Init(c), trace);
            || CanProceed(c, s, Client) || CanProceed(c, s, Server)
            || (exists who :: Deserted(s, who) && Enabled(c, s, who, Fault))
  {
    RunInv(c, Init(c), trace);
    var s := After(c, Init(c), trace);
    if Deserted(s, Client) {
      assert Enabled(c, s, Client, Fault);
    } else if Deserted(s, Server) {
      assert Enabled(c, s, Server, Fault);
    } else {
      SomeoneProceeds(c, s);
    }
  }

  /** While each `Shutdown` takes effect nobody is deserted, whatever else fails. */
  lemma NoDeadlockAfterShutdown(c: Config, trace: Trace)
    requires ValidConfig(c) && IsRun(c, Init(c), trace) && !Final(After(c, Init(c), trace))
    requires forall step <- trace :: !step.1.CloseFails?
    ensures CanProceed(c, After(c, Init(c), trace), Client) || CanProceed(c, After(c, Init(c), trace), Server)
  {
    RunInv(c, Init(c), trace);
    RunNotSilent(c, Init(c), trace);
    SomeoneProceeds(c, After(c, Init(c), trace));
  }

  ghost predicate NoneSilent(s: State) {
    (s.sender == Stopped(true) ==> s.senderClosed) && (s.receiver == Stopped(true) ==> s.receiverClosed)
  }

  lemma {:induction false} RunNotSilent(c: Config, s: State, trace: Trace)
    requires Inv(c, s) && NoneSilent(s) && IsRun(c, s, trace) && forall step <- trace :: !step.1.CloseFails?
    ensures NoneSilent(After(c, s, trace))
    decreases |trace|
  {
    if trace != [] {
      StepInv(c, s, trace[0].0, trace[0].1);
      assert trace[0] in trace && forall step <- trace[1..] :: step in trace;
      RunNotSilent(c, Step(c, s, trace[0].0, trace[0].1), trace[1..]);
    }
  }

  function Left(status: Status, bytes: int): int {
    match status
    case Running => 2 + bytes
    case Failing => 1
    case Stopped(_) => 0
  }

  function Measure(c: Config, s: State): int {
    Left(s.sender, |c.message| - s.sent) + Left(s.receiver, |c.message| - s.got)
  }

  lemma MeasureDrops(c: Config, s: State, who: Who, a: Action)
    requires Inv(c, s) && Enabled(c, s, who, a) && !a.Interrupted?
    ensures Measure(c, Step(c, s, who, a)) < Measure(c, s)
  {
  }

  lemma {:induction false} CallsBounded(c: Config, s: State, trace: Trace)
    requires Inv(c, s) && IsRun(c, s, trace)
    ensures Calls(trace) + Measure(c, After(c, s, trace)) <= Measure(c, s)
    decreases |trace|
  {
    if trace != [] {
      StepInv(c, s, trace[0].0, trace[0].1);
      if !trace[0].1.Interrupted? {
        MeasureDrops(c, s, trace[0].0, trace[0].1);
      }
      CallsBounded(c, Step(c, s, trace[0].0, trace[0].1), trace[1..]);
    }
  }

  /** Every run ends: besides interrupted calls there is at most one call per
      byte and side, and two more per thread. */
  lemma RunEnds(c: Config, trace: Trace)
    requires ValidConfig(c) && IsRun(c, Init(c), trace)
    ensures Calls(trace) <= 2 * |c.message| + 4
  {
    CallsBounded(c, Init(c), trace);
    RunInv(c, Init(c), trace);
  }

  /** The threads have moved what their calls moved. */
  lemma {:induction false} BytesCounted(c: Config, s: State, trace: Trace)
    requires Inv(c, s) && IsRun(c, s, trace)
    ensures After(c, s, trace).sent == s.sent + Moved(trace, Client)
    ensures After(c, s, trace).got == s.got + Moved(trace, Server)
    decreases |trace|
  {
    if trace != [] {
      StepInv(c, s, trace[0].0, trace[0].1);
      BytesCounted(c, Step(c, s, trace[0].0, trace[0].1), trace[1..]);
    }
  }

  /** A running thread's call may be interrupted, may fail, and may move any
      number of bytes from one up to all that it asks for and the channel allows. */
  lemma AnyOutcome(c: Config, s: State, who: Who, k: nat)
    requires Get(s, who).Running? && k >= 1
    requires if who == Client then k <= |c.message| - s.sent && |s.channel| + k <= c.capacity
             else k <= |s.buffer| - s.got && k <= |s.channel|
    ensures Enabled(c, s, who, Move(k)) && Enabled(c, s, who, Interrupted) && Enabled(c, s, who, Fault)
  {
  }

  ghost predicate NoError(s: State) {
    s.sender in {Running, Stopped(false)} && s.receiver in {Running, Stopped(false)}
  }

  lemma {:induction false} FaultFreeNoError(c: Config, s: State, trace: Trace)
    requires Inv(c, s) && NoError(s) && IsRun(c, s, trace) && FaultFree(trace)
    ensures NoError(After(c, s, trace))
    decreases |trace|
  {
    if trace != [] {
      StepInv(c, s, trace[0].0, trace[0].1);
      assert trace[0] in trace;
      assert forall step <- trace[1..] :: step in trace;
      FaultFreeNoError(c, Step(c, s, trace[0].0, trace[0].1), trace[1..]);
    }
  }

  /** A run in which no call fails and which has come to its end has delivered
      the message. */
  lemma FaultFreeDelivers(c: Config, trace: Trace)
    requires ValidConfig(c) && IsRun(c, Init(c), trace) && FaultFree(trace)
    requires var s := After(c, Init(c), trace); !CanProceed(c, s, Client) && !CanProceed(c, s, Server)
    ensures var s := After(c, Init(c), trace);
            s.sender == s.receiver == Stopped(false) && s.buffer == c.message
  {
    FaultFreeNoError(c, Init(c), trace);
    RunInv(c, Init(c), trace);
    if !Final(After(c, Init(c), trace)) {
      SomeoneProceeds(c, After(c, Init(c), trace));
    }
  }

  /** From every state without an error some calls, none of which fails, lead to
      the end of both threads. */
  lemma CanFinish(c: Config, s: State) returns (trace: Trace)
    requires ValidConfig(c) && Inv(c, s) && NoError(s)
    ensures IsRun(c, s, trace) && FaultFree(trace)
    ensures Final(After(c, s, trace)) && NoError(After(c, s, trace))
    decreases Measure(c, s)
  {
    trace := [];
    if !Final(s) {
      SomeoneProceeds(c, s);
      var who := if CanProceed(c, s, Client) then Client else Server;
      var a :| Productive(a) && Enabled(c, s, who, a);
      var next := Step(c, s, who, a);
      StepInv(c, s, who, a);
      MeasureDrops(c, s, who, a);
      var rest := CanFinish(c, next);
      trace := [(who, a)] + rest;
      assert trace[1..] == rest;
    }
  }

  lemma CanSucceed(c: Config) returns (trace: Trace)
    requires ValidConfig(c)
    ensures IsRun(c, Init(c), trace) && FaultFree(trace) && After(c, Init(c), trace).receiver == Stopped(false)
  {
    trace := CanFinish(c, Init(c));
  }
}
