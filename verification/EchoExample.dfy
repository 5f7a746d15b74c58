/** examples/net/example_tcp_loopback.cpp from end to end. One thread plays both
    sides in turn, so what a side sends has to wait in the kernel until the other
    side's turn comes. A step is one system call on the connection together with
    the program's own work up to the next one. */
module EchoExample {
  import opened Common
  import opened Loopback
  import T = Transfers

  const BUFFER_BYTES: nat := 64

  /** The message, and how many bytes each direction of the connection buffers. */
  datatype Config = Config(message: seq<byte>, upCapacity: nat, downCapacity: nat)

  /** What the program does next. */
  datatype Phase =
    | SendRequest(sent: nat)
    | FinishRequest
    | ServerReceive(echoed: nat)
    | ServerSend(echoed: nat, chunk: seq<byte>, offset: nat)
    | FinishResponse
    | ClientReceive(received: nat, matches: bool)
    | Done(accepted: bool)
    | Failed

  datatype State = State(phase: Phase, up: seq<byte>, upClosed: bool, down: seq<byte>, downClosed: bool)

  /** After each call of a send loop: the loop goes on or is over. */
  function SendOn(c: Config, sent: nat): Phase {
    if sent < |c.message| then SendRequest(sent) else FinishRequest
  }

  function Init(c: Config): State {
    State(SendOn(c, 0), [], false, [], false)
  }

  predicate Final(s: State) {
    s.phase.Done? || s.phase.Failed?
  }

  predicate Enabled(c: Config, s: State, a: Action) {
    match a
    case Move(k) =>
      && k >= 1
      && (match s.phase
          case SendRequest(sent) => sent + k <= |c.message| && |s.up| + k <= c.upCapacity
          case ServerReceive(_) => k <= BUFFER_BYTES && k <= |s.up|
          case ServerSend(_, chunk, offset) => offset + k <= |chunk| && |s.down| + k <= c.downCapacity
          case ClientReceive(_, _) => k <= BUFFER_BYTES && k <= |s.down|
          case _ => false)
    case SeeEof =>
      (s.phase.ServerReceive? && s.up == [] && s.upClosed) || (s.phase.ClientReceive? && s.down == [] && s.downClosed)
    case Close => s.phase.FinishRequest? || s.phase.FinishResponse?
    case Interrupted => !Final(s) && !s.phase.FinishRequest? && !s.phase.FinishResponse?
    case Fault => !Final(s)
    case Refused => false
    case CloseFails => false
  }

  function Step(c: Config, s: State, a: Action): State
    requires Enabled(c, s, a)
  {
    match a
    case Move(k) => Transfer(c, s, k)
    case SeeEof =>
      s.(phase := match s.phase
                  case ServerReceive(_) => FinishResponse
                  case ClientReceive(received, matches) => Done(matches && received == |c.message|)
                  case _ => Failed)
    case Close =>
      if s.phase.FinishRequest? then s.(phase := ServerReceive(0), upClosed := true)
      else s.(phase := ClientReceive(0, true), downClosed := true)
    case Interrupted => s
    case _ => s.(phase := Failed)
  }

  function Transfer(c: Config, s: State, k: nat): State
    requires Enabled(c, s, Move(k))
  {
    match s.phase
    case SendRequest(sent) => s.(phase := SendOn(c, sent + k), up := s.up + c.message[sent..sent + k])
    case ServerReceive(echoed) => s.(phase := ServerSend(echoed, s.up[..k], 0), up := s.up[k..])
    case ServerSend(echoed, chunk, offset) =>
      s.(phase := if offset + k < |chunk| then ServerSend(echoed, chunk, offset + k) else ServerReceive(echoed + |chunk|),
         down := s.down + chunk[offset..offset + k])
    case ClientReceive(received, matches) =>
      var chunk := s.down[..k];
      s.(phase := ClientReceive(received + k,
           matches && received <= |c.message| && chunk == T.Substr(c.message, received, k)),
         down := s.down[k..])
    case _ => s
  }

  predicate IsRun(c: Config, s: State, trace: seq<Action>)
    decreases |trace|
  {
    trace == [] || (Enabled(c, s, trace[0]) && IsRun(c, Step(c, s, trace[0]), trace[1..]))
  }

  function After(c: Config, s: State, trace: seq<Action>): State
    requires IsRun(c, s, trace)
    decreases |trace|
  {
    if trace == [] then s else After(c, Step(c, s, trace[0]), trace[1..])
  }

  // --- Where the message is ----------------------------------------------------

  ghost predicate Inv(c: Config, s: State) {
    var m := c.message;
    match s.phase
    case SendRequest(sent) => sent < |m| && s.up == m[..sent] && s.down == []
    case FinishRequest => s.up == m && s.down == []
    case ServerReceive(echoed) => echoed <= |m| && s.up == m[echoed..] && s.down == m[..echoed] && s.upClosed
    case ServerSend(echoed, chunk, offset) =>
      && echoed + |chunk| <= |m| && chunk == m[echoed..echoed + |chunk|] && offset < |chunk|
      && s.up == m[echoed + |chunk|..] && s.down == m[..echoed + offset] && s.upClosed
    case FinishResponse => s.down == m
    case ClientReceive(received, matches) => matches && received <= |m| && s.down == m[received..] && s.downClosed
    case Done(accepted) => accepted
    case Failed => true
  }

  lemma Extend(m: seq<byte>, i: nat, j: nat)
    requires i <= j <= |m|
    ensures m[..i] + m[i..j] == m[..j] && m[i..][..j - i] == m[i..j] && m[i..][j - i..] == m[j..]
  {
  }

  lemma SendInv(c: Config, s: State, k: nat)
    requires Inv(c, s) && Enabled(c, s, Move(k)) && s.phase.SendRequest?
    ensures Inv(c, Transfer(c, s, k))
  {
    Extend(c.message, s.phase.sent, s.phase.sent + k);
    assert c.message[..|c.message|] == c.message;
  }

  lemma ServerReceiveInv(c: Config, s: State, k: nat)
    requires Inv(c, s) && Enabled(c, s, Move(k)) && s.phase.ServerReceive?
    ensures Inv(c, Transfer(c, s, k))
  {
    Extend(c.message, s.phase.echoed, s.phase.echoed + k);
  }

  lemma ServerSendInv(c: Config, s: State, k: nat)
    requires Inv(c, s) && Enabled(c, s, Move(k)) && s.phase.ServerSend?
    ensures Inv(c, Transfer(c, s, k))
  {
    EchoedOn(c.message, s.phase.echoed, s.phase.chunk, s.phase.offset, k);
  }

  lemma EchoedOn(m: seq<byte>, echoed: nat, chunk: seq<byte>, offset: nat, k: nat)
    requires echoed + |chunk| <= |m| && chunk == m[echoed..echoed + |chunk|] && offset + k <= |chunk|
    ensures m[..echoed + offset] + chunk[offset..offset + k] == m[..echoed + offset + k]
  {
    var from := echoed + offset;
    Extend(m, from, from + k);
    SliceOfSlice(m, echoed, echoed + |chunk|, offset, offset + k);
  }

  lemma SliceOfSlice(m: seq<byte>, a: nat, b: nat, i: nat, j: nat)
    requires a <= b <= |m| && i <= j <= b - a
    ensures m[a..b][i..j] == m[a + i..a + j]
  {
    var chunk := m[a..b];
    assert forall k | 0 <= k < |chunk| :: chunk[k] == m[a + k];
    assert forall k | 0 <= k < j - i :: chunk[i..j][k] == m[a + i + k];
  }

  lemma ClientReceiveInv(c: Config, s: State, k: nat)
    requires Inv(c, s) && Enabled(c, s, Move(k)) && s.phase.ClientReceive?
    ensures Inv(c, Transfer(c, s, k))
  {
    Extend(c.message, s.phase.received, s.phase.received + k);
  }

  lemma StepInv(c: Config, s: State, a: Action)
    requires Inv(c, s) && Enabled(c, s, a)
    ensures Inv(c, Step(c, s, a))
  {
    if a.Move? {
      match s.phase
      case SendRequest(_) => SendInv(c, s, a.k);
      case ServerReceive(_) => ServerReceiveInv(c, s, a.k);
      case ServerSend(_, _, _) => ServerSendInv(c, s, a.k);
      case ClientReceive(_, _) => ClientReceiveInv(c, s, a.k);
    } else {
      assert c.message[0..] == c.message && c.message[..|c.message|] == c.message && c.message[..0] == [];
    }
  }

  lemma {:induction false} RunInv(c: Config, s: State, trace: seq<Action>)
    requires Inv(c, s) && IsRun(c, s, trace)
    ensures Inv(c, After(c, s, trace))
    decreases |trace|
  {
    if trace != [] {
      StepInv(c, s, trace[0]);
      RunInv(c, Step(c, s, trace[0]), trace[1..]);
    }
  }

  /** Whatever the splitting, the program never finds that the echo differs. */
  lemma EchoMatches(c: Config, trace: seq<Action>)
    requires IsRun(c, Init(c), trace) && After(c, Init(c), trace).phase.Done?
    ensures After(c, Init(c), trace).phase.accepted
  {
    RunInv(c, Init(c), trace);
  }

  // --- Whether it gets that far --------------------------------------------------

  ghost predicate CanProceed(c: Config, s: State) {
    exists a :: Productive(a) && Enabled(c, s, a)
  }

  /** A transfer may be interrupted, may fail, and may move any number of bytes
      from one up to all that it asks for and the kernel holds or has room for. */
  lemma AnyOutcome(c: Config, s: State, k: nat)
    requires k >= 1
    requires match s.phase
             case SendRequest(sent) => sent + k <= |c.message| && |s.up| + k <= c.upCapacity
             case ServerReceive(_) => k <= 64 && k <= |s.up|
             case ServerSend(_, chunk, offset) => offset + k <= |chunk| && |s.down| + k <= c.downCapacity
             case ClientReceive(_, _) => k <= 64 && k <= |s.down|
             case _ => false
    ensures Enabled(c, s, Move(k)) && Enabled(c, s, Interrupted) && Enabled(c, s, Fault)
  {
  }

  predicate FitsBuffers(c: Config) {
    |c.message| <= c.upCapacity && |c.message| <= c.downCapacity
  }

  lemma Proceeds(c: Config, s: State)
    requires Inv(c, s) && FitsBuffers(c) && !Final(s)
    ensures CanProceed(c, s)
  {
    var atEnd := (s.phase.ServerReceive? && s.up == []) || (s.phase.ClientReceive? && s.down == []);
    var a := if s.phase.FinishRequest? || s.phase.FinishResponse? then Close else if atEnd then SeeEof else Move(1);
    assert Enabled(c, s, a);
  }

  /** A run without failing calls leads there. */
  ghost predicate Reachable(c: Config, s: State) {
    exists trace :: IsRun(c, Init(c), trace) && (forall a <- trace :: !Fails(a)) && After(c, Init(c), trace) == s
  }

  lemma {:induction false} RunOn(c: Config, s: State, trace: seq<Action>, a: Action)
    requires IsRun(c, s, trace) && Enabled(c, After(c, s, trace), a)
    ensures IsRun(c, s, trace + [a]) && After(c, s, trace + [a]) == Step(c, After(c, s, trace), a)
    decreases |trace|
  {
    if trace == [] {
      assert trace + [a] == [a] && [a][1..] == [];
      assert IsRun(c, Step(c, s, a), [a][1..]);
    } else {
      assert (trace + [a])[1..] == trace[1..] + [a];
      RunOn(c, Step(c, s, trace[0]), trace[1..], a);
    }
  }

  lemma ReachOn(c: Config, s: State, a: Action)
    requires Reachable(c, s) && Enabled(c, s, a) && !Fails(a)
    ensures Reachable(c, Step(c, s, a))
  {
    var trace :| IsRun(c, Init(c), trace) && (forall a <- trace :: !Fails(a)) && After(c, Init(c), trace) == s;
    RunOn(c, Init(c), trace, a);
    assert forall x <- trace + [a] :: !Fails(x);
  }

  /** The state in which the client has sent n bytes. */
  function Sending(c: Config, n: nat): State
    requires n <= |c.message|
  {
    State(SendOn(c, n), c.message[..n], false, [], false)
  }

  /** The state in which the server has echoed n bytes. */
  function Echoing(c: Config, n: nat): State
    requires n <= |c.message|
  {
    State(ServerReceive(n), c.message[n..], true, c.message[..n], false)
  }

  lemma {:induction false} ReachSending(c: Config, n: nat)
    requires n <= |c.message| && n <= c.upCapacity
    ensures Reachable(c, Sending(c, n))
  {
    if n == 0 {
      var none: seq<Action> := [];
      assert IsRun(c, Init(c), none) && After(c, Init(c), none) == Sending(c, 0);
    } else {
      ReachSending(c, n - 1);
      Extend(c.message, n - 1, n);
      ReachOn(c, Sending(c, n - 1), Move(1));
      assert Step(c, Sending(c, n - 1), Move(1)) == Sending(c, n);
    }
  }

  /** One byte is read and waits to be echoed. */
  function Holding(c: Config, n: nat): State
    requires n < |c.message|
  {
    State(ServerSend(n, c.message[n..n + 1], 0), c.message[n + 1..], true, c.message[..n], false)
  }

  lemma ReachHolding(c: Config, n: nat)
    requires n < |c.message| && Reachable(c, Echoing(c, n))
    ensures Reachable(c, Holding(c, n))
  {
    Extend(c.message, n, n + 1);
    ReachOn(c, Echoing(c, n), Move(1));
    assert Step(c, Echoing(c, n), Move(1)) == Holding(c, n);
  }

  lemma {:induction false} ReachEchoing(c: Config, n: nat)
    requires |c.message| <= c.upCapacity && n <= |c.message| && n <= c.downCapacity
    ensures Reachable(c, Echoing(c, n))
  {
    if n == 0 {
      ReachSending(c, |c.message|);
      ReachOn(c, Sending(c, |c.message|), Close);
      assert c.message[..|c.message|] == c.message[0..] && c.message[..0] == [];
      assert Step(c, Sending(c, |c.message|), Close) == Echoing(c, 0);
    } else {
      ReachEchoing(c, n - 1);
      ReachHolding(c, n - 1);
      Extend(c.message, n - 1, n);
      var held := Holding(c, n - 1);
      ReachOn(c, held, Move(1));
      assert held.phase.chunk[0..1] == c.message[n - 1..n];
      assert Step(c, held, Move(1)) == Echoing(c, n);
    }
  }

  /** The first direction that cannot hold the message is where the program,
      which has nobody to make room, waits for ever. */
  lemma SticksWithout(c: Config)
    requires !FitsBuffers(c)
    ensures exists s :: Reachable(c, s) && !Final(s) && !CanProceed(c, s)
  {
    if |c.message| > c.upCapacity {
      var s := Sending(c, c.upCapacity);
      ReachSending(c, c.upCapacity);
      assert !Final(s) && !CanProceed(c, s);
    } else {
      var s := Holding(c, c.downCapacity);
      ReachEchoing(c, c.downCapacity);
      ReachHolding(c, c.downCapacity);
      assert !Final(s) && !CanProceed(c, s);
    }
  }

  lemma {:induction false} NotFailed(c: Config, s: State, trace: seq<Action>)
    requires Inv(c, s) && !s.phase.Failed? && IsRun(c, s, trace) && forall a <- trace :: !Fails(a)
    ensures !After(c, s, trace).phase.Failed?
    decreases |trace|
  {
    if trace != [] {
      StepInv(c, s, trace[0]);
      assert trace[0] in trace && forall a <- trace[1..] :: a in trace;
      NotFailed(c, Step(c, s, trace[0]), trace[1..]);
    }
  }

  /** Without failing calls, to come to an end is to have accepted the echo. */
  ghost predicate Works(c: Config) {
    forall s | Reachable(c, s) && !CanProceed(c, s) :: s.phase == Done(true)
  }

  /** The example works, however transfers are split, exactly if each direction
      of the connection can hold the whole message. */
  lemma WorksExactly(c: Config)
    ensures Works(c) <==> FitsBuffers(c)
  {
    if FitsBuffers(c) {
      forall s | Reachable(c, s) && !CanProceed(c, s)
        ensures s.phase == Done(true)
      {
        var trace :| IsRun(c, Init(c), trace) && (forall a <- trace :: !Fails(a)) && After(c, Init(c), trace) == s;
        RunInv(c, Init(c), trace);
        NotFailed(c, Init(c), trace);
        if !Final(s) {
          Proceeds(c, s);
        }
      }
    } else {
      SticksWithout(c);
    }
  }

  // --- How long it takes -----------------------------------------------------------

  function Measure(c: Config, s: State): int {
    var n := |c.message|;
    match s.phase
    case SendRequest(sent) => 4 * n - sent + 4
    case FinishRequest => 3 * n + 4
    case ServerReceive(echoed) => 3 * n - 2 * echoed + 3
    case ServerSend(echoed, chunk, offset) => 3 * n - 2 * echoed - |chunk| - offset + 3
    case FinishResponse => n + 2
    case ClientReceive(received, _) => n - received + 1
    case Done(_) => 0
    case Failed => 0
  }

  lemma MeasureDrops(c: Config, s: State, a: Action)
    requires Inv(c, s) && Enabled(c, s, a) && !a.Interrupted?
    ensures Measure(c, Step(c, s, a)) < Measure(c, s)
  {
    MeasureNotNegative(c, s);
    if a.Move? {
      MoveDrops(c, s, a.k);
    }
  }

  lemma MoveDrops(c: Config, s: State, k: nat)
    requires Inv(c, s) && Enabled(c, s, Move(k))
    ensures Measure(c, Transfer(c, s, k)) < Measure(c, s)
  {
  }

  function Calls(trace: seq<Action>): nat {
    if trace == [] then 0 else (if trace[0].Interrupted? then 0 else 1) + Calls(trace[1..])
  }

  lemma {:induction false} CallsAreSteps(trace: seq<Action>)
    requires forall a <- trace :: !a.Interrupted?
    ensures Calls(trace) == |trace|
  {
    if trace != [] {
      assert trace[0] in trace && forall a <- trace[1..] :: a in trace;
      CallsAreSteps(trace[1..]);
    }
  }

  lemma {:induction false} CallsBounded(c: Config, s: State, trace: seq<Action>)
    requires Inv(c, s) && IsRun(c, s, trace)
    ensures Calls(trace) <= Measure(c, s)
    decreases |trace|
  {
    if trace != [] {
      StepInv(c, s, trace[0]);
      CallsBounded(c, Step(c, s, trace[0]), trace[1..]);
      if !trace[0].Interrupted? {
        MeasureDrops(c, s, trace[0]);
      }
    } else {
      MeasureNotNegative(c, s);
    }
  }

  lemma MeasureNotNegative(c: Config, s: State)
    requires Inv(c, s)
    ensures Measure(c, s) >= 0
  {
  }

  /** Every run ends: at most four calls per byte, and four more, are not interrupted. */
  lemma RunEnds(c: Config, trace: seq<Action>)
    requires IsRun(c, Init(c), trace)
    ensures Calls(trace) <= 4 * |c.message| + 4
  {
    CallsBounded(c, Init(c), trace);
  }
}
