/** What the two loopback benchmarks have in common: two threads, a client and a
    server, each making one system call at a time. */
module Loopback {

  datatype Who = Client | Server

  function Other(who: Who): Who {
    if who == Client then Server else Client
  }

  /** `Failing` is a thread whose loop has ended with an error and which has yet
      to call `Shutdown`. */
  datatype Status = Running | Failing | Stopped(error: bool)

  /** Move(k): the call moves k bytes. Interrupted: EINTR, retried. Fault: the
      call fails, a timeout included. SeeEof: `recv` returns 0. Refused: `send`
      fails because the peer no longer reads. Close: `Shutdown()` of both
      directions. CloseFails: that call fails, which the thread ignores. */
  datatype Action = Move(k: nat) | Interrupted | Fault | SeeEof | Refused | Close | CloseFails

  /** Steps that need no failing or interrupted call. */
  predicate Productive(a: Action) {
    !a.Interrupted? && !Fails(a)
  }

  /** Calls that fail by the environment's choice. */
  predicate Fails(a: Action) {
    a.Fault? || a.CloseFails?
  }

  /** A run: who does what, in this order. Any interleaving, any split. */
  type Trace = seq<(Who, Action)>

  /** How many calls of the run were not interrupted. */
  function Calls(trace: Trace): nat
    decreases |trace|
  {
    if trace == [] then 0 else (if trace[0].1.Interrupted? then 0 else 1) + Calls(trace[1..])
  }

  lemma {:induction false} CallsAreSteps(trace: Trace)
    requires forall step <- trace :: !step.1.Interrupted?
    ensures Calls(trace) == |trace|
    decreases |trace|
  {
    if trace != [] {
      assert trace[0] in trace && forall step <- trace[1..] :: step in trace;
      CallsAreSteps(trace[1..]);
    }
  }

  /** The bytes that a thread moves in a run. */
  function Moved(trace: Trace, who: Who): nat
    decreases |trace|
  {
    if trace == [] then 0
    else (if trace[0].0 == who && trace[0].1.Move? then trace[0].1.k else 0) + Moved(trace[1..], who)
  }

  predicate FaultFree(trace: Trace) {
    forall step <- trace :: !Fails(step.1)
  }
}
