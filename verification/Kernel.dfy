/** What the sockets ask of the operating system. Every outcome a call may have
    is left open: the contracts say all that a caller can rely on. */
module Kernel {
  import opened Common
  import opened EndpointNative

  const INVALID_HANDLE: int := -1
  const INT_MAX: int := 0x7FFF_FFFF

  datatype SocketError =
    | BadDescriptor
    | InvalidArgument
    | AlreadyConnected
    | MessageSize
    | IoError
    | System(code: int)

  datatype Result<+T> = Success(value: T) | Failure(error: SocketError)

  /** The result of a transfer: a count, EINTR, or another error. */
  datatype Call = Done(count: nat) | Interrupted | Failed(code: int)

  datatype Protocol = TcpProtocol | UdpProtocol

  /** What a call that makes a descriptor gives. */
  datatype Grant = Granted(fd: int) | Denied(code: int)

  datatype SocketOption = ReceiveTimeout(seconds: nat) | SendTimeout(seconds: nat) | NoDelay(enabled: bool)

  /** What is asked of an open descriptor; addresses are the bytes handed over. */
  datatype Request =
    | Configure
    | SetOption(option: SocketOption)
    | ConnectTo(address: seq<byte>)
    | BindTo(address: seq<byte>)
    | ListenWith(backlog: int)
    | ShutDown(how: nat)

  /** A call with its outcome; `error` is None when a request succeeds. */
  datatype SysCall =
    | Socketed(family: nat, protocol: Protocol, grant: Grant)
    | Accepted(listener: int, grant: Grant)
    | Requested(fd: int, what: Request, error: Option<int>)
    | Located(fd: int, peer: bool, storage: seq<byte>, length: nat, error: Option<int>)
    | Sent(fd: int, data: seq<byte>, address: seq<byte>, outcome: Call)
    | Closed(fd: int)

  /** What is open after a call, when `open` was open before it. */
  function Opened(open: set<int>, call: SysCall): set<int> {
    match call
    case Socketed(_, _, Granted(fd)) => open + {fd}
    case Accepted(_, Granted(fd)) => open + {fd}
    case Closed(fd) => open - {fd}
    case _ => open
  }

  function OpenAfter(open: set<int>, calls: seq<SysCall>): set<int>
    decreases |calls|
  {
    if calls == [] then open else Opened(OpenAfter(open, calls[..|calls| - 1]), calls[|calls| - 1])
  }

  lemma {:induction false} OpenAfterSplit(open: set<int>, a: seq<SysCall>, b: seq<SysCall>)
    ensures OpenAfter(open, a + b) == OpenAfter(OpenAfter(open, a), b)
    decreases |b|
  {
    if b == [] {
      assert a + b == a;
    } else {
      assert (a + b)[..|a + b| - 1] == a + b[..|b| - 1];
      OpenAfterSplit(open, a, b[..|b| - 1]);
    }
  }

  predicate Fresh(open: set<int>, grant: Grant) {
    match grant
    case Granted(fd) => fd >= 0 && fd !in open
    case Denied(_) => true
  }

  /** A call names an open descriptor, and gets one that is not open. */
  predicate Sensible(open: set<int>, call: SysCall) {
    match call
    case Socketed(_, _, grant) => Fresh(open, grant)
    case Accepted(listener, grant) => listener in open && Fresh(open, grant)
    case Requested(fd, _, _) => fd in open
    case Located(fd, _, _, _, _) => fd in open
    case Sent(fd, _, _, _) => fd in open
    case Closed(fd) => fd in open
  }

  /** What was open after the first k calls. */
  function AsOf(calls: seq<SysCall>, k: nat): set<int>
    requires k <= |calls|
  {
    OpenAfter({}, calls[..k])
  }

  /** All calls were sensible when they were made, and have left `open` open. */
  predicate Consistent(open: set<int>, calls: seq<SysCall>) {
    forall k {:trigger AsOf(calls, k)} | 0 <= k <= |calls| ::
      if k < |calls| then Sensible(AsOf(calls, k), calls[k]) else open == AsOf(calls, k)
  }

  /** The open descriptors, whose numbers may come again once they are closed,
      and all calls so far but the interrupted ones. */
  datatype Record = Record(open: set<int>, calls: seq<SysCall>)

  type Table = t: Record | Consistent(t.open, t.calls) witness Record({}, [])

  function Note(t: Table, call: SysCall): (noted: Table)
    requires Sensible(t.open, call)
    ensures noted.open == Opened(t.open, call) && noted.calls == t.calls + [call]
  {
    Appended(t.open, t.calls, call);
    Record(Opened(t.open, call), t.calls + [call])
  }

  lemma Appended(open: set<int>, calls: seq<SysCall>, call: SysCall)
    requires Consistent(open, calls) && Sensible(open, call)
    ensures Consistent(Opened(open, call), calls + [call])
  {
    var all := calls + [call];
    assert all[..|all|] == all && all[..|calls|] == calls == calls[..|calls|];
    assert AsOf(calls, |calls|) == open == AsOf(all, |calls|);
    forall k | 0 <= k <= |all|
      ensures if k < |all| then Sensible(AsOf(all, k), all[k]) else Opened(open, call) == AsOf(all, k)
    {
      if k < |calls| {
        assert all[..k] == calls[..k];
        assert AsOf(all, k) == AsOf(calls, k);
      }
    }
  }

  predicate Grants(call: SysCall, fd: int) {
    Gives(call) && call.grant.fd == fd
  }

  predicate Gives(call: SysCall) {
    (call.Socketed? || call.Accepted?) && call.grant.Granted?
  }

  lemma AsOfNext(calls: seq<SysCall>, i: nat)
    requires i < |calls|
    ensures AsOf(calls, i + 1) == Opened(AsOf(calls, i), calls[i])
  {
    assert calls[..i + 1][..i] == calls[..i];
  }

  /** What opens in between has been granted in between. */
  lemma {:induction false} OpenedBetween(calls: seq<SysCall>, i: nat, j: nat, fd: int)
    requires i <= j <= |calls| && fd !in AsOf(calls, i) && fd in AsOf(calls, j)
    ensures exists k | i <= k < j :: Grants(calls[k], fd)
  {
    if i < j {
      AsOfNext(calls, j - 1);
      if !Grants(calls[j - 1], fd) {
        OpenedBetween(calls, i, j - 1, fd);
      }
    }
  }

  /** What closes in between has been closed by a call in between. */
  lemma {:induction false} ClosedBetween(calls: seq<SysCall>, i: nat, j: nat, fd: int)
    requires i <= j <= |calls| && fd in AsOf(calls, i) && fd !in AsOf(calls, j)
    ensures exists k | i <= k < j :: calls[k] == Closed(fd)
  {
    if i < j {
      AsOfNext(calls, j - 1);
      if calls[j - 1] != Closed(fd) {
        ClosedBetween(calls, i, j - 1, fd);
      }
    }
  }

  /** Between two closings of a number it is granted: no descriptor is closed twice. */
  ghost predicate ClosedOnce(calls: seq<SysCall>) {
    forall i, j | 0 <= i < j < |calls| && calls[i].Closed? && calls[j] == calls[i] ::
      exists k | i < k < j :: Grants(calls[k], calls[i].fd)
  }

  /** Between two grants of a number it is closed: no two open descriptors share one. */
  ghost predicate GrantedOnce(calls: seq<SysCall>) {
    forall i, j | 0 <= i < j < |calls| && Gives(calls[i]) && Grants(calls[j], calls[i].grant.fd) ::
      exists k | i < k < j :: calls[k] == Closed(calls[i].grant.fd)
  }

  lemma ConsistentIsOnce(open: set<int>, calls: seq<SysCall>)
    requires Consistent(open, calls)
    ensures ClosedOnce(calls) && GrantedOnce(calls)
  {
    forall i, j | 0 <= i < j < |calls| && calls[i].Closed? && calls[j] == calls[i]
      ensures exists k | i < k < j :: Grants(calls[k], calls[i].fd)
    {
      AsOfNext(calls, i);
      assert Sensible(AsOf(calls, j), calls[j]);
      OpenedBetween(calls, i + 1, j, calls[i].fd);
    }
    forall i, j | 0 <= i < j < |calls| && Gives(calls[i]) && Grants(calls[j], calls[i].grant.fd)
      ensures exists k | i < k < j :: calls[k] == Closed(calls[i].grant.fd)
    {
      GrantsApart(open, calls, i, j, calls[i].grant.fd);
    }
  }

  lemma GrantsApart(open: set<int>, calls: seq<SysCall>, i: nat, j: nat, fd: int)
    requires Consistent(open, calls) && i < j < |calls| && Grants(calls[i], fd) && Grants(calls[j], fd)
    ensures exists k | i < k < j :: calls[k] == Closed(fd)
  {
    AsOfNext(calls, i);
    assert Sensible(AsOf(calls, j), calls[j]);
    ClosedBetween(calls, i + 1, j, fd);
  }

  /** However many descriptors are open, another number is free. */
  lemma SomeDescriptorFree(open: set<int>)
    ensures exists fd: nat :: fd !in open
  {
    var bound := Bound(open);
    assert bound !in open;
  }

  lemma {:induction false} Bound(s: set<int>) returns (bound: nat)
    ensures forall x <- s :: x < bound
  {
    bound := 0;
    if y :| y in s {
      bound := Bound(s - {y});
      assert forall x <- s :: x == y || x in s - {y};
      bound := if y < bound then bound else y + 1;
    } else {
      assert forall x <- s :: x < bound;
    }
  }

  class Os {
    const host: Host
    var table: Table
    /** How often calls will still be interrupted: any number, but not for ever. */
    var patience: nat

    constructor (host: Host)
      ensures this.host == host && table == Record({}, [])
    {
      this.host, table, patience := host, Record({}, []), *;
    }

    /** Whatever was called meanwhile, what is open follows from those calls. */
    twostate lemma OpenSince()
      requires old(table.calls) <= table.calls
      ensures table.open == OpenAfter(old(table.open), table.calls[|old(table.calls)|..])
    {
      var before, now := old(table.calls), table.calls;
      assert before == before[..|before|] && now == now[..|now|] == before + now[|before|..];
      assert old(table.open) == AsOf(before, |before|) && table.open == AsOf(now, |now|);
      OpenAfterSplit({}, before, now[|before|..]);
    }

    /** `socket` */
    method Socket(family: nat, protocol: Protocol) returns (fd: int, code: int)
      modifies this`table
      ensures table.calls == old(table.calls) + [Socketed(family, protocol, GrantOf(fd, code))]
      ensures table.open == old(table.open) + if fd == INVALID_HANDLE then {} else {fd}
      ensures fd != INVALID_HANDLE ==> fd >= 0 && fd !in old(table.open)
    {
      code := *;
      fd := SomeDescriptor();
      table := Note(table, Socketed(family, protocol, GrantOf(fd, code)));
    }

    /** A number that is free, or none. */
    method SomeDescriptor() returns (fd: int)
      ensures fd != INVALID_HANDLE ==> fd >= 0 && fd !in table.open
    {
      var granted: bool := *;
      if !granted {
        return INVALID_HANDLE;
      }
      SomeDescriptorFree(table.open);
      var n: nat :| n !in table.open;
      return n;
    }

    /** `accept` on an open descriptor. `error` matters only without a descriptor:
        EINTR, or the error. */
    method Accept(listener: int) returns (fd: int, error: Call)
      requires listener in table.open
      modifies this
      ensures table.open == old(table.open) + if fd == INVALID_HANDLE then {} else {fd}
      ensures fd != INVALID_HANDLE ==> fd >= 0 && fd !in old(table.open)
      ensures fd == INVALID_HANDLE ==> !error.Done?
      ensures if fd == INVALID_HANDLE && error.Interrupted?
              then table == old(table) && patience < old(patience)
              else table.calls == old(table.calls) +
                     [Accepted(listener, GrantOf(fd, if error.Failed? then error.code else 0))]
    {
      var code: int := *;
      fd := SomeDescriptor();
      error := Done(0);
      if fd == INVALID_HANDLE {
        error := Disturb(code);
      }
      if !error.Interrupted? {
        table := Note(table, Accepted(listener, GrantOf(fd, if error.Failed? then error.code else 0)));
      }
    }

    /** A call that does not succeed: interrupted, while patience lasts, or failed. */
    method Disturb(code: int) returns (result: Call)
      modifies this`patience
      ensures result.Interrupted? ==> patience < old(patience)
      ensures !result.Done?
    {
      var interrupted: bool := *;
      if interrupted && patience > 0 {
        patience := patience - 1;
        result := Interrupted;
      } else {
        result := Failed(code);
      }
    }

    /** `close`, for an open descriptor only. What it returns does not matter. */
    method Close(fd: int)
      requires fd in table.open
      modifies this`table
      ensures table.open == old(table.open) - {fd} && table.calls == old(table.calls) + [Closed(fd)]
    {
      table := Note(table, Closed(fd));
    }

    /** `connect`, `bind`, `listen`, `shutdown` or `setsockopt`. */
    method Ask(fd: int, what: Request) returns (error: Option<int>)
      requires fd in table.open
      modifies this`table
      ensures table.open == old(table.open) && table.calls == old(table.calls) + [Requested(fd, what, error)]
    {
      error := *;
      table := Note(table, Requested(fd, what, error));
    }

    /** `getsockname` or `getpeername`: the address comes in a sockaddr_storage,
        with the length in use. */
    method AskAddress(fd: int, peer: bool) returns (error: Option<int>, storage: seq<byte>, length: nat)
      requires fd in table.open
      modifies this`table
      ensures table.open == old(table.open)
      ensures table.calls == old(table.calls) + [Located(fd, peer, storage, length, error)]
      ensures |storage| == SIZEOF_STORAGE && length <= SIZEOF_STORAGE
    {
      error := *;
      storage := seq(SIZEOF_STORAGE, _ => 0);
      length :| length <= SIZEOF_STORAGE;
      for i := 0 to SIZEOF_STORAGE
        invariant |storage| == SIZEOF_STORAGE
      {
        var b: byte := *;
        storage := storage[i := b];
      }
      table := Note(table, Located(fd, peer, storage, length, error));
    }

    /** `sendto`: the count may be anything. */
    method SendTo(fd: int, data: seq<byte>, address: seq<byte>) returns (result: Call)
      requires fd in table.open
      modifies this`patience, this`table
      ensures table.open == old(table.open)
      ensures if result.Interrupted? then table == old(table) && patience < old(patience)
              else table.calls == old(table.calls) + [Sent(fd, data, address, result)]
    {
      var done: bool, count: nat, code: int := *, *, *;
      if done {
        result := Done(count);
      } else {
        result := Disturb(code);
      }
      if !result.Interrupted? {
        table := Note(table, Sent(fd, data, address, result));
      }
    }
  }

  function GrantOf(fd: int, code: int): Grant {
    if fd == INVALID_HANDLE then Denied(code) else Granted(fd)
  }
}
