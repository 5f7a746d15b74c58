/** How sockets and listeners acquire and give up descriptors, and what they do
    with them: include/net/detail/socket_helpers.hpp and tcp_helpers.hpp,
    tcp_socket.hpp, udp_socket.hpp and tcp_listener.hpp. The contracts state the
    exact system calls. A `SocketHandle` that goes out of scope is closed where
    C++ destroys it. */
module Sockets {
  import opened Common
  import opened Addresses
  import opened EndpointNative
  import opened Kernel
  import opened SystemCalls
  import opened SocketHandleModel
  import opened Streams

  function Family(version: IPVersion): nat {
    if version == IPv4 then AF_INET else AF_INET6
  }

  /** The socket address bytes for an endpoint. */
  function AddressBytes(host: Host, e: Endpoint): seq<byte>
    requires ConstructibleEndpoint(e)
  {
    var (storage, length) := ToNative(host, e);
    storage[..length]
  }

  /** The address of an endpoint names the family that its sockets are made for:
      2 or 10, in the host's order; read back it is the endpoint. */
  lemma AddressNamesFamily(host: Host, e: Endpoint)
    requires ConstructibleEndpoint(e)
    ensures var bytes := AddressBytes(host, e);
            && |bytes| == (if e.address.version == IPv4 then 16 else 28)
            && Number2(host, bytes[0], bytes[1]) == Family(e.address.version)
            && Family(e.address.version) == (if e.address.version == IPv4 then 2 else 10)
            && FromNative(host, Some(bytes), |bytes|) == Some(e)
  {
    Layout(host, e);
    NativeRoundTrip(host, e, AddressBytes(host, e), ToNative(host, e).1);
  }

  /** The descriptor a handle has got, or the error. */
  ghost function Got(created: Result<SocketHandle>): Result<int>
    reads if created.Success? then {created.value} else {}
  {
    match created
    case Success(handle) => Success(handle.handle)
    case Failure(error) => Failure(error)
  }

  ghost function GotBy(handle: SocketHandle, result: Result<()>): Result<int>
    reads handle
  {
    match result
    case Success(_) => Success(handle.handle)
    case Failure(error) => Failure(error)
  }

  /** `handle` owns a descriptor that was not open before, and only that one
      has been opened. */
  ghost predicate Acquired(handle: SocketHandle, os: Os, before: set<int>)
    reads handle, os
  {
    handle.os == os && handle.handle >= 0 && handle.handle !in before && os.table.open == before + {handle.handle}
  }

  /** `CreateSocket`, for any number that a caller may have cast to a version. */
  method CreateSocket(os: Os, version: int, protocol: Protocol) returns (created: Result<SocketHandle>)
    modifies os`table
    ensures created.Failure? ==> os.table.open == old(os.table.open)
    ensures created.Success? ==> fresh(created.value) && Acquired(created.value, os, old(os.table.open))
    ensures old(os.table.calls) <= os.table.calls
    ensures match VersionOf(version)
            case None => created == Failure(InvalidArgument) && os.table.calls == old(os.table.calls)
            case Some(v) => Creates(os.table.calls[|old(os.table.calls)|..], Family(v), protocol, [], Got(created))
  {
    if VersionOf(version).None? {
      return Failure(InvalidArgument);
    }
    var fd, code := os.Socket(Family(VersionOf(version).value), protocol);
    var handle := new SocketHandle(os, fd);
    if !handle.IsValid() {
      handle.Close();
      return Failure(System(code));
    }
    var moved := new SocketHandle.MovedFrom(handle);
    handle.Close();
    return Success(moved);
  }

  /** `CreateTcpSocket`: a socket that cannot be configured is closed again. */
  method CreateTcpSocket(os: Os, version: int) returns (created: Result<SocketHandle>)
    modifies os`table
    ensures created.Failure? ==> os.table.open == old(os.table.open)
    ensures created.Success? ==> fresh(created.value) && Acquired(created.value, os, old(os.table.open))
    ensures old(os.table.calls) <= os.table.calls
    ensures match VersionOf(version)
            case None => created == Failure(InvalidArgument) && os.table.calls == old(os.table.calls)
            case Some(v) => Creates(os.table.calls[|old(os.table.calls)|..], Family(v), TcpProtocol, [Configure],
                                    Got(created))
  {
    ghost var n := |os.table.calls|;
    assert [] + [Configure] == [Configure];
    created := CreateSocket(os, version, TcpProtocol);
    if created.Failure? {
      if VersionOf(version).Some? {
        CreationFailed(os.table.calls[n..], Family(VersionOf(version).value), TcpProtocol, [], Configure, created.error);
      }
      return;
    }
    var handle := new SocketHandle.MovedFrom(created.value);
    created := Establish(os, handle, Configure, Family(VersionOf(version).value), TcpProtocol, [], n);
  }

  /** One more request to a new socket, in `handle`; when that fails the handle
      goes out of scope. */
  method Establish(os: Os, handle: SocketHandle, what: Request,
                   ghost family: nat, ghost protocol: Protocol, ghost requests: seq<Request>, ghost from: nat)
    returns (created: Result<SocketHandle>)
    requires handle.os == os && handle.handle >= 0 && handle.handle in os.table.open && from <= |os.table.calls|
    requires Creates(os.table.calls[from..], family, protocol, requests, Success(handle.handle))
    modifies handle, os`table
    ensures old(os.table.calls) <= os.table.calls
    ensures created.Success? ==> created.value == handle && unchanged(handle) && os.table.open == old(os.table.open)
    ensures created.Failure? ==> !handle.IsValid() && os.table.open == old(os.table.open) - {old(handle.handle)}
    ensures Creates(os.table.calls[from..], family, protocol, requests + [what], Got(created))
  {
    ghost var calls, fd := os.table.calls, handle.handle;
    var error := os.Ask(handle.handle, what);
    CreatedNext(calls[from..], family, protocol, requests, fd, what, error);
    assert os.table.calls[from..] == calls[from..] + [Requested(fd, what, error)];
    if error.Some? {
      handle.Close();
      assert os.table.calls[from..] == calls[from..] + [Requested(fd, what, error), Closed(fd)];
      return Failure(System(error.value));
    }
    return Success(handle);
  }

  /** What fits into the int that the kernel takes for a length. */
  function TransferLength(length: nat): (n: nat)
    ensures n <= 0x7FFF_FFFF && n <= length && (n == length || n == 0x7FFF_FFFF)
  {
    if length < INT_MAX then length else INT_MAX
  }

  /** The endpoint is what the kernel says and the library understands. */
  predicate Tells(host: Host, call: SysCall, handle: int, peer: bool, result: Result<Endpoint>) {
    && call.Located? && call.fd == handle && call.peer == peer && call.length <= |call.storage|
    && result ==
       if call.error.Some? then Failure(System(call.error.value))
       else match FromNative(host, Some(call.storage), call.length)
            case Some(endpoint) => Success(endpoint)
            case None => Failure(InvalidArgument)
  }

  /** `GetLocalEndpoint` and `GetPeerEndpoint`. */
  method QueryEndpoint(os: Os, handle: int, peer: bool) returns (result: Result<Endpoint>)
    requires handle == INVALID_HANDLE || handle in os.table.open
    modifies os`table
    ensures os.table.open == old(os.table.open)
    ensures handle == INVALID_HANDLE ==> result == Failure(BadDescriptor) && os.table.calls == old(os.table.calls)
    ensures handle != INVALID_HANDLE ==>
              && |os.table.calls| == |old(os.table.calls)| + 1 && old(os.table.calls) <= os.table.calls
              && Tells(os.host, os.table.calls[|os.table.calls| - 1], handle, peer, result)
    ensures result.Success? ==> ConstructibleEndpoint(result.value)
  {
    if handle == INVALID_HANDLE {
      return Failure(BadDescriptor);
    }
    var error, storage, length := os.AskAddress(handle, peer);
    if error.Some? {
      return Failure(System(error.value));
    }
    var endpoint := FromNative(os.host, Some(storage), length);
    if endpoint.None? {
      return Failure(InvalidArgument);
    }
    NativeNormalised(os.host, storage, length);
    return Success(endpoint.value);
  }

  class TcpSocket {
    const handle: SocketHandle

    constructor (os: Os)
      ensures fresh(handle) && handle.os == os && !handle.IsValid()
    {
      handle := new SocketHandle(os);
    }

    /** The constructor used by `Accept`, and the move constructor. */
    constructor Over(taken: SocketHandle)
      modifies taken
      ensures fresh(handle) && handle.os == taken.os && handle.handle == old(taken.handle)
      ensures taken.handle == INVALID_HANDLE
    {
      handle := new SocketHandle.MovedFrom(taken);
    }

    method Connect(endpoint: Endpoint) returns (result: Result<()>)
      requires ConstructibleEndpoint(endpoint)
      modifies handle, handle.os`table
      ensures old(handle.IsValid()) ==> result == Failure(AlreadyConnected) && unchanged(handle) && unchanged(handle.os)
      ensures !old(handle.IsValid()) && result.Failure? ==>
                !handle.IsValid() && handle.os.table.open == old(handle.os.table.open)
      ensures result.Success? ==> Acquired(handle, handle.os, old(handle.os.table.open))
      ensures old(handle.os.table.calls) <= handle.os.table.calls
      ensures !old(handle.IsValid()) ==>
                Creates(handle.os.table.calls[|old(handle.os.table.calls)|..], Family(endpoint.address.version), TcpProtocol,
                        [Configure, ConnectTo(AddressBytes(handle.os.host, endpoint))], GotBy(handle, result))
    {
      if handle.IsValid() {
        return Failure(AlreadyConnected);
      }
      result := AcquireTcp(handle, endpoint, ConnectTo(AddressBytes(handle.os.host, endpoint)));
    }

    /** `Send`: one call that is not interrupted. `output` is the direction of
        the connection that the kernel keeps for this descriptor. */
    method Send(output: Stream, buffer: seq<byte>) returns (result: Result<nat>)
      requires output.Valid()
      modifies output
      ensures output.Valid() && output.ReaderMoved()
      ensures !handle.IsValid() ==> result == Failure(BadDescriptor)
      ensures handle.IsValid() && buffer == [] ==> result == Success(0)
      ensures result.Success? ==> result.value <= TransferLength(|buffer|)
      ensures output.written == old(output.written) + if result.Success? then buffer[..result.value] else []
      ensures old(output.sends) <= output.sends
      ensures |output.sends| == |old(output.sends)| + if handle.IsValid() && buffer != [] then 1 else 0
      ensures handle.IsValid() && buffer != [] ==>
                var call := output.sends[|output.sends| - 1];
                && call.length == TransferLength(|buffer|)
                && match call.outcome
                   case Done(count) => result == Success(count)
                   case Failed(code) => result == Failure(System(code))
                   case Interrupted => false
    {
      if !handle.IsValid() {
        return Failure(BadDescriptor);
      }
      if buffer == [] {
        return Success(0);
      }
      var length := TransferLength(|buffer|);
      while true
        invariant output.Valid() && output.ReaderMoved()
        invariant output.written == old(output.written) && output.sends == old(output.sends)
        decreases output.patience
      {
        var call := output.Send(buffer[..length]);
        if call.Done? {
          assert buffer[..length][..call.count] == buffer[..call.count];
          return Success(call.count);
        }
        if !call.Interrupted? {
          return Failure(System(call.code));
        }
      }
    }

    /** `Receive` into the part of `buffer` that begins at `from`. */
    method Receive(input: Stream, buffer: array<byte>, from: nat) returns (result: Result<nat>)
      requires input.Valid() && from <= buffer.Length
      modifies input, buffer
      ensures input.Valid() && input.WriterMoved()
      ensures !handle.IsValid() ==> result == Failure(BadDescriptor)
      ensures handle.IsValid() && from == buffer.Length ==> result == Success(0)
      ensures result.Failure? ==> input.taken == old(input.taken)
      ensures old(input.receives) <= input.receives
      ensures |input.receives| == |old(input.receives)| + if handle.IsValid() && from < buffer.Length then 1 else 0
      ensures handle.IsValid() && from < buffer.Length ==>
                var call := input.receives[|input.receives| - 1];
                && call.length == TransferLength(buffer.Length - from)
                && match call.outcome
                   case Done(count) => result == Success(count)
                   case Failed(code) => result == Failure(System(code))
                   case Interrupted => false
      ensures forall i | 0 <= i < buffer.Length && !(result.Success? && from <= i < from + result.value) ::
                buffer[i] == old(buffer[i])
      ensures result.Success? ==>
                && result.value <= TransferLength(buffer.Length - from)
                && input.taken == old(input.taken) + result.value
                && buffer[from..from + result.value] == input.written[old(input.taken)..input.taken]
                && (result.value == 0 && from < buffer.Length ==> input.closed && input.Unread() == [])
    {
      if !handle.IsValid() {
        return Failure(BadDescriptor);
      }
      if from == buffer.Length {
        return Success(0);
      }
      var length := TransferLength(buffer.Length - from);
      while true
        invariant input.Valid() && input.WriterMoved() && input.taken == old(input.taken)
        invariant input.receives == old(input.receives)
        invariant forall i | 0 <= i < buffer.Length :: buffer[i] == old(buffer[i])
        decreases input.patience
      {
        var call := input.Recv(buffer, from, length);
        if call.Done? {
          return Success(call.count);
        }
        if !call.Interrupted? {
          return Failure(System(call.code));
        }
      }
    }

    /** `Shutdown`, for any number that a caller may have cast to a direction:
        receiving (0), sending (1) or both (2). Once sending is shut down the peer
        will see the end of `output`. */
    method Shutdown(direction: int, output: Stream) returns (result: Result<()>)
      requires output.Valid() && handle.Owns() <= handle.os.table.open
      modifies output, handle.os`table
      ensures handle.os.table.open == old(handle.os.table.open)
      ensures output.Valid() && output.written == old(output.written) && output.taken == old(output.taken)
      ensures output.sends == old(output.sends) && output.receives == old(output.receives)
      ensures output.closed == (old(output.closed) || (result.Success? && direction > 0))
      ensures !handle.IsValid() ==> result == Failure(BadDescriptor) && unchanged(handle.os)
      ensures handle.IsValid() && !(0 <= direction <= 2) ==> result == Failure(InvalidArgument) && unchanged(handle.os)
      ensures handle.IsValid() && 0 <= direction <= 2 ==>
                var calls := handle.os.table.calls;
                && |calls| == |old(handle.os.table.calls)| + 1 && old(handle.os.table.calls) <= calls
                && match calls[|calls| - 1]
                   case Requested(fd, what, error) =>
                     && fd == handle.handle && what == ShutDown(direction)
                     && result == (if error.None? then Success(()) else Failure(System(error.value)))
                   case _ => false
    {
      if !handle.IsValid() {
        return Failure(BadDescriptor);
      }
      if direction < 0 || direction > 2 {
        return Failure(InvalidArgument);
      }
      var error := handle.os.Ask(handle.handle, ShutDown(direction));
      if error.Some? {
        return Failure(System(error.value));
      }
      if direction > 0 {
        output.closed, output.toCome := true, 0;
      }
      return Success(());
    }

    method Close()
      requires handle.Owns() <= handle.os.table.open
      modifies handle, handle.os`table
      ensures !handle.IsValid() && handle.os.table.open == old(handle.os.table.open) - old(handle.Owns())
      ensures handle.os.table.calls == old(handle.os.table.calls) + old(handle.Closing())
    {
      handle.Close();
    }
  }

  /** What `Connect` and `TcpListener::Bind` share: a new socket, the request,
      and only after that the member. */
  method AcquireTcp(handle: SocketHandle, endpoint: Endpoint, what: Request) returns (result: Result<()>)
    requires ConstructibleEndpoint(endpoint) && !handle.IsValid()
    modifies handle, handle.os`table
    ensures result.Failure? ==> !handle.IsValid() && handle.os.table.open == old(handle.os.table.open)
    ensures result.Success? ==> Acquired(handle, handle.os, old(handle.os.table.open))
    ensures old(handle.os.table.calls) <= handle.os.table.calls
    ensures Creates(handle.os.table.calls[|old(handle.os.table.calls)|..], Family(endpoint.address.version), TcpProtocol,
                    [Configure, what], GotBy(handle, result))
  {
    ghost var family, n := Family(endpoint.address.version), |handle.os.table.calls|;
    assert [Configure] + [what] == [Configure, what];
    var created := CreateTcpSocket(handle.os, VersionCode(endpoint.address.version));
    if created.Failure? {
      CreationFailed(handle.os.table.calls[n..], family, TcpProtocol, [Configure], what, created.error);
      return Failure(created.error);
    }
    var local := new SocketHandle.MovedFrom(created.value);
    created := Establish(handle.os, local, what, family, TcpProtocol, [Configure], n);
    if created.Failure? {
      return Failure(created.error);
    }
    ghost var calls := handle.os.table.calls;
    handle.MoveAssign(local);
    local.Close();
    assert handle.os.table.calls == calls;
    return Success(());
  }

  class UdpSocket {
    const handle: SocketHandle

    constructor (os: Os)
      ensures fresh(handle) && handle.os == os && !handle.IsValid()
    {
      handle := new SocketHandle(os);
    }

    /** The move constructor. */
    constructor Over(taken: SocketHandle)
      modifies taken
      ensures fresh(handle) && handle.os == taken.os && handle.handle == old(taken.handle)
      ensures taken.handle == INVALID_HANDLE
    {
      handle := new SocketHandle.MovedFrom(taken);
    }

    method Bind(endpoint: Endpoint) returns (result: Result<()>)
      requires ConstructibleEndpoint(endpoint)
      modifies handle, handle.os`table
      ensures old(handle.IsValid()) ==> result == Failure(InvalidArgument) && unchanged(handle) && unchanged(handle.os)
      ensures !old(handle.IsValid()) && result.Failure? ==>
                !handle.IsValid() && handle.os.table.open == old(handle.os.table.open)
      ensures result.Success? ==> Acquired(handle, handle.os, old(handle.os.table.open))
      ensures old(handle.os.table.calls) <= handle.os.table.calls
      ensures !old(handle.IsValid()) ==>
                Creates(handle.os.table.calls[|old(handle.os.table.calls)|..], Family(endpoint.address.version), UdpProtocol,
                        [BindTo(AddressBytes(handle.os.host, endpoint))], GotBy(handle, result))
    {
      if handle.IsValid() {
        return Failure(InvalidArgument);
      }
      ghost var family, n := Family(endpoint.address.version), |handle.os.table.calls|;
      var what := BindTo(AddressBytes(handle.os.host, endpoint));
      assert [] + [what] == [what];
      var created := CreateSocket(handle.os, VersionCode(endpoint.address.version), UdpProtocol);
      if created.Failure? {
        CreationFailed(handle.os.table.calls[n..], family, UdpProtocol, [], what, created.error);
        return Failure(created.error);
      }
      var local := new SocketHandle.MovedFrom(created.value);
      created := Establish(handle.os, local, what, family, UdpProtocol, [], n);
      if created.Failure? {
        return Failure(created.error);
      }
      ghost var calls := handle.os.table.calls;
      handle.MoveAssign(local);
      local.Close();
      assert handle.os.table.calls == calls;
      return Success(());
    }

    /** One datagram, whole or not at all. A first send creates the socket, and
        the object gets it only when the send succeeds. */
    method SendTo(buffer: seq<byte>, destination: Endpoint) returns (result: Result<nat>)
      requires ConstructibleEndpoint(destination) && handle.Owns() <= handle.os.table.open
      modifies handle, handle.os
      ensures |buffer| > 0x7FFF_FFFF ==> result == Failure(MessageSize) && unchanged(handle) && unchanged(handle.os)
      ensures old(handle.IsValid()) || result.Failure? ==>
                unchanged(handle) && handle.os.table.open == old(handle.os.table.open)
      ensures !old(handle.IsValid()) && result.Success? ==> Acquired(handle, handle.os, old(handle.os.table.open))
      ensures old(handle.os.table.calls) <= handle.os.table.calls
      ensures !old(handle.IsValid()) && result.Success? ==>
                && |handle.os.table.calls| > |old(handle.os.table.calls)|
                && handle.os.table.calls[|old(handle.os.table.calls)|] ==
                   Socketed(Family(destination.address.version), UdpProtocol, Granted(handle.handle))
      ensures var calls := handle.os.table.calls[|old(handle.os.table.calls)|..];
              forall k | 0 <= k < |calls| && calls[k].Sent? ::
                match calls[k].outcome
                case Done(count) => if count == |buffer| then result == Success(|buffer|) else result == Failure(MessageSize)
                case Failed(code) => result == Failure(System(code))
                case Interrupted => false
      ensures |buffer| <= 0x7FFF_FFFF ==>
                SendsOne(handle.os.table.calls[|old(handle.os.table.calls)|..], old(handle.handle),
                         Family(destination.address.version), buffer, AddressBytes(handle.os.host, destination), result)
    {
      if |buffer| > INT_MAX {
        return Failure(MessageSize);
      }
      ghost var before, owned := handle.os.table.calls, handle.handle;
      result := SendWhole(buffer, destination);
      SentMeans(handle.os.table.calls[|before|..], owned, Family(destination.address.version), buffer,
                AddressBytes(handle.os.host, destination), result);
    }

    /** The same, once the size is known to fit. */
    method SendWhole(buffer: seq<byte>, destination: Endpoint) returns (result: Result<nat>)
      requires ConstructibleEndpoint(destination) && handle.Owns() <= handle.os.table.open && |buffer| <= INT_MAX
      modifies handle, handle.os
      ensures old(handle.IsValid()) || result.Failure? ==>
                unchanged(handle) && handle.os.table.open == old(handle.os.table.open)
      ensures !old(handle.IsValid()) && result.Success? ==> Acquired(handle, handle.os, old(handle.os.table.open))
      ensures old(handle.os.table.calls) <= handle.os.table.calls
      ensures !old(handle.IsValid()) && result.Success? ==>
                && |handle.os.table.calls| > |old(handle.os.table.calls)|
                && handle.os.table.calls[|old(handle.os.table.calls)|] ==
                   Socketed(Family(destination.address.version), UdpProtocol, Granted(handle.handle))
      ensures SendsOne(handle.os.table.calls[|old(handle.os.table.calls)|..], old(handle.handle),
                       Family(destination.address.version), buffer, AddressBytes(handle.os.host, destination), result)
    {
      var pending := new SocketHandle(handle.os);
      var failed, opening := PreparePending(handle, pending, destination);
      if failed.Some? {
        return Failure(failed.value);
      }
      var descriptor := if handle.IsValid() then handle.handle else pending.handle;
      var address := AddressBytes(handle.os.host, destination);
      var call := SendDatagram(handle.os, descriptor, buffer, address);
      ghost var owned := handle.handle;
      result := Conclude(handle, pending, call, |buffer|);
      CallsOfSending(opening, owned, descriptor, Family(destination.address.version), buffer, address, call, result);
    }

    method Close()
      requires handle.Owns() <= handle.os.table.open
      modifies handle, handle.os`table
      ensures !handle.IsValid() && handle.os.table.open == old(handle.os.table.open) - old(handle.Owns())
      ensures handle.os.table.calls == old(handle.os.table.calls) + old(handle.Closing())
    {
      handle.Close();
    }

    /** One datagram per call: returned whole with its sender, or, when it does
        not fit or its sender is unknown, consumed and reported. `arrived` is the
        queue when the last call was made. */
    method ReceiveFrom(mailbox: Mailbox, buffer: array<byte>)
      returns (result: Result<(nat, Endpoint)>, ghost arrived: seq<Datagram>)
      modifies mailbox, buffer
      ensures old(mailbox.queue) <= arrived
      ensures !handle.IsValid() ==> result == Failure(BadDescriptor) && unchanged(mailbox)
      ensures handle.IsValid() && buffer.Length > 0x7FFF_FFFF ==> result == Failure(MessageSize) && unchanged(mailbox)
      ensures handle.IsValid() && buffer.Length <= 0x7FFF_FFFF ==>
                && |mailbox.receives| == |old(mailbox.receives)| + 1 && old(mailbox.receives) <= mailbox.receives
                && ReceivesOne(handle.os.host, arrived, mailbox.queue, buffer[..],
                               mailbox.receives[|mailbox.receives| - 1], result)
    {
      arrived := mailbox.queue;
      if !handle.IsValid() {
        return Failure(BadDescriptor), arrived;
      }
      if buffer.Length > INT_MAX {
        return Failure(MessageSize), arrived;
      }
      while true
        invariant old(mailbox.queue) <= mailbox.queue && mailbox.receives == old(mailbox.receives)
        decreases mailbox.patience
      {
        var call, truncated, address;
        call, truncated, address, arrived := mailbox.RecvMsg(buffer);
        if call.Interrupted? {
          continue;
        }
        if call.Failed? {
          return Failure(System(call.code)), arrived;
        }
        if truncated {
          return Failure(MessageSize), arrived;
        }
        var sender := FromNative(handle.os.host, Some(address), |address|);
        if sender.None? {
          return Failure(InvalidArgument), arrived;
        }
        return Success((call.count, sender.value)), arrived;
      }
    }
  }

  /** What one `recvmsg` into `content` means when `arrived` waits and `left`
      stays: the first datagram whole, or why not. */
  predicate ReceivesOne(host: Host, arrived: seq<Datagram>, left: seq<Datagram>, content: seq<byte>, call: Transfer,
                        result: Result<(nat, Endpoint)>)
  {
    && call.length == |content|
    && match call.outcome
       case Interrupted => false
       case Failed(code) => result == Failure(System(code)) && left == arrived
       case Done(_) =>
         && arrived != [] && left == arrived[1..]
         && var first := arrived[0];
            if |first.payload| > |content| then result == Failure(MessageSize)
            else
              match FromNative(host, Some(first.address), |first.address|)
              case None => result == Failure(InvalidArgument)
              case Some(sender) => result == Success((|first.payload|, sender)) && first.payload <= content
  }

  /** A datagram that fits, from an endpoint's own address, is returned whole
      and with that endpoint. */
  lemma KnownSenderReceived(host: Host, arrived: seq<Datagram>, left: seq<Datagram>, content: seq<byte>, call: Transfer,
                            result: Result<(nat, Endpoint)>, sender: Endpoint)
    requires ReceivesOne(host, arrived, left, content, call, result) && call.outcome.Done?
    requires ConstructibleEndpoint(sender) && |arrived[0].payload| <= |content|
    requires arrived[0].address == AddressBytes(host, sender)
    ensures result == Success((|arrived[0].payload|, sender)) && arrived[0].payload <= content
  {
    AddressNamesFamily(host, sender);
  }

  /** The loop in `SendTo`: interrupted calls are repeated. */
  method SendDatagram(os: Os, descriptor: int, data: seq<byte>, address: seq<byte>) returns (call: Call)
    requires descriptor in os.table.open
    modifies os`patience, os`table
    ensures os.table.open == old(os.table.open)
    ensures !call.Interrupted? && os.table.calls == old(os.table.calls) + [Sent(descriptor, data, address, call)]
  {
    while true
      invariant os.table == old(os.table)
      decreases os.patience
    {
      call := os.SendTo(descriptor, data, address);
      if !call.Interrupted? {
        return;
      }
    }
  }

  /** The beginning of `SendTo`: a socket in `pending` when `handle` has none. */
  method PreparePending(handle: SocketHandle, pending: SocketHandle, destination: Endpoint)
    returns (failed: Option<SocketError>, ghost opening: seq<SysCall>)
    requires handle != pending && handle.os == pending.os && !pending.IsValid()
    modifies pending, handle.os`table
    ensures handle.os.table.calls == old(handle.os.table.calls) + opening
    ensures handle.IsValid() ==> failed == None && opening == [] && unchanged(pending) && unchanged(handle.os)
    ensures !handle.IsValid() && failed.None? ==>
              && Acquired(pending, handle.os, old(handle.os.table.open))
              && opening == [Socketed(Family(destination.address.version), UdpProtocol, Granted(pending.handle))]
    ensures failed.Some? ==>
              && failed.value.System? && !pending.IsValid() && handle.os.table.open == old(handle.os.table.open)
              && opening == [Socketed(Family(destination.address.version), UdpProtocol, Denied(failed.value.code))]
  {
    failed, opening := None, [];
    if !handle.IsValid() {
      ghost var n := |handle.os.table.calls|;
      var created := CreateSocket(handle.os, VersionCode(destination.address.version), UdpProtocol);
      opening := handle.os.table.calls[n..];
      if created.Failure? {
        pending.Close();
        return Some(created.error), opening;
      }
      pending.MoveAssign(created.value);
    }
  }

  /** The end of `SendTo`: `handle` takes over `pending` on success; otherwise
      `pending` goes out of scope. */
  method Conclude(handle: SocketHandle, pending: SocketHandle, call: Call, size: nat) returns (result: Result<nat>)
    requires handle != pending && handle.os == pending.os && !call.Interrupted?
    requires pending.Owns() <= handle.os.table.open && (handle.IsValid() ==> !pending.IsValid())
    modifies handle, pending, handle.os`table
    ensures Means(call, size, result)
    ensures result.Success? ==>
              && handle.os.table.open == old(handle.os.table.open) && handle.os.table.calls == old(handle.os.table.calls)
              && if old(pending.IsValid()) then handle.handle == old(pending.handle) else unchanged(handle)
    ensures result.Failure? ==>
              && unchanged(handle) && handle.os.table.open == old(handle.os.table.open) - old(pending.Owns())
              && handle.os.table.calls == old(handle.os.table.calls) + old(pending.Closing())
  {
    if call.Failed? {
      pending.Close();
      return Failure(System(call.code));
    }
    if call.count != size {
      pending.Close();
      return Failure(MessageSize);
    }
    if pending.IsValid() {
      handle.MoveAssign(pending);
    }
    pending.Close();
    return Success(call.count);
  }

  /** What an uninterrupted `sendto` of `size` bytes means: all or nothing. */
  predicate Means(outcome: Call, size: nat, result: Result<nat>) {
    match outcome
    case Done(count) => result == if count == size then Success(size) else Failure(MessageSize)
    case Failed(code) => result == Failure(System(code))
    case Interrupted => false
  }

  lemma CallsOfSending(opening: seq<SysCall>, handle: int, fd: int, family: nat,
                       data: seq<byte>, address: seq<byte>, call: Call, result: Result<nat>)
    requires if handle != INVALID_HANDLE then opening == [] && fd == handle
             else opening == [Socketed(family, UdpProtocol, Granted(fd))]
    requires Means(call, |data|, result)
    ensures var closing := if handle != INVALID_HANDLE || result.Success? then [] else [Closed(fd)];
            SendsOne(opening + [Sent(fd, data, address, call)] + closing, handle, family, data, address, result)
  {
  }

  lemma SentMeans(calls: seq<SysCall>, handle: int, family: nat, data: seq<byte>, address: seq<byte>, result: Result<nat>)
    requires SendsOne(calls, handle, family, data, address, result)
    ensures forall k | 0 <= k < |calls| && calls[k].Sent? :: Means(calls[k].outcome, |data|, result)
  {
  }

  /** The calls of `SendTo` for an object that holds `handle`. */
  predicate SendsOne(calls: seq<SysCall>, handle: int, family: nat, data: seq<byte>, address: seq<byte>,
                     result: Result<nat>)
  {
    if handle != INVALID_HANDLE then
      |calls| == 1 && calls[0].Sent? && Means(calls[0].outcome, |data|, result)
      && calls[0] == Sent(handle, data, address, calls[0].outcome)
    else
      && calls != [] && calls[0].Socketed? && calls[0].family == family && calls[0].protocol == UdpProtocol
      && match calls[0].grant
         case Denied(code) => calls == [calls[0]] && result == Failure(System(code))
         case Granted(fd) =>
           && |calls| >= 2 && calls[1].Sent? && Means(calls[1].outcome, |data|, result)
           && calls == [calls[0], Sent(fd, data, address, calls[1].outcome)] + if result.Success? then [] else [Closed(fd)]
  }

  class TcpListener {
    const handle: SocketHandle

    constructor (os: Os)
      ensures fresh(handle) && handle.os == os && !handle.IsValid()
    {
      handle := new SocketHandle(os);
    }

    /** The move constructor. */
    constructor Over(taken: SocketHandle)
      modifies taken
      ensures fresh(handle) && handle.os == taken.os && handle.handle == old(taken.handle)
      ensures taken.handle == INVALID_HANDLE
    {
      handle := new SocketHandle.MovedFrom(taken);
    }

    method Bind(endpoint: Endpoint) returns (result: Result<()>)
      requires ConstructibleEndpoint(endpoint)
      modifies handle, handle.os`table
      ensures old(handle.IsValid()) ==> result == Failure(InvalidArgument) && unchanged(handle) && unchanged(handle.os)
      ensures !old(handle.IsValid()) && result.Failure? ==>
                !handle.IsValid() && handle.os.table.open == old(handle.os.table.open)
      ensures result.Success? ==> Acquired(handle, handle.os, old(handle.os.table.open))
      ensures old(handle.os.table.calls) <= handle.os.table.calls
      ensures !old(handle.IsValid()) ==>
                Creates(handle.os.table.calls[|old(handle.os.table.calls)|..], Family(endpoint.address.version), TcpProtocol,
                        [Configure, BindTo(AddressBytes(handle.os.host, endpoint))], GotBy(handle, result))
    {
      if handle.IsValid() {
        return Failure(InvalidArgument);
      }
      result := AcquireTcp(handle, endpoint, BindTo(AddressBytes(handle.os.host, endpoint)));
    }

    method Close()
      requires handle.Owns() <= handle.os.table.open
      modifies handle, handle.os`table
      ensures !handle.IsValid() && handle.os.table.open == old(handle.os.table.open) - old(handle.Owns())
      ensures handle.os.table.calls == old(handle.os.table.calls) + old(handle.Closing())
    {
      handle.Close();
    }

    method Listen(backlog: int) returns (result: Result<()>)
      requires handle.Owns() <= handle.os.table.open
      modifies handle.os`table
      ensures handle.os.table.open == old(handle.os.table.open)
      ensures !handle.IsValid() ==> result == Failure(BadDescriptor) && unchanged(handle.os)
      ensures handle.IsValid() && backlog <= 0 ==> result == Failure(InvalidArgument) && unchanged(handle.os)
      ensures handle.IsValid() && backlog > 0 ==>
                var calls := handle.os.table.calls;
                && |calls| == |old(handle.os.table.calls)| + 1 && old(handle.os.table.calls) <= calls
                && match calls[|calls| - 1]
                   case Requested(fd, what, error) =>
                     && fd == handle.handle && what == ListenWith(backlog)
                     && result == (if error.None? then Success(()) else Failure(System(error.value)))
                   case _ => false
    {
      if !handle.IsValid() {
        return Failure(BadDescriptor);
      }
      if backlog <= 0 {
        return Failure(InvalidArgument);
      }
      var error := handle.os.Ask(handle.handle, ListenWith(backlog));
      return if error.None? then Success(()) else Failure(System(error.value));
    }

    /** The listener keeps its descriptor whatever happens; an accepted
        connection that cannot be configured is closed again. */
    method Accept() returns (result: Result<TcpSocket>)
      requires handle.Owns() <= handle.os.table.open
      modifies handle.os
      ensures !handle.IsValid() ==> result == Failure(BadDescriptor) && unchanged(handle.os)
      ensures result.Failure? ==> handle.os.table.open == old(handle.os.table.open)
      ensures result.Success? ==> fresh(result.value) && fresh(result.value.handle)
      ensures result.Success? ==> Acquired(result.value.handle, handle.os, old(handle.os.table.open))
      ensures old(handle.os.table.calls) <= handle.os.table.calls
      ensures handle.IsValid() ==>
                AcceptsOne(handle.os.table.calls[|old(handle.os.table.calls)|..], handle.handle, Taken(result))
    {
      if !handle.IsValid() {
        return Failure(BadDescriptor);
      }
      ghost var calls := handle.os.table.calls;
      while true
        invariant handle.os.table.open == old(handle.os.table.open) && handle.os.table.calls == calls
        decreases handle.os.patience
      {
        var fd, call := handle.os.Accept(handle.handle);
        var accepted := new SocketHandle(handle.os, fd);
        if !accepted.IsValid() {
          accepted.Close();
          if call.Interrupted? {
            continue;
          }
          return Failure(System(call.code));
        }
        ghost var accepting := Accepted(handle.handle, Granted(fd));
        var error := handle.os.Ask(accepted.handle, Configure);
        assert handle.os.table.calls == calls + [accepting, Requested(fd, Configure, error)];
        if error.Some? {
          accepted.Close();
          assert handle.os.table.calls == calls + [accepting, Requested(fd, Configure, error), Closed(fd)];
          return Failure(System(error.value));
        }
        var socket := new TcpSocket.Over(accepted);
        accepted.Close();
        return Success(socket);
      }
    }
  }

  ghost function Taken(result: Result<TcpSocket>): Result<int>
    reads if result.Success? then {result.value.handle} else {}
  {
    match result
    case Success(socket) => Success(socket.handle.handle)
    case Failure(error) => Failure(error)
  }

  /** The calls of `Accept` on a valid listener. */
  predicate AcceptsOne(calls: seq<SysCall>, listener: int, result: Result<int>) {
    && calls != [] && calls[0].Accepted? && calls[0].listener == listener
    && match calls[0].grant
       case Denied(code) => calls == [calls[0]] && result == Failure(System(code))
       case Granted(fd) => Attempts(calls[1..], fd, [Configure], result)
  }

  /** All that they can be. */
  lemma AcceptsExactly(calls: seq<SysCall>, listener: int, result: Result<int>)
    ensures AcceptsOne(calls, listener, result) <==>
            calls != [] && match calls[0]
              case Accepted(l, Denied(code)) =>
                l == listener && calls == [calls[0]] && result == Failure(System(code))
              case Accepted(l, Granted(fd)) =>
                && l == listener
                && (|| (calls == [calls[0], Requested(fd, Configure, None)] && result == Success(fd))
                    || (|calls| == 3 && calls[1].Requested? && calls[1].error.Some?
                        && calls == [calls[0], Requested(fd, Configure, calls[1].error), Closed(fd)]
                        && result == Failure(System(calls[1].error.value))))
              case _ => false
  {
    if calls != [] && calls[0].Accepted? && calls[0].grant.Granted? {
      assert calls == [calls[0]] + calls[1..];
      AttemptsOneExactly(calls[1..], calls[0].grant.fd, Configure, result);
    }
  }
}
