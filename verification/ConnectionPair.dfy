/** The setup of both benchmarks, `ConnectPair` of benchmarks/net/bench_tcp.cpp:
    a listener, a connection to it, and both ends of the connection. */
module ConnectionPair {
  import opened Common
  import opened Addresses
  import opened EndpointNative
  import opened Kernel
  import opened SystemCalls
  import opened SocketHandleModel
  import opened Sockets

  const SOMAXCONN: int := 4096

  // --- The calls, when none fails -----------------------------------------------

  /** A listener at a free port of the loopback address, which the kernel tells. */
  predicate ListenerCalls(host: Host, calls: seq<SysCall>, listener: int, endpoint: Endpoint) {
    && |calls| == 5 && calls[4].Located? && calls[4].length <= |calls[4].storage|
    && FromNative(host, Some(calls[4].storage), calls[4].length) == Some(endpoint)
    && calls == [Socketed(2, TcpProtocol, Granted(listener)),
                 Requested(listener, Configure, None),
                 Requested(listener, BindTo(AddressBytes(host, MakeEndpoint(Loopback(IPv4), 0, 0))), None),
                 Requested(listener, ListenWith(4096), None),
                 Located(listener, false, calls[4].storage, calls[4].length, None)]
  }

  /** A client that connects to `endpoint`, and the server's end of it. */
  function JoinCalls(host: Host, listener: int, client: int, server: int, endpoint: Endpoint): seq<SysCall>
    requires ConstructibleEndpoint(endpoint)
  {
    [Socketed(if endpoint.address.version == IPv4 then 2 else 10, TcpProtocol, Granted(client)),
     Requested(client, Configure, None),
     Requested(client, ConnectTo(AddressBytes(host, endpoint)), None),
     Accepted(listener, Granted(server)),
     Requested(server, Configure, None)]
  }

  /** The options of one end. */
  function OptionCalls(fd: int, noDelay: bool): seq<SysCall> {
    [Requested(fd, SetOption(ReceiveTimeout(5)), None),
     Requested(fd, SetOption(SendTimeout(5)), None),
     Requested(fd, SetOption(NoDelay(noDelay)), None)]
  }

  /** All of it, from the listener's socket to its closing. */
  ghost predicate PairCalls(host: Host, calls: seq<SysCall>, client: int, server: int, noDelay: bool) {
    exists opening, listener, endpoint ::
      && ConstructibleEndpoint(endpoint) && ListenerCalls(host, opening, listener, endpoint)
      && calls == opening + JoinCalls(host, listener, client, server, endpoint)
                  + [Requested(client, SetOption(ReceiveTimeout(5)), None),
                     Requested(client, SetOption(SendTimeout(5)), None),
                     Requested(client, SetOption(NoDelay(noDelay)), None),
                     Requested(server, SetOption(ReceiveTimeout(5)), None),
                     Requested(server, SetOption(SendTimeout(5)), None),
                     Requested(server, SetOption(NoDelay(noDelay)), None)]
                  + [Closed(listener)]
  }

  // --- The calls, when one fails ------------------------------------------------

  /** Told an address that the library does not understand. */
  predicate Baffling(host: Host, call: SysCall) {
    && call.Located? && call.error.None? && call.length <= |call.storage|
    && FromNative(host, Some(call.storage), call.length) == None
  }

  /** The error is that of one of `calls`, or else one was answered with such an
      address. */
  ghost predicate Explained(host: Host, calls: seq<SysCall>, error: SocketError) {
    Reported(calls, error) || (error == InvalidArgument && exists call <- calls :: Baffling(host, call))
  }

  /** Among more calls the explanation still stands. */
  lemma ExplainedWithin(host: Host, calls: seq<SysCall>, more: seq<SysCall>, error: SocketError)
    requires Explained(host, calls, error) && forall call <- calls :: call in more
    ensures Explained(host, more, error)
  {
  }

  /** The calls since there were `from`. */
  ghost function Since(os: Os, from: nat): seq<SysCall>
    requires from <= |os.table.calls|
    reads os
  {
    os.table.calls[from..]
  }

  lemma LaterCalls(calls: seq<SysCall>, more: seq<SysCall>, from: nat, mid: nat)
    requires from <= mid <= |calls| && calls <= more
    ensures forall call <- calls[mid..] :: call in more[from..]
  {
    forall k | mid <= k < |calls|
      ensures calls[k] in more[from..]
    {
      assert more[from..][k - from] == calls[k];
    }
  }

  // --- The operations -------------------------------------------------------------

  /** `Configure`: one `setsockopt` after the other, until one fails. */
  method SetOptions(socket: TcpSocket, noDelay: bool) returns (error: Option<int>)
    requires socket.handle.IsValid() && socket.handle.Owns() <= socket.handle.os.table.open
    modifies socket.handle.os`table
    ensures socket.handle.os.table.open == old(socket.handle.os.table.open)
    ensures error.None? ==>
              socket.handle.os.table.calls == old(socket.handle.os.table.calls) + OptionCalls(socket.handle.handle, noDelay)
    ensures error.Some? ==>
              var before, calls, fd := old(socket.handle.os.table.calls), socket.handle.os.table.calls, socket.handle.handle;
              || calls == before + [Requested(fd, SetOption(ReceiveTimeout(5)), error)]
              || calls == before + [Requested(fd, SetOption(ReceiveTimeout(5)), None),
                                    Requested(fd, SetOption(SendTimeout(5)), error)]
              || calls == before + [Requested(fd, SetOption(ReceiveTimeout(5)), None),
                                    Requested(fd, SetOption(SendTimeout(5)), None),
                                    Requested(fd, SetOption(NoDelay(noDelay)), error)]
  {
    var os, fd := socket.handle.os, socket.handle.handle;
    error := os.Ask(fd, SetOption(ReceiveTimeout(5)));
    if error.None? {
      error := os.Ask(fd, SetOption(SendTimeout(5)));
      if error.None? {
        error := os.Ask(fd, SetOption(NoDelay(noDelay)));
      }
    }
  }

  method ConfigureBoth(client: TcpSocket, server: TcpSocket, noDelay: bool) returns (error: Option<SocketError>)
    requires client.handle.IsValid() && server.handle.IsValid() && client.handle.os == server.handle.os
    requires client.handle.Owns() + server.handle.Owns() <= client.handle.os.table.open
    modifies client.handle.os`table
    ensures client.handle.os.table.open == old(client.handle.os.table.open)
    ensures old(client.handle.os.table.calls) <= client.handle.os.table.calls
    ensures error.None? ==>
              client.handle.os.table.calls == old(client.handle.os.table.calls)
                + (OptionCalls(client.handle.handle, noDelay) + OptionCalls(server.handle.handle, noDelay))
    ensures error.Some? ==>
              Reported(Since(client.handle.os, |old(client.handle.os.table.calls)|), error.value)
  {
    var os := client.handle.os;
    var code := SetOptions(client, noDelay);
    if code.None? {
      code := SetOptions(server, noDelay);
    }
    if code.Some? {
      ghost var calls := os.table.calls;
      assert CodeOf(calls[|calls| - 1]) == code;
      assert Since(os, |old(os.table.calls)|)[|calls| - 1 - |old(os.table.calls)|] == calls[|calls| - 1];
      return Some(System(code.value));
    }
    return None;
  }

  /** A listener at a free port of the loopback address, and where it is. When
      something fails the listener goes out of scope. */
  method PrepareListener(listener: TcpListener) returns (endpoint: Result<Endpoint>)
    requires !listener.handle.IsValid()
    modifies listener.handle, listener.handle.os`table
    ensures old(listener.handle.os.table.calls) <= listener.handle.os.table.calls
    ensures endpoint.Failure? ==>
              && listener.handle.os.table.open == old(listener.handle.os.table.open)
              && Explained(listener.handle.os.host, Since(listener.handle.os, |old(listener.handle.os.table.calls)|),
                           endpoint.error)
    ensures endpoint.Success? ==>
              && Acquired(listener.handle, listener.handle.os, old(listener.handle.os.table.open))
              && ConstructibleEndpoint(endpoint.value)
              && ListenerCalls(listener.handle.os.host,
                               Since(listener.handle.os, |old(listener.handle.os.table.calls)|),
                               listener.handle.handle, endpoint.value)
  {
    var os := listener.handle.os;
    ghost var before := os.table.calls;
    var error := BindAnyPort(listener);
    if error.Some? {
      return Failure(error.value);
    }
    ghost var bound := os.table.calls;
    endpoint := ListenAndLocate(listener);
    if endpoint.Failure? {
      LaterCalls(os.table.calls, os.table.calls, |before|, |bound|);
      ExplainedWithin(os.host, os.table.calls[|bound|..], Since(os, |before|), endpoint.error);
    } else {
      DropFront(before, bound, Since(os, |bound|));
      ListenerCallsComposed(os.host, bound[|before|..], Since(os, |bound|), listener.handle.handle, endpoint.value);
    }
  }

  lemma ListenerCallsComposed(host: Host, binding: seq<SysCall>, rest: seq<SysCall>, listener: int, endpoint: Endpoint)
    requires binding == [Socketed(2, TcpProtocol, Granted(listener)),
                         Requested(listener, Configure, None),
                         Requested(listener, BindTo(AddressBytes(host, MakeEndpoint(Loopback(IPv4), 0, 0))), None)]
    requires |rest| == 2 && rest[1].Located? && rest[1].length <= |rest[1].storage|
    requires FromNative(host, Some(rest[1].storage), rest[1].length) == Some(endpoint)
    requires rest == [Requested(listener, ListenWith(4096), None),
                      Located(listener, false, rest[1].storage, rest[1].length, None)]
    ensures ListenerCalls(host, binding + rest, listener, endpoint)
  {
    assert (binding + rest)[4] == rest[1];
  }

  /** The first half of that. */
  method BindAnyPort(listener: TcpListener) returns (error: Option<SocketError>)
    requires !listener.handle.IsValid()
    modifies listener.handle, listener.handle.os`table
    ensures old(listener.handle.os.table.calls) <= listener.handle.os.table.calls
    ensures error.None? ==>
              && Acquired(listener.handle, listener.handle.os, old(listener.handle.os.table.open))
              && var address := AddressBytes(listener.handle.os.host, MakeEndpoint(Loopback(IPv4), 0, 0));
                 listener.handle.os.table.calls == old(listener.handle.os.table.calls) +
                   [Socketed(2, TcpProtocol, Granted(listener.handle.handle)),
                    Requested(listener.handle.handle, Configure, None),
                    Requested(listener.handle.handle, BindTo(address), None)]
    ensures error.Some? ==>
              && !listener.handle.IsValid() && listener.handle.os.table.open == old(listener.handle.os.table.open)
              && Reported(Since(listener.handle.os, |old(listener.handle.os.table.calls)|), error.value)
  {
    ghost var os := listener.handle.os;
    ghost var before := os.table.calls;
    var anyPort := MakeEndpoint(Loopback(IPv4), 0, 0);
    var bound := listener.Bind(anyPort);
    ghost var address, calls := AddressBytes(os.host, anyPort), Since(os, |before|);
    CreationFine(calls, 2, TcpProtocol, [Configure, BindTo(address)], GotBy(listener.handle, bound));
    if bound.Failure? {
      return Some(bound.error);
    }
    CreatesTwoExactly(calls, 2, TcpProtocol, Configure, BindTo(address), Success(listener.handle.handle));
    assert os.table.calls == before + calls;
    return None;
  }

  /** The second half of that, on a bound listener. */
  method ListenAndLocate(listener: TcpListener) returns (endpoint: Result<Endpoint>)
    requires listener.handle.IsValid() && listener.handle.handle in listener.handle.os.table.open
    modifies listener.handle, listener.handle.os`table
    ensures old(listener.handle.os.table.calls) <= listener.handle.os.table.calls
    ensures endpoint.Failure? ==>
              && listener.handle.os.table.open == old(listener.handle.os.table.open) - {old(listener.handle.handle)}
              && Explained(listener.handle.os.host, Since(listener.handle.os, |old(listener.handle.os.table.calls)|),
                           endpoint.error)
    ensures endpoint.Success? ==>
              && unchanged(listener.handle) && listener.handle.os.table.open == old(listener.handle.os.table.open)
              && ConstructibleEndpoint(endpoint.value)
              && var calls := Since(listener.handle.os, |old(listener.handle.os.table.calls)|);
                 && |calls| == 2 && calls[1].Located? && calls[1].length <= |calls[1].storage|
                 && FromNative(listener.handle.os.host, Some(calls[1].storage), calls[1].length) == Some(endpoint.value)
                 && calls == [Requested(listener.handle.handle, ListenWith(4096), None),
                              Located(listener.handle.handle, false, calls[1].storage, calls[1].length, None)]
  {
    var os := listener.handle.os;
    ghost var before := os.table.calls;
    var listening := listener.Listen(SOMAXCONN);
    ghost var calls := os.table.calls;
    assert calls == before + [calls[|before|]];
    if listening.Failure? {
      assert CodeOf(calls[|before|]) == Some(listening.error.code);
      listener.handle.Close();
      assert Since(os, |before|)[0] == calls[|before|];
      return Failure(listening.error);
    }
    endpoint := QueryEndpoint(os, listener.handle.handle, false);
    calls := os.table.calls;
    ghost var told := calls[|before| + 1];
    assert calls == before + [calls[|before|], told];
    if endpoint.Failure? {
      listener.handle.Close();
      assert Since(os, |before|)[1] == told;
      assert if told.error.Some? then CodeOf(told) == Some(endpoint.error.code) else Baffling(os.host, told);
    } else {
      assert Since(os, |before|) == [calls[|before|], told];
    }
  }

  /** `pair.server = std::move(accepted).Value()` */
  method AcceptInto(listener: TcpListener, server: TcpSocket) returns (error: Option<SocketError>)
    requires listener.handle.IsValid() && !server.handle.IsValid() && listener.handle.os == server.handle.os
    requires listener.handle.handle in listener.handle.os.table.open
    modifies server.handle, listener.handle.os
    ensures unchanged(listener.handle) && old(listener.handle.os.table.calls) <= listener.handle.os.table.calls
    ensures error.None? ==>
              && Acquired(server.handle, server.handle.os, old(listener.handle.os.table.open))
              && listener.handle.os.table.calls == old(listener.handle.os.table.calls) +
                   [Accepted(listener.handle.handle, Granted(server.handle.handle)),
                    Requested(server.handle.handle, Configure, None)]
    ensures error.Some? ==>
              && !server.handle.IsValid() && listener.handle.os.table.open == old(listener.handle.os.table.open)
              && Reported(Since(listener.handle.os, |old(listener.handle.os.table.calls)|), error.value)
  {
    ghost var before := listener.handle.os.table.calls;
    var accepted := listener.Accept();
    ghost var calls := Since(listener.handle.os, |before|);
    AcceptFine(calls, listener.handle.handle, Taken(accepted));
    if accepted.Failure? {
      return Some(accepted.error);
    }
    AcceptsExactly(calls, listener.handle.handle, Taken(accepted));
    assert listener.handle.os.table.calls == before + calls;
    server.handle.MoveAssign(accepted.value.handle);
    accepted.value.Close();
    return None;
  }

  lemma AcceptFine(calls: seq<SysCall>, listener: int, result: Result<int>)
    requires AcceptsOne(calls, listener, result)
    ensures result.Success? <==> AllFine(calls)
    ensures result.Failure? ==> Reported(calls, result.error)
  {
    assert calls == [calls[0]] + calls[1..] && calls[0] in calls;
    match calls[0].grant
    case Denied(code) => assert CodeOf(calls[0]) == Some(code);
    case Granted(fd) =>
      AttemptsFine(calls[1..], fd, [Configure], result);
      assert forall call <- calls[1..] :: call in calls;
  }

  /** The open descriptors are those of `before` and what the two handles own. */
  ghost predicate Joined(client: SocketHandle, server: SocketHandle, os: Os, before: set<int>)
    reads client, server, os
  {
    && client.Owns() !! before && server.Owns() !! before && client.Owns() !! server.Owns()
    && os.table.open == before + client.Owns() + server.Owns()
    && (client.IsValid() ==> client.handle >= 0) && (server.IsValid() ==> server.handle >= 0)
  }

  /** Connects the client to the listener and accepts it. */
  method JoinBoth(listener: TcpListener, client: TcpSocket, server: TcpSocket, endpoint: Endpoint)
    returns (error: Option<SocketError>)
    requires ConstructibleEndpoint(endpoint)
    requires listener.handle.IsValid() && !client.handle.IsValid() && !server.handle.IsValid()
    requires listener.handle.os == client.handle.os == server.handle.os
    requires listener.handle.handle in listener.handle.os.table.open
    requires client.handle != server.handle
    modifies client.handle, server.handle, listener.handle.os
    ensures unchanged(listener.handle) && old(listener.handle.os.table.calls) <= listener.handle.os.table.calls
    ensures Joined(client.handle, server.handle, listener.handle.os, old(listener.handle.os.table.open))
    ensures error.None? ==>
              && client.handle.IsValid() && server.handle.IsValid()
              && listener.handle.os.table.calls == old(listener.handle.os.table.calls) +
                   JoinCalls(listener.handle.os.host, listener.handle.handle, client.handle.handle, server.handle.handle,
                             endpoint)
    ensures error.Some? ==> Reported(Since(listener.handle.os, |old(listener.handle.os.table.calls)|), error.value)
  {
    ghost var before := listener.handle.os.table.calls;
    error := ConnectClient(client, endpoint);
    if error.None? {
      error := AcceptInto(listener, server);
      if error.Some? {
        ghost var calls := listener.handle.os.table.calls;
        LaterCalls(calls, calls, |before|, |before| + 3);
      }
    }
  }

  method ConnectClient(client: TcpSocket, endpoint: Endpoint) returns (error: Option<SocketError>)
    requires ConstructibleEndpoint(endpoint) && !client.handle.IsValid()
    modifies client.handle, client.handle.os`table
    ensures old(client.handle.os.table.calls) <= client.handle.os.table.calls
    ensures error.None? ==>
              && Acquired(client.handle, client.handle.os, old(client.handle.os.table.open))
              && client.handle.os.table.calls == old(client.handle.os.table.calls) +
                   [Socketed(if endpoint.address.version == IPv4 then 2 else 10, TcpProtocol, Granted(client.handle.handle)),
                    Requested(client.handle.handle, Configure, None),
                    Requested(client.handle.handle, ConnectTo(AddressBytes(client.handle.os.host, endpoint)), None)]
    ensures error.Some? ==>
              && !client.handle.IsValid() && client.handle.os.table.open == old(client.handle.os.table.open)
              && Reported(Since(client.handle.os, |old(client.handle.os.table.calls)|), error.value)
  {
    ghost var os := client.handle.os;
    ghost var before, address := os.table.calls, AddressBytes(os.host, endpoint);
    ghost var family := Family(endpoint.address.version);
    var connected := client.Connect(endpoint);
    ghost var calls := Since(os, |before|);
    CreationFine(calls, family, TcpProtocol, [Configure, ConnectTo(address)], GotBy(client.handle, connected));
    if connected.Failure? {
      return Some(connected.error);
    }
    CreatesTwoExactly(calls, family, TcpProtocol, Configure, ConnectTo(address), Success(client.handle.handle));
    AddressNamesFamily(os.host, endpoint);
    assert os.table.calls == before + calls;
    return None;
  }

  /** The two ends, connected and configured. */
  method SetUpBoth(listener: TcpListener, client: TcpSocket, server: TcpSocket, endpoint: Endpoint, noDelay: bool)
    returns (error: Option<SocketError>)
    requires ConstructibleEndpoint(endpoint)
    requires listener.handle.IsValid() && !client.handle.IsValid() && !server.handle.IsValid()
    requires listener.handle.os == client.handle.os == server.handle.os
    requires listener.handle.handle in listener.handle.os.table.open
    requires client.handle != server.handle
    modifies client.handle, server.handle, listener.handle.os
    ensures unchanged(listener.handle) && old(listener.handle.os.table.calls) <= listener.handle.os.table.calls
    ensures Joined(client.handle, server.handle, listener.handle.os, old(listener.handle.os.table.open))
    ensures error.None? ==>
              && client.handle.IsValid() && server.handle.IsValid()
              && listener.handle.os.table.calls == old(listener.handle.os.table.calls) +
                   JoinCalls(listener.handle.os.host, listener.handle.handle, client.handle.handle, server.handle.handle,
                             endpoint) +
                   (OptionCalls(client.handle.handle, noDelay) + OptionCalls(server.handle.handle, noDelay))
    ensures error.Some? ==> Reported(Since(listener.handle.os, |old(listener.handle.os.table.calls)|), error.value)
  {
    var os := listener.handle.os;
    ghost var before := os.table.calls;
    error := JoinBoth(listener, client, server, endpoint);
    if error.None? {
      ghost var joined := |os.table.calls|;
      error := ConfigureBoth(client, server, noDelay);
      if error.Some? {
        LaterCalls(os.table.calls, os.table.calls, |before|, joined);
      }
    }
  }

  /** Both ends of a new connection. On success exactly the two ends are open in
      addition, and the calls were all of `PairCalls`. Whatever fails, nothing
      stays open, and the error is that of a call that failed, or an invalid
      argument when the kernel told an address that the library does not
      understand. */
  method ConnectPair(os: Os, noDelay: bool) returns (result: Result<(TcpSocket, TcpSocket)>)
    modifies os
    ensures old(os.table.calls) <= os.table.calls
    ensures result.Failure? ==> os.table.open == old(os.table.open)
    ensures result.Failure? ==> Explained(os.host, Since(os, |old(os.table.calls)|), result.error)
    ensures result.Success? ==>
              var (client, server) := result.value;
              && fresh(client) && fresh(client.handle) && fresh(server) && fresh(server.handle)
              && client.handle.os == server.handle.os == os && client.handle != server.handle
              && client.handle.handle >= 0 && server.handle.handle >= 0
              && client.handle.handle != server.handle.handle
              && client.handle.handle !in old(os.table.open) && server.handle.handle !in old(os.table.open)
              && os.table.open == old(os.table.open) + {client.handle.handle, server.handle.handle}
              && PairCalls(os.host, Since(os, |old(os.table.calls)|), client.handle.handle, server.handle.handle, noDelay)
  {
    ghost var before := os.table.calls;
    var listener := new TcpListener(os);
    var endpoint := PrepareListener(listener);
    if endpoint.Failure? {
      return Failure(endpoint.error);
    }
    ghost var prepared, fd := os.table.calls, listener.handle.handle;
    result := CompletePair(os, listener, endpoint.value, noDelay);
    if result.Success? {
      PairCallsComposed(os.host, before, prepared, os.table.calls, fd, result.value.0.handle.handle,
                        result.value.1.handle.handle, endpoint.value, noDelay);
    } else {
      LaterCalls(os.table.calls, os.table.calls, |before|, |prepared|);
    }
  }

  lemma PairCallsComposed(host: Host, before: seq<SysCall>, prepared: seq<SysCall>, calls: seq<SysCall>,
                          listener: int, client: int, server: int, endpoint: Endpoint, noDelay: bool)
    requires ConstructibleEndpoint(endpoint) && before <= prepared
    requires ListenerCalls(host, prepared[|before|..], listener, endpoint)
    requires calls == prepared + JoinCalls(host, listener, client, server, endpoint)
                      + (OptionCalls(client, noDelay) + OptionCalls(server, noDelay)) + [Closed(listener)]
    ensures before <= calls && PairCalls(host, calls[|before|..], client, server, noDelay)
  {
    var opening, joining := prepared[|before|..], JoinCalls(host, listener, client, server, endpoint);
    var options := OptionCalls(client, noDelay) + OptionCalls(server, noDelay);
    Associate(prepared, joining, options, [Closed(listener)]);
    Associate(opening, joining, options, [Closed(listener)]);
    DropFront(before, prepared, joining + options + [Closed(listener)]);
    OptionsWrittenOut(client, server, noDelay);
    PairCallsFrom(host, calls[|before|..], opening, listener, client, server, endpoint, noDelay);
  }

  lemma OptionsWrittenOut(client: int, server: int, noDelay: bool)
    ensures OptionCalls(client, noDelay) + OptionCalls(server, noDelay) ==
            [Requested(client, SetOption(ReceiveTimeout(5)), None),
             Requested(client, SetOption(SendTimeout(5)), None),
             Requested(client, SetOption(NoDelay(noDelay)), None),
             Requested(server, SetOption(ReceiveTimeout(5)), None),
             Requested(server, SetOption(SendTimeout(5)), None),
             Requested(server, SetOption(NoDelay(noDelay)), None)]
  {
  }

  lemma PairCallsFrom(host: Host, calls: seq<SysCall>, opening: seq<SysCall>, listener: int, client: int, server: int,
                      endpoint: Endpoint, noDelay: bool)
    requires ConstructibleEndpoint(endpoint) && ListenerCalls(host, opening, listener, endpoint)
    requires calls == opening + JoinCalls(host, listener, client, server, endpoint)
                      + [Requested(client, SetOption(ReceiveTimeout(5)), None),
                         Requested(client, SetOption(SendTimeout(5)), None),
                         Requested(client, SetOption(NoDelay(noDelay)), None),
                         Requested(server, SetOption(ReceiveTimeout(5)), None),
                         Requested(server, SetOption(SendTimeout(5)), None),
                         Requested(server, SetOption(NoDelay(noDelay)), None)]
                      + [Closed(listener)]
    ensures PairCalls(host, calls, client, server, noDelay)
  {
  }

  lemma Associate(a: seq<SysCall>, b: seq<SysCall>, c: seq<SysCall>, d: seq<SysCall>)
    ensures a + b + c + d == a + (b + c + d)
  {
  }

  lemma DropFront(before: seq<SysCall>, prepared: seq<SysCall>, more: seq<SysCall>)
    requires before <= prepared
    ensures before <= prepared + more && (prepared + more)[|before|..] == prepared[|before|..] + more
  {
  }

  /** The rest of that, once the listener is there; it goes out of scope at the end. */
  method CompletePair(os: Os, listener: TcpListener, endpoint: Endpoint, noDelay: bool)
    returns (result: Result<(TcpSocket, TcpSocket)>)
    requires listener.handle.os == os && listener.handle.IsValid() && listener.handle.handle in os.table.open
    requires ConstructibleEndpoint(endpoint)
    modifies listener.handle, os
    ensures old(os.table.calls) <= os.table.calls
    ensures result.Failure? ==>
              && os.table.open == old(os.table.open) - {old(listener.handle.handle)}
              && Reported(Since(os, |old(os.table.calls)|), result.error)
    ensures result.Success? ==>
              var (client, server) := result.value;
              && fresh(client) && fresh(client.handle) && fresh(server) && fresh(server.handle)
              && client.handle.os == server.handle.os == os && client.handle != server.handle
              && client.handle.handle >= 0 && server.handle.handle >= 0
              && client.handle.handle != server.handle.handle
              && client.handle.handle !in old(os.table.open) && server.handle.handle !in old(os.table.open)
              && os.table.open == old(os.table.open) - {old(listener.handle.handle)} +
                                  {client.handle.handle, server.handle.handle}
              && os.table.calls == old(os.table.calls) +
                   JoinCalls(os.host, old(listener.handle.handle), client.handle.handle, server.handle.handle, endpoint) +
                   (OptionCalls(client.handle.handle, noDelay) + OptionCalls(server.handle.handle, noDelay)) +
                   [Closed(old(listener.handle.handle))]
  {
    ghost var before := os.table.calls;
    var client := new TcpSocket(os);
    var server := new TcpSocket(os);
    var error := SetUpBoth(listener, client, server, endpoint, noDelay);
    if error.Some? {
      CloseAll(listener, client, server, |before|, error.value);
      return Failure(error.value);
    }
    listener.Close();
    return Success((client, server));
  }

  /** Everything goes out of scope; the error is still that of a call. */
  method CloseAll(listener: TcpListener, client: TcpSocket, server: TcpSocket, ghost from: nat, ghost error: SocketError)
    requires listener.handle.os == client.handle.os == server.handle.os
    requires listener.handle != client.handle && client.handle != server.handle && server.handle != listener.handle
    requires listener.handle.Owns() + client.handle.Owns() + server.handle.Owns() <= listener.handle.os.table.open
    requires listener.handle.Owns() !! client.handle.Owns() !! server.handle.Owns()
    requires from <= |listener.handle.os.table.calls| && Reported(Since(listener.handle.os, from), error)
    modifies listener.handle, client.handle, server.handle, listener.handle.os`table
    ensures listener.handle.os.table.open ==
            old(listener.handle.os.table.open) - old(server.handle.Owns()) - old(client.handle.Owns())
                                               - old(listener.handle.Owns())
    ensures old(listener.handle.os.table.calls) <= listener.handle.os.table.calls
    ensures Reported(Since(listener.handle.os, from), error)
  {
    ghost var calls := listener.handle.os.table.calls;
    server.Close();
    client.Close();
    listener.Close();
    LaterCalls(calls, listener.handle.os.table.calls, from, from);
  }
}
