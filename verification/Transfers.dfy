/** Loops over `Send` and `Receive`: SendAll and ReceiveExact of
    benchmarks/net/bench_tcp.cpp, and the echo server and comparing client of
    examples/net/example_tcp_loopback.cpp. */
module Transfers {
  import opened Common
  import opened Kernel
  import opened Streams
  import opened Sockets

  /** Reading on: the stream may have grown from w to `grown` meanwhile, and the
      next bytes of it, `chunk`, follow what was read from rank `start` to `t`. */
  lemma ReadOn(w: seq<byte>, grown: seq<byte>, start: nat, t: nat, chunk: seq<byte>, count: nat)
    requires w <= grown && start <= t <= |w| && t + |chunk| <= |grown| && count <= |chunk|
    requires chunk == grown[t..t + |chunk|]
    ensures grown[start..t + count] == w[start..t] + chunk[..count]
  {
  }

  /** Echoing on: `out`, which held the bytes of ranks `start` to `t` behind
      `before`, got the bytes of ranks `t` to `u` as well. */
  lemma EchoOn(before: seq<byte>, w: seq<byte>, grown: seq<byte>, start: nat, t: nat, u: nat,
               out: seq<byte>, more: seq<byte>)
    requires w <= grown && start <= t <= |w| && t <= u <= |grown|
    requires out == before + w[start..t] && more == out + grown[t..u]
    ensures more == before + grown[start..u]
  {
    assert grown[start..u] == grown[start..t] + grown[t..u];
    assert grown[start..t] == w[start..t];
  }

  /** The chunk that follows what has matched so far matches on exactly when the
      source's comparison says so. */
  lemma MatchOn(soFar: seq<byte>, chunk: seq<byte>, message: seq<byte>)
    ensures soFar <= message && chunk == Substr(message, |soFar|, |chunk|) <==> soFar + chunk <= message
  {
    if soFar + chunk <= message {
      assert soFar <= message && message[|soFar|..|soFar| + |chunk|] == chunk;
    }
  }

  /** Why a loop over transfers may fail: the object is not valid, or the last
      of its calls, those after the first `before`, failed or moved nothing. */
  predicate Blamed(socket: TcpSocket, before: nat, outcomes: seq<Transfer>, error: SocketError)
    reads socket.handle
  {
    if !socket.handle.IsValid() then error == BadDescriptor
    else
      && |outcomes| > before
      && match outcomes[|outcomes| - 1].outcome
         case Failed(code) => error == System(code)
         case Done(count) => count == 0 && error == IoError
         case Interrupted => false
  }

  /** However the kernel splits the transfer, what reaches the stream is a
      prefix of `bytes`, once and in order, and all of it exactly on success. */
  method SendAll(socket: TcpSocket, output: Stream, bytes: seq<byte>) returns (result: Result<()>, ghost sent: nat)
    requires output.Valid()
    modifies output
    ensures output.Valid() && output.ReaderMoved() && old(output.sends) <= output.sends
    ensures sent <= |bytes| && output.written == old(output.written) + bytes[..sent]
    ensures result.Success? <==> sent == |bytes|
    ensures result.Failure? ==> Blamed(socket, |old(output.sends)|, output.sends, result.error)
  {
    var rest := bytes;
    sent := 0;
    while rest != []
      invariant output.Valid() && output.ReaderMoved() && old(output.sends) <= output.sends
      invariant sent <= |bytes| && rest == bytes[sent..]
      invariant output.written == old(output.written) + bytes[..sent]
      decreases |rest|
    {
      var call := socket.Send(output, rest);
      if call.Failure? {
        return Failure(call.error), sent;
      }
      if call.value == 0 {
        return Failure(IoError), sent;
      }
      assert bytes[..sent] + rest[..call.value] == bytes[..sent + call.value];
      rest := rest[call.value..];
      sent := sent + call.value;
    }
    result := Success(());
  }

  /** The first `got` bytes of the buffer are the next `got` bytes of the
      stream, the rest of the buffer is untouched, and on success it is full. */
  method ReceiveExact(socket: TcpSocket, input: Stream, buffer: array<byte>) returns (result: Result<()>, ghost got: nat)
    requires input.Valid()
    modifies input, buffer
    ensures input.Valid() && input.WriterMoved() && old(input.receives) <= input.receives
    ensures got <= buffer.Length && input.taken == old(input.taken) + got
    ensures buffer[..got] == input.written[old(input.taken)..input.taken]
    ensures forall i | got <= i < buffer.Length :: buffer[i] == old(buffer[i])
    ensures result.Success? <==> got == buffer.Length
    ensures result.Failure? ==> Blamed(socket, |old(input.receives)|, input.receives, result.error)
  {
    var from := 0;
    while from < buffer.Length
      invariant input.Valid() && input.WriterMoved() && old(input.receives) <= input.receives
      invariant from <= buffer.Length && input.taken == old(input.taken) + from
      invariant buffer[..from] == input.written[old(input.taken)..input.taken]
      invariant forall i | from <= i < buffer.Length :: buffer[i] == old(buffer[i])
    {
      ghost var w, t, prefix := input.written, input.taken, buffer[..from];
      var call := socket.Receive(input, buffer, from);
      ghost var chunk := if call.Success? then input.written[t..input.taken] else [];
      ReadOn(w, input.written, old(input.taken), t, chunk, |chunk|);
      assert chunk[..|chunk|] == chunk;
      if call.Failure? {
        return Failure(call.error), from;
      }
      if call.value == 0 {
        return Failure(IoError), from;
      }
      assert buffer[..from] == prefix;
      assert buffer[..from + call.value] == prefix + buffer[from..from + call.value];
      from := from + call.value;
    }
    return Success(()), from;
  }

  /** The two loops over one stream that nobody else uses. Whatever fails, the
      buffer begins with what was got of the message, no more than was sent; a
      receiver that succeeds has the message, and then so has the sender. */
  method SendThenReceive(sender: TcpSocket, receiver: TcpSocket, stream: Stream, message: seq<byte>, buffer: array<byte>)
    returns (sending: Result<()>, receiving: Result<()>, ghost sent: nat, ghost got: nat)
    requires stream.Valid() && stream.soleUser && stream.Unread() == [] && buffer.Length == |message|
    modifies stream, buffer
    ensures stream.Valid() && got <= sent <= |message|
    ensures buffer[..] == message[..got] + old(buffer[..])[got..]
    ensures stream.Unread() == message[got..sent]
    ensures sending.Success? <==> sent == |message|
    ensures receiving.Success? <==> got == |message|
    ensures receiving.Success? ==> sending.Success? && buffer[..] == message
  {
    ghost var before, rest := stream.written, buffer[..];
    sending, sent := SendAll(sender, stream, message);
    ghost var sentBytes := stream.written;
    receiving, got := ReceiveExact(receiver, stream, buffer);
    assert stream.written == sentBytes == before + message[..sent];
    assert buffer[..got] == message[..got] && buffer[got..] == rest[got..];
    assert buffer[..] == buffer[..got] + buffer[got..];
    assert stream.Unread() == message[got..sent];
    assert got == |message| ==> message[..got] == message && rest[got..] == [];
  }

  /** One turn of the echo server: whatever has arrived goes back, in order. */
  method EchoTurn(socket: TcpSocket, input: Stream, output: Stream, buffer: array<byte>)
    returns (result: Result<nat>, ghost sent: nat)
    requires input.Valid() && output.Valid() && input != output && buffer.Length > 0
    modifies input, output, buffer
    ensures input.Valid() && output.Valid() && input.WriterMoved() && output.closed == old(output.closed)
    ensures old(input.receives) <= input.receives && old(output.sends) <= output.sends
    ensures old(input.taken) + sent <= input.taken
    ensures output.written == old(output.written) + input.written[old(input.taken)..old(input.taken) + sent]
    ensures result.Success? ==> result.value == sent && input.taken == old(input.taken) + sent
    ensures result == Success(0) ==> input.closed && input.Unread() == []
    ensures result.Failure? ==>
              || Blamed(socket, |old(input.receives)|, input.receives, result.error)
              || Blamed(socket, |old(output.sends)|, output.sends, result.error)
  {
    sent := 0;
    result := socket.Receive(input, buffer, 0);
    if result.Failure? || result.value == 0 {
      return;
    }
    ghost var chunk := buffer[..result.value];
    var sending;
    sending, sent := SendAll(socket, output, buffer[..result.value]);
    ReadOn(input.written, input.written, old(input.taken), old(input.taken), chunk, sent);
    assert chunk[..sent] == input.written[old(input.taken)..old(input.taken) + sent];
    if sending.Failure? {
      result := Failure(sending.error);
    }
  }

  /** The echo server: every byte that arrives before the end of the request
      stream goes back, in order and nothing else; after that it half-closes. */
  method EchoUntilEof(socket: TcpSocket, input: Stream, output: Stream) returns (result: Result<()>, ghost echoed: nat)
    requires input.Valid() && output.Valid() && input != output
    requires socket.handle.Owns() <= socket.handle.os.table.open
    modifies input, output, socket.handle.os`table
    ensures socket.handle.os.table.open == old(socket.handle.os.table.open)
    ensures input.Valid() && output.Valid() && input.WriterMoved()
    ensures old(input.receives) <= input.receives && old(output.sends) <= output.sends
    ensures old(input.taken) + echoed <= input.taken
    ensures output.written == old(output.written) + input.written[old(input.taken)..old(input.taken) + echoed]
    ensures result.Success? ==> input.closed && old(input.taken) + echoed == |input.written| && output.closed
    ensures result.Failure? ==>
              || Blamed(socket, |old(input.receives)|, input.receives, result.error)
              || Blamed(socket, |old(output.sends)|, output.sends, result.error)
              || (input.closed && old(input.taken) + echoed == |input.written| && result.error.System?
                  && socket.handle.os.table.calls == old(socket.handle.os.table.calls) +
                       [Requested(socket.handle.handle, ShutDown(1), Some(result.error.code))])
  {
    var buffer := new byte[64];
    echoed := 0;
    while true
      invariant input.Valid() && output.Valid() && input.WriterMoved() && unchanged(socket.handle.os)
      invariant old(input.receives) <= input.receives && old(output.sends) <= output.sends
      invariant input.taken == old(input.taken) + echoed
      invariant output.written == old(output.written) + input.written[old(input.taken)..input.taken]
      decreases |input.written| + input.toCome - input.taken
    {
      ghost var w, t, out := input.written, input.taken, output.written;
      var turn, sent := EchoTurn(socket, input, output, buffer);
      EchoOn(old(output.written), w, input.written, old(input.taken), t, t + sent, out, output.written);
      echoed := echoed + sent;
      if turn.Failure? {
        return Failure(turn.error), echoed;
      }
      if turn.value == 0 {
        break;
      }
    }
    var finished := socket.Shutdown(1, output);
    return finished, echoed;
  }

  /** The comparing client. Its verdict, taken chunk by chunk in a 64-byte
      buffer, is that the whole rest of the stream is the message. */
  method CompareEcho(socket: TcpSocket, input: Stream, message: seq<byte>) returns (verdict: Result<bool>)
    requires input.Valid()
    modifies input
    ensures input.Valid() && input.WriterMoved() && old(input.receives) <= input.receives
    ensures verdict.Failure? ==> Blamed(socket, |old(input.receives)|, input.receives, verdict.error)
    ensures verdict.Success? ==>
              && input.closed && input.Unread() == []
              && (verdict.value <==> input.written[old(input.taken)..] == message)
  {
    var buffer := new byte[64];
    var echoed: nat, matches := 0, true;
    while true
      invariant input.Valid() && input.WriterMoved() && old(input.receives) <= input.receives
      invariant input.taken == old(input.taken) + echoed
      invariant matches <==> input.written[old(input.taken)..input.taken] <= message
      decreases |input.written| + input.toCome - input.taken
    {
      ghost var soFar := input.written[old(input.taken)..input.taken];
      ghost var w, t := input.written, input.taken;
      var received := socket.Receive(input, buffer, 0);
      if received.Failure? {
        return Failure(received.error);
      }
      var chunk := buffer[..received.value];
      ReadOn(w, input.written, old(input.taken), t, chunk, |chunk|);
      assert chunk[..|chunk|] == chunk;
      if received.value == 0 {
        break;
      }
      MatchOn(soFar, chunk, message);
      matches := matches && echoed <= |message| && chunk == Substr(message, echoed, |chunk|);
      echoed := echoed + received.value;
    }
    return Success(matches && echoed == |message|);
  }

  /** `substr`: at most `count` bytes, fewer at the end. */
  function Substr(s: seq<byte>, position: nat, count: nat): seq<byte>
    requires position <= |s|
  {
    if position + count <= |s| then s[position..position + count] else s[position..]
  }
}
