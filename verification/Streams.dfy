/** The data side of the kernel: one direction of a TCP connection, and the
    datagrams that wait at a UDP socket. As in module Kernel, the contracts are
    all that callers can rely on. */
module Streams {
  import opened Common
  import opened Kernel

  /** A call that was not interrupted: for how many bytes, and what it gave. */
  datatype Transfer = Transfer(length: nat, outcome: Call)

  /** All bytes the writer has written so far, of which the reader has taken the
      first `taken`. The writer will write `toCome` more: any number, but not
      without end. `closed`: the writer has shut its side down. */
  class Stream {
    /** Nobody but the caller of these methods reads or writes. */
    const soleUser: bool
    var written: seq<byte>
    var taken: nat
    var closed: bool
    var toCome: nat
    var sends: seq<Transfer>
    var receives: seq<Transfer>
    var patience: nat

    constructor (soleUser: bool)
      ensures Valid() && written == [] && taken == 0 && !closed && sends == receives == []
      ensures this.soleUser == soleUser
    {
      this.soleUser := soleUser;
      written, taken, closed, toCome, patience := [], 0, false, *, *;
      sends, receives := [], [];
      if soleUser {
        toCome := 0;
      }
    }

    predicate Valid()
      reads this
    {
      taken <= |written| && (closed || soleUser ==> toCome == 0)
    }

    function Unread(): seq<byte>
      requires Valid()
      reads this
    {
      written[taken..]
    }

    /** What the writer may do while the reader waits: write more, and close. */
    twostate predicate WriterMoved()
      reads this
    {
      && old(written) <= written && |written| + toCome <= |old(written)| + old(toCome)
      && (old(closed) ==> closed) && (soleUser ==> closed == old(closed))
    }

    /** What the reader may do while the writer waits. */
    twostate predicate ReaderMoved()
      reads this
    {
      closed == old(closed) && taken >= old(taken) && (soleUser ==> taken == old(taken))
    }

    /** `send` of at most INT_MAX bytes, none of them twice or out of order;
        it fails once the direction is shut down. Meanwhile the reader may take
        bytes. */
    method Send(data: seq<byte>) returns (result: Call)
      requires Valid() && 0 < |data| <= INT_MAX
      modifies this
      ensures Valid() && ReaderMoved()
      ensures closed ==> !result.Done?
      ensures result.Done? ==> result.count <= |data| && written == old(written) + data[..result.count]
      ensures !result.Done? ==> written == old(written)
      ensures if result.Interrupted? then sends == old(sends) && patience < old(patience)
              else sends == old(sends) + [Transfer(|data|, result)]
    {
      var count: nat :| count <= |data|;
      var outcome: int := *;
      if outcome == 0 && patience > 0 {
        patience := patience - 1;
        return Interrupted;
      } else if outcome == 1 || closed {
        var code: int := *;
        result := Failed(code);
      } else {
        written := written + data[..count];
        var read: nat :| taken <= read <= |written|;
        taken := if soleUser then taken else read;
        result := Done(count);
      }
      sends := sends + [Transfer(|data|, result)];
    }

    /** `recv` into `buffer[from..from + length]`. Zero means that the writer has
        closed and everything was taken. Where no writer is to come it times out. */
    method Recv(buffer: array<byte>, from: nat, length: nat) returns (result: Call)
      requires Valid() && 0 < length <= INT_MAX && from + length <= buffer.Length
      modifies this, buffer
      ensures Valid() && WriterMoved()
      ensures forall i | 0 <= i < buffer.Length && !(result.Done? && from <= i < from + result.count) ::
                buffer[i] == old(buffer[i])
      ensures result.Done? ==>
                && result.count <= length && taken == old(taken) + result.count
                && buffer[from..from + result.count] == written[old(taken)..taken]
                && (result.count == 0 ==> closed && taken == |written|)
      ensures !result.Done? ==> taken == old(taken)
      ensures if result.Interrupted? then receives == old(receives) && patience < old(patience)
              else receives == old(receives) + [Transfer(length, result)]
    {
      var outcome: int := *;
      if outcome == 0 && patience > 0 {
        patience := patience - 1;
        return Interrupted;
      } else if outcome == 1 || (soleUser && !closed && taken == |written|) {
        var code: int := *;
        receives := receives + [Transfer(length, Failed(code))];
        return Failed(code);
      }
      if toCome > 0 {
        var more: byte := *;
        written, toCome := written + [more], toCome - 1;
      }
      var count: nat := 0;
      if taken == |written| {
        closed, toCome := true, 0;
      } else {
        count :| 0 < count <= length && taken + count <= |written|;
      }
      Fill(buffer, from, written[taken..taken + count]);
      taken := taken + count;
      receives := receives + [Transfer(length, Done(count))];
      return Done(count);
    }
  }

  method Fill(buffer: array<byte>, from: nat, source: seq<byte>)
    requires from + |source| <= buffer.Length
    modifies buffer
    ensures buffer[from..from + |source|] == source
    ensures forall i | 0 <= i < buffer.Length && !(from <= i < from + |source|) :: buffer[i] == old(buffer[i])
  {
    forall i | from <= i < from + |source| {
      buffer[i] := source[i - from];
    }
  }

  /** A datagram and the bytes of its sender's socket address. */
  datatype Datagram = Datagram(payload: seq<byte>, address: seq<byte>)

  /** The datagrams waiting at a UDP socket; more may arrive at any call. */
  class Mailbox {
    var queue: seq<Datagram>
    var receives: seq<Transfer>
    var patience: nat

    constructor (queue: seq<Datagram>)
      ensures this.queue == queue && receives == []
    {
      this.queue, receives, patience := queue, [], *;
    }

    /** `recvmsg`: takes the first datagram; what does not fit is lost. `arrived`
        is the queue just before. */
    method RecvMsg(buffer: array<byte>)
      returns (result: Call, truncated: bool, address: seq<byte>, ghost arrived: seq<Datagram>)
      modifies this, buffer
      ensures old(queue) <= arrived
      ensures result.Done? ==>
                && arrived != [] && queue == arrived[1..] && address == arrived[0].address
                && (truncated <==> |arrived[0].payload| > buffer.Length)
                && result.count <= buffer.Length && result.count <= |arrived[0].payload|
                && (!truncated ==> result.count == |arrived[0].payload|)
                && buffer[..result.count] == arrived[0].payload[..result.count]
      ensures !result.Done? ==> queue == arrived && buffer[..] == old(buffer[..])
      ensures if result.Interrupted? then receives == old(receives) && patience < old(patience)
              else receives == old(receives) + [Transfer(buffer.Length, result)]
    {
      arrived, truncated, address := queue, false, [];
      var interrupted: bool, code: int := *, *;
      if interrupted && patience > 0 {
        patience := patience - 1;
        return Interrupted, truncated, address, arrived;
      }
      if queue == [] {
        result := Failed(code);
      } else {
        var first := queue[0];
        queue, address, truncated := queue[1..], first.address, |first.payload| > buffer.Length;
        var count := if truncated then buffer.Length else |first.payload|;
        Fill(buffer, 0, first.payload[..count]);
        result := Done(count);
      }
      receives := receives + [Transfer(buffer.Length, result)];
    }
  }
}
