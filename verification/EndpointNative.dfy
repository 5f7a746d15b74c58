/** Endpoints as the socket calls see them: the bytes of sockaddr_in and
    sockaddr_in6, laid out as on Linux, in either host byte order. */
module EndpointNative {
  import opened Common
  import opened Addresses

  const AF_INET: nat := 2
  const AF_INET6: nat := 10
  const SIZEOF_SOCKADDR: nat := 16
  const SIZEOF_SOCKADDR_IN: nat := 16
  const SIZEOF_SOCKADDR_IN6: nat := 28
  const SIZEOF_STORAGE: nat := 128

  /** How the host stores numbers of more than one byte. */
  datatype Host = LittleEndian | BigEndianHost

  /** `n` in `count` bytes, most significant first. */
  function NetworkBytes(n: nat, count: nat): (bytes: seq<byte>)
    ensures |bytes| == count
  {
    if count == 0 then [] else NetworkBytes(n / 256, count - 1) + [n % 256]
  }

  lemma {:induction false} BigEndianAppend(bytes: seq<byte>, last: byte)
    ensures BigEndian(bytes + [last]) == 256 * BigEndian(bytes) + last
  {
    if bytes == [] {
      assert [] + [last] == [last];
    } else {
      assert (bytes + [last])[1..] == bytes[1..] + [last];
      BigEndianAppend(bytes[1..], last);
      assert bytes[0] * Power256(|bytes|) == 256 * (bytes[0] * Power256(|bytes| - 1));
    }
  }

  lemma {:induction false} NetworkBytesRead(n: nat, count: nat)
    requires n < Power256(count)
    ensures BigEndian(NetworkBytes(n, count)) == n
  {
    if count > 0 {
      NetworkBytesRead(n / 256, count - 1);
      BigEndianAppend(NetworkBytes(n / 256, count - 1), n % 256);
    }
  }

  function Reverse(bytes: seq<byte>): (reversed: seq<byte>)
    ensures |reversed| == |bytes|
    ensures forall i {:trigger reversed[i]} | 0 <= i < |bytes| :: reversed[i] == bytes[|bytes| - 1 - i]
  {
    seq(|bytes|, i requires 0 <= i < |bytes| => bytes[|bytes| - 1 - i])
  }

  /** Between network and host order; its own inverse. */
  function Swapped(host: Host, bytes: seq<byte>): (swapped: seq<byte>)
    ensures |swapped| == |bytes|
  {
    if host == LittleEndian then Reverse(bytes) else bytes
  }

  lemma SwappedTwice(host: Host, bytes: seq<byte>)
    ensures Swapped(host, Swapped(host, bytes)) == bytes
  {
  }

  function HostBytes(host: Host, n: nat, count: nat): (bytes: seq<byte>)
    ensures |bytes| == count
  {
    Swapped(host, NetworkBytes(n, count))
  }

  function HostValue(host: Host, bytes: seq<byte>): nat {
    BigEndian(Swapped(host, bytes))
  }

  lemma HostRead(host: Host, n: nat, count: nat)
    requires n < Power256(count)
    ensures HostValue(host, HostBytes(host, n, count)) == n
  {
    NetworkBytesRead(n, count);
    SwappedTwice(host, NetworkBytes(n, count));
  }

  /** The bytes of a number are determined by it. */
  lemma HostWrite(host: Host, bytes: seq<byte>)
    ensures HostBytes(host, HostValue(host, bytes), |bytes|) == bytes
    ensures NetworkBytes(BigEndian(bytes), |bytes|) == bytes
  {
    BigEndianBounded(bytes);
    NetworkBytesRead(BigEndian(bytes), |bytes|);
    BigEndianInjective(NetworkBytes(BigEndian(bytes), |bytes|), bytes);
    var s := Swapped(host, bytes);
    BigEndianBounded(s);
    NetworkBytesRead(BigEndian(s), |bytes|);
    BigEndianInjective(NetworkBytes(BigEndian(s), |bytes|), s);
    SwappedTwice(host, bytes);
  }

  lemma Widths()
    ensures Power256(2) == 0x1_0000 && Power256(4) == 0x1_0000_0000
  {
  }

  /** `ToNative`: a zeroed sockaddr_storage filled in, and the length in use. */
  function ToNative(host: Host, e: Endpoint): (native: (seq<byte>, nat))
    requires |e.address.bytes| == IPV6_BYTE_COUNT
    ensures |native.0| == SIZEOF_STORAGE && native.1 <= SIZEOF_STORAGE
  {
    if e.address.version == IPv4 then
      (HostBytes(host, AF_INET, 2) + NetworkBytes(e.port, 2) + e.address.bytes[..IPV4_BYTE_COUNT] + Zeros(120),
       SIZEOF_SOCKADDR_IN)
    else
      (HostBytes(host, AF_INET6, 2) + NetworkBytes(e.port, 2) + Zeros(4) + e.address.bytes
       + HostBytes(host, e.scopeId, 4) + Zeros(100),
       SIZEOF_SOCKADDR_IN6)
  }

  /** Every byte of the address: port and address in network order, family and
      scope in the host's, and zeros for padding, flow information and all that
      lies behind. */
  lemma Layout(host: Host, e: Endpoint)
    requires |e.address.bytes| == IPV6_BYTE_COUNT
    ensures var (memory, length) := ToNative(host, e);
            && (if host == LittleEndian then memory[1] == 0 else memory[0] == 0)
            && memory[2] == e.port / 256 && memory[3] == e.port % 256
            && if e.address.version == IPv4
               then && length == 16 && memory[if host == LittleEndian then 0 else 1] == 2
                    && memory[4..8] == SpanBytes(e.address) && memory[8..] == Zeros(120)
               else && length == 28 && memory[if host == LittleEndian then 0 else 1] == 10
                    && memory[4..8] == Zeros(4) && memory[8..24] == SpanBytes(e.address)
                    && memory[24..28] == HostBytes(host, e.scopeId, 4) && memory[28..] == Zeros(100)
  {
    assert NetworkBytes(e.port, 2) == [e.port / 256, e.port % 256];
    assert NetworkBytes(AF_INET, 2) == [0, 2] && NetworkBytes(AF_INET6, 2) == [0, 10];
  }

  /** The scope's bytes, least significant first on a little-endian host. */
  lemma ScopeLayout(host: Host, scope: uint32)
    ensures HostBytes(host, scope, 4) ==
            if host == LittleEndian
            then [scope % 256, scope / 0x100 % 256, scope / 0x1_0000 % 256, scope / 0x100_0000]
            else [scope / 0x100_0000, scope / 0x1_0000 % 256, scope / 0x100 % 256, scope % 256]
  {
    NetworkBytesOf4(scope);
  }

  lemma NetworkBytesOf4(n: uint32)
    ensures NetworkBytes(n, 4) == [n / 0x100_0000, n / 0x1_0000 % 256, n / 0x100 % 256, n % 256]
  {
    assert NetworkBytes(n / 0x1_0000, 2) == [n / 0x100_0000, n / 0x1_0000 % 256];
  }

  function Port(bytes: seq<byte>): uint16
    requires |bytes| == 2
  {
    Widths();
    BigEndianBounded(bytes);
    BigEndian(bytes)
  }

  function Scope(host: Host, bytes: seq<byte>): uint32
    requires |bytes| == 4
  {
    Widths();
    BigEndianBounded(Swapped(host, bytes));
    HostValue(host, bytes)
  }

  /** `FromNative(addr, len)`: None for a null pointer; a caller's `len` bytes
      must be readable. */
  function FromNative(host: Host, addr: Option<seq<byte>>, len: int): Option<Endpoint>
    requires addr.Some? ==> len <= |addr.value|
  {
    if addr.None? || len < SIZEOF_SOCKADDR then None
    else
      var memory := addr.value;
      var family := HostValue(host, memory[0..2]);
      if family == AF_INET && len >= SIZEOF_SOCKADDR_IN then
        match FromBytes(memory[4..8], 0)
        case Some(ip) => Some(MakeEndpoint(ip, Port(memory[2..4]), 0))
        case None => None
      else if family == AF_INET6 && len >= SIZEOF_SOCKADDR_IN6 then
        match FromBytes(memory[8..24], 1)
        case Some(ip) => Some(MakeEndpoint(ip, Port(memory[2..4]), Scope(host, memory[24..28])))
        case None => None
      else None
  }

  /** Two bytes as the host reads them. */
  function Number2(host: Host, b0: byte, b1: byte): nat {
    if host == LittleEndian then b0 as int + 256 * b1 as int else 256 * b0 as int + b1
  }

  function Number4(host: Host, b0: byte, b1: byte, b2: byte, b3: byte): nat {
    if host == LittleEndian then Number2(host, b0, b1) + 0x1_0000 * Number2(host, b2, b3)
    else 0x1_0000 * Number2(host, b0, b1) + Number2(host, b2, b3)
  }

  lemma BigEndianOf2(bytes: seq<byte>)
    requires |bytes| == 2
    ensures BigEndian(bytes) == 256 * bytes[0] as int + bytes[1]
  {
    assert bytes[1..][1..] == [] && BigEndian(bytes[1..]) == bytes[1] * Power256(0) + BigEndian([]);
    assert Power256(1) == 256;
  }

  lemma HostValueOf2(host: Host, bytes: seq<byte>)
    requires |bytes| == 2
    ensures HostValue(host, bytes) == Number2(host, bytes[0], bytes[1])
  {
    BigEndianOf2(Swapped(host, bytes));
  }

  lemma HostValueOf4(host: Host, bytes: seq<byte>)
    requires |bytes| == 4
    ensures HostValue(host, bytes) == Number4(host, bytes[0], bytes[1], bytes[2], bytes[3])
  {
    BigEndianOf4(Swapped(host, bytes));
  }

  /** Which socket addresses are accepted: by the length that the caller gives
      and the family found there, and by nothing else. */
  lemma AcceptedExactly(host: Host, memory: seq<byte>, len: int)
    requires len <= |memory|
    ensures FromNative(host, None, len) == None
    ensures FromNative(host, Some(memory), len).Some? <==>
            && len >= 16
            && var family := Number2(host, memory[0], memory[1]); family == 2 || (family == 10 && len >= 28)
  {
    if len >= 16 {
      HostValueOf2(host, memory[0..2]);
    }
  }

  /** What an accepted socket address says. */
  lemma AcceptedFields(host: Host, memory: seq<byte>, len: int)
    requires len <= |memory| && FromNative(host, Some(memory), len).Some?
    ensures var e := FromNative(host, Some(memory), len).value;
            && ConstructibleEndpoint(e) && e.port == 256 * memory[2] as int + memory[3]
            && if Number2(host, memory[0], memory[1]) == 2
               then e.address.version == IPv4 && SpanBytes(e.address) == memory[4..8]
               else && e.address.version == IPv6 && SpanBytes(e.address) == memory[8..24]
                    && e.scopeId == Number4(host, memory[24], memory[25], memory[26], memory[27])
  {
    HostValueOf2(host, memory[0..2]);
    BigEndianOf2(memory[2..4]);
    if Number2(host, memory[0], memory[1]) != 2 {
      HostValueOf4(host, memory[24..28]);
    }
  }

  lemma FieldsV4(host: Host, e: Endpoint)
    requires |e.address.bytes| == IPV6_BYTE_COUNT && e.address.version == IPv4
    ensures var memory := ToNative(host, e).0;
            && memory[0..2] == HostBytes(host, AF_INET, 2) && memory[2..4] == NetworkBytes(e.port, 2)
            && memory[4..8] == SpanBytes(e.address)
  {
  }

  lemma FieldsV6(host: Host, e: Endpoint)
    requires |e.address.bytes| == IPV6_BYTE_COUNT && e.address.version == IPv6
    ensures var memory := ToNative(host, e).0;
            && memory[0..2] == HostBytes(host, AF_INET6, 2) && memory[2..4] == NetworkBytes(e.port, 2)
            && memory[8..24] == SpanBytes(e.address) && memory[24..28] == HostBytes(host, e.scopeId, 4)
  {
  }

  /** The numbers written are the numbers read. */
  lemma NumbersRead(host: Host, e: Endpoint)
    ensures Port(NetworkBytes(e.port, 2)) == e.port && Scope(host, HostBytes(host, e.scopeId, 4)) == e.scopeId
    ensures HostValue(host, HostBytes(host, AF_INET, 2)) == AF_INET
    ensures HostValue(host, HostBytes(host, AF_INET6, 2)) == AF_INET6
  {
    Widths();
    NetworkBytesRead(e.port, 2);
    HostRead(host, e.scopeId, 4);
    HostRead(host, AF_INET, 2);
    HostRead(host, AF_INET6, 2);
  }

  lemma ReadV4(host: Host, memory: seq<byte>, len: int, e: Endpoint)
    requires ConstructibleEndpoint(e) && e.address.version == IPv4 && len <= |memory| && 16 <= |memory|
    requires HostValue(host, memory[0..2]) == AF_INET && Port(memory[2..4]) == e.port
    requires FromBytes(memory[4..8], 0) == Some(e.address)
    ensures FromNative(host, Some(memory), len) == if len >= SIZEOF_SOCKADDR_IN then Some(e) else None
  {
  }

  lemma ReadV6(host: Host, memory: seq<byte>, len: int, e: Endpoint)
    requires ConstructibleEndpoint(e) && e.address.version == IPv6 && len <= |memory| && 28 <= |memory|
    requires HostValue(host, memory[0..2]) == AF_INET6 && Port(memory[2..4]) == e.port
    requires FromBytes(memory[8..24], 1) == Some(e.address) && Scope(host, memory[24..28]) == e.scopeId
    ensures FromNative(host, Some(memory), len) == if len >= SIZEOF_SOCKADDR_IN6 then Some(e) else None
  {
  }

  lemma SameField(memory: seq<byte>, storage: seq<byte>, n: nat, i: nat, j: nat)
    requires i <= j <= n <= |memory| && n <= |storage| && memory[..n] == storage[..n]
    ensures memory[i..j] == storage[i..j]
  {
    assert memory[..n][i..j] == memory[i..j] && storage[..n][i..j] == storage[i..j];
  }

  /** Every constructible endpoint comes back from its bytes, in a memory of just
      that size or any longer one, and with that length or a longer one; no
      shorter length is accepted. */
  lemma NativeRoundTrip(host: Host, e: Endpoint, memory: seq<byte>, len: int)
    requires ConstructibleEndpoint(e) && len <= |memory|
    requires var (storage, length) := ToNative(host, e); length <= |memory| && memory[..length] == storage[..length]
    ensures FromNative(host, Some(memory), len) == if len >= ToNative(host, e).1 then Some(e) else None
  {
    var (storage, length) := ToNative(host, e);
    NumbersRead(host, e);
    FromBytesComplete(e.address);
    SameField(memory, storage, length, 0, 2);
    SameField(memory, storage, length, 2, 4);
    if e.address.version == IPv4 {
      FieldsV4(host, e);
      SameField(memory, storage, length, 4, 8);
      ReadV4(host, memory, len, e);
    } else {
      FieldsV6(host, e);
      SameField(memory, storage, length, 8, 24);
      SameField(memory, storage, length, 24, 28);
      ReadV6(host, memory, len, e);
    }
  }

  /** The bytes that mean something for family AF_INET or AF_INET6: all but the
      padding of sockaddr_in, the flow information of sockaddr_in6, and what
      lies behind either. */
  predicate Meaningful(version: IPVersion, i: nat) {
    if version == IPv4 then i < 8 else i < 4 || 8 <= i < SIZEOF_SOCKADDR_IN6
  }

  /** `storage` has the meaningful bytes of `memory` and zeros elsewhere. */
  ghost predicate Normalised(version: IPVersion, memory: seq<byte>, storage: seq<byte>)
    requires |memory| >= if version == IPv4 then SIZEOF_SOCKADDR_IN else SIZEOF_SOCKADDR_IN6
  {
    && |storage| == SIZEOF_STORAGE
    && forall i | 0 <= i < SIZEOF_STORAGE :: storage[i] == if Meaningful(version, i) then memory[i] else 0
  }

  lemma PiecesV4(memory: seq<byte>)
    requires |memory| >= SIZEOF_SOCKADDR_IN
    ensures Normalised(IPv4, memory, memory[0..2] + memory[2..4] + memory[4..8] + Zeros(120))
  {
  }

  lemma PiecesV6(memory: seq<byte>)
    requires |memory| >= SIZEOF_SOCKADDR_IN6
    ensures Normalised(IPv6, memory, memory[0..2] + memory[2..4] + Zeros(4) + memory[8..24] + memory[24..28] + Zeros(100))
  {
  }

  lemma NormalisedV4(host: Host, memory: seq<byte>, e: Endpoint)
    requires |memory| >= SIZEOF_SOCKADDR_IN && |e.address.bytes| == IPV6_BYTE_COUNT && e.address.version == IPv4
    requires HostValue(host, memory[0..2]) == AF_INET && e.port == Port(memory[2..4])
    requires e.address.bytes[..4] == memory[4..8]
    ensures Normalised(IPv4, memory, ToNative(host, e).0)
  {
    assert HostBytes(host, AF_INET, 2) == memory[0..2] && NetworkBytes(e.port, 2) == memory[2..4] by {
      HostWrite(host, memory[0..2]);
      HostWrite(host, memory[2..4]);
    }
    PiecesV4(memory);
  }

  lemma NormalisedV6(host: Host, memory: seq<byte>, e: Endpoint)
    requires |memory| >= SIZEOF_SOCKADDR_IN6 && |e.address.bytes| == IPV6_BYTE_COUNT && e.address.version == IPv6
    requires HostValue(host, memory[0..2]) == AF_INET6 && e.port == Port(memory[2..4])
    requires e.address.bytes == memory[8..24] && e.scopeId == Scope(host, memory[24..28])
    ensures Normalised(IPv6, memory, ToNative(host, e).0)
  {
    assert && HostBytes(host, AF_INET6, 2) == memory[0..2] && NetworkBytes(e.port, 2) == memory[2..4]
           && HostBytes(host, e.scopeId, 4) == memory[24..28] by {
      HostWrite(host, memory[0..2]);
      HostWrite(host, memory[2..4]);
      HostWrite(host, memory[24..28]);
    }
    PiecesV6(memory);
  }

  /** What the kernel hands over, converted both ways, keeps its meaningful
      bytes and has zeros for all others. */
  lemma NativeNormalised(host: Host, memory: seq<byte>, len: int)
    requires len <= |memory| && FromNative(host, Some(memory), len).Some?
    ensures var e := FromNative(host, Some(memory), len).value;
            && ConstructibleEndpoint(e) && ToNative(host, e).1 <= len
            && Normalised(e.address.version, memory, ToNative(host, e).0)
  {
    var e := FromNative(host, Some(memory), len).value;
    if e.address.version == IPv4 {
      assert e.address.bytes[..4] == memory[4..8];
      NormalisedV4(host, memory, e);
    } else {
      assert e.address.bytes == memory[8..24];
      NormalisedV6(host, memory, e);
    }
  }

  /** Converting again changes nothing any more. */
  lemma NormalisedIsFixed(host: Host, memory: seq<byte>, len: int)
    requires len <= |memory| && FromNative(host, Some(memory), len).Some?
    ensures var native := ToNative(host, FromNative(host, Some(memory), len).value);
            var again := FromNative(host, Some(native.0), native.1);
            again == FromNative(host, Some(memory), len) && ToNative(host, again.value) == native
  {
    NativeNormalised(host, memory, len);
    var e := FromNative(host, Some(memory), len).value;
    NativeRoundTrip(host, e, ToNative(host, e).0, ToNative(host, e).1);
  }
}
