/** IP addresses and endpoints as values, their equality and their order:
    include/net/ip_address.hpp and include/net/socket_endpoint.hpp. */
module Addresses {
  import opened Common

  const IPV4_BYTE_COUNT: nat := 4
  const IPV6_BYTE_COUNT: nat := 16

  datatype IPVersion = IPv4 | IPv6

  /** The byte array has room for either version; IPv4 uses the first four. */
  datatype IPAddress = IPAddress(version: IPVersion, bytes: seq<byte>)

  function ByteCount(version: IPVersion): nat {
    if version == IPv4 then IPV4_BYTE_COUNT else IPV6_BYTE_COUNT
  }

  function Zeros(n: nat): (zeros: seq<byte>)
    ensures |zeros| == n && forall i {:trigger zeros[i]} | 0 <= i < n :: zeros[i] == 0
  {
    seq(n, i => 0)
  }

  /** What the factories can make: all sixteen bytes are there, and those that
      the version does not use are zero. */
  predicate Constructible(a: IPAddress) {
    |a.bytes| == IPV6_BYTE_COUNT && a.bytes[ByteCount(a.version)..] == Zeros(IPV6_BYTE_COUNT - ByteCount(a.version))
  }

  function SpanBytes(a: IPAddress): seq<byte>
    requires |a.bytes| == IPV6_BYTE_COUNT
  {
    a.bytes[..ByteCount(a.version)]
  }

  /** The enumerators of IPVersion; a cast may produce other numbers. */
  function VersionOf(code: int): Option<IPVersion> {
    if code == 0 then Some(IPv4) else if code == 1 then Some(IPv6) else None
  }

  function VersionCode(version: IPVersion): (code: nat)
    ensures VersionOf(code) == Some(version)
  {
    match version
    case IPv4 => 0
    case IPv6 => 1
  }

  function FromBytes(bytes: seq<byte>, code: int): (a: Option<IPAddress>)
    ensures a.Some? <==> VersionOf(code).Some? && |bytes| == ByteCount(VersionOf(code).value)
    ensures a.Some? ==>
              Constructible(a.value) && a.value.version == VersionOf(code).value && SpanBytes(a.value) == bytes
  {
    match VersionOf(code)
    case None => None
    case Some(version) =>
      if |bytes| != ByteCount(version) then None
      else
        var all := bytes + Zeros(IPV6_BYTE_COUNT - |bytes|);
        assert all[..ByteCount(version)] == bytes;
        Some(IPAddress(version, all))
  }

  /** An address is its version and its bytes: nothing else can be constructed. */
  lemma FromBytesComplete(a: IPAddress)
    requires Constructible(a)
    ensures FromBytes(SpanBytes(a), VersionCode(a.version)) == Some(a)
  {
    assert a.bytes == SpanBytes(a) + a.bytes[ByteCount(a.version)..];
  }

  function Any(version: IPVersion): (a: IPAddress)
    ensures Constructible(a) && a.version == version && SpanBytes(a) == Zeros(ByteCount(version))
  {
    IPAddress(version, Zeros(IPV6_BYTE_COUNT))
  }

  function Loopback(version: IPVersion): (a: IPAddress)
    ensures Constructible(a) && a.version == version && a != Any(version)
    ensures SpanBytes(a) == if version == IPv4 then [127, 0, 0, 1] else Zeros(15) + [1]
  {
    var bytes := if version == IPv4 then Zeros(16)[0 := 127][3 := 1] else Zeros(16)[15 := 1];
    assert bytes != Zeros(16) by {
      assert bytes[if version == IPv4 then 0 else 15] != 0;
    }
    IPAddress(version, bytes)
  }

  /** `operator==` looks only at the bytes the version uses. */
  predicate SameAddress(a: IPAddress, b: IPAddress)
    requires |a.bytes| == IPV6_BYTE_COUNT == |b.bytes|
  {
    a.version == b.version && a.bytes[..ByteCount(a.version)] == b.bytes[..ByteCount(a.version)]
  }

  lemma SameAddressIsEquality(a: IPAddress, b: IPAddress)
    requires Constructible(a) && Constructible(b)
    ensures SameAddress(a, b) <==> a == b
  {
  }

  // --- Order -------------------------------------------------------------------

  datatype Ordering = Less | Equal | Greater

  function CompareInts(a: int, b: int): (ordering: Ordering)
    ensures (ordering == Less <==> a < b) && (ordering == Greater <==> b < a)
  {
    if a < b then Less else if a == b then Equal else Greater
  }

  /** `lexicographical_compare_three_way` */
  function CompareBytes(a: seq<byte>, b: seq<byte>): Ordering {
    if a == [] || b == [] then CompareInts(|a|, |b|)
    else if a[0] != b[0] then CompareInts(a[0], b[0])
    else CompareBytes(a[1..], b[1..])
  }

  function CompareAddresses(a: IPAddress, b: IPAddress): Ordering
    requires |a.bytes| == IPV6_BYTE_COUNT == |b.bytes|
  {
    if a.version != b.version then if a.version == IPv4 then Less else Greater
    else CompareBytes(SpanBytes(a), SpanBytes(b))
  }

  function Power256(n: nat): nat {
    if n == 0 then 1 else 256 * Power256(n - 1)
  }

  /** The number that bytes in network order stand for. */
  function BigEndian(bytes: seq<byte>): nat {
    if bytes == [] then 0 else bytes[0] * Power256(|bytes| - 1) + BigEndian(bytes[1..])
  }

  lemma {:induction false} SmallerDigit(x: nat, y: nat, unit: nat)
    requires x < y
    ensures x * unit + unit <= y * unit
  {
    if x + 1 < y {
      SmallerDigit(x, y - 1, unit);
      assert (y - 1) * unit + unit == y * unit;
    } else {
      assert (x + 1) * unit == x * unit + unit;
    }
  }

  lemma {:induction false} BigEndianBounded(bytes: seq<byte>)
    ensures BigEndian(bytes) < Power256(|bytes|)
  {
    if bytes != [] {
      BigEndianBounded(bytes[1..]);
      SmallerDigit(bytes[0], 256, Power256(|bytes| - 1));
    }
  }

  /** The number of an IPv4 address: its first byte counts most. */
  lemma BigEndianOf4(bytes: seq<byte>)
    requires |bytes| == 4
    ensures BigEndian(bytes) ==
            0x100_0000 * bytes[0] as int + 0x1_0000 * bytes[1] as int + 0x100 * bytes[2] as int + bytes[3]
  {
    assert Power256(3) == 0x100_0000 && Power256(2) == 0x1_0000;
    assert BigEndian(bytes[1..]) == bytes[1] * Power256(2) + BigEndian(bytes[2..]) by {
      assert bytes[1..][1..] == bytes[2..];
    }
    assert BigEndian(bytes[2..]) == bytes[2] * Power256(1) + BigEndian(bytes[3..]) by {
      assert bytes[2..][1..] == bytes[3..];
    }
    assert BigEndian(bytes[3..]) == bytes[3] * Power256(0) + BigEndian([]) by {
      assert bytes[3..][1..] == [];
    }
  }

  /** Comparing byte by byte is comparing the numbers. */
  lemma {:induction false} CompareBytesIsNumeric(a: seq<byte>, b: seq<byte>)
    requires |a| == |b|
    ensures CompareBytes(a, b) == CompareInts(BigEndian(a), BigEndian(b))
  {
    if a != [] {
      BigEndianBounded(a[1..]);
      BigEndianBounded(b[1..]);
      if a[0] < b[0] {
        SmallerDigit(a[0], b[0], Power256(|a| - 1));
      } else if a[0] > b[0] {
        SmallerDigit(b[0], a[0], Power256(|a| - 1));
      } else {
        CompareBytesIsNumeric(a[1..], b[1..]);
      }
    }
  }

  lemma {:induction false} CompareEqual(a: seq<byte>, b: seq<byte>)
    requires CompareBytes(a, b) == Equal
    ensures a == b
  {
    if a != [] && b != [] {
      CompareEqual(a[1..], b[1..]);
    }
  }

  /** Network bytes of one length are determined by their number. */
  lemma BigEndianInjective(a: seq<byte>, b: seq<byte>)
    requires |a| == |b| && BigEndian(a) == BigEndian(b)
    ensures a == b
  {
    CompareBytesIsNumeric(a, b);
    CompareEqual(a, b);
  }

  /** Within one version, address order is the order of the 32- or 128-bit
      numbers; every IPv4 address comes before every IPv6 address. */
  lemma AddressOrderIsNumeric(a: IPAddress, b: IPAddress)
    requires Constructible(a) && Constructible(b)
    ensures CompareAddresses(a, b) == Less <==>
            || (a.version == IPv4 && b.version == IPv6)
            || (a.version == b.version && BigEndian(SpanBytes(a)) < BigEndian(SpanBytes(b)))
    ensures CompareAddresses(a, b) == Equal <==>
            a.version == b.version && BigEndian(SpanBytes(a)) == BigEndian(SpanBytes(b))
  {
    if a.version == b.version {
      CompareBytesIsNumeric(SpanBytes(a), SpanBytes(b));
    }
  }

  // --- Endpoints ---------------------------------------------------------------

  type uint16 = n: int | 0 <= n < 0x1_0000
  type uint32 = n: int | 0 <= n < 0x1_0000_0000

  datatype Endpoint = Endpoint(address: IPAddress, port: uint16, scopeId: uint32)

  /** The constructor: only IPv6 endpoints have a scope. */
  function MakeEndpoint(address: IPAddress, port: uint16, scopeId: uint32): Endpoint {
    Endpoint(address, port, if address.version == IPv6 then scopeId else 0)
  }

  predicate ConstructibleEndpoint(e: Endpoint) {
    Constructible(e.address) && (e.address.version == IPv4 ==> e.scopeId == 0)
  }

  /** The constructor makes exactly the constructible endpoints. */
  lemma MakeEndpointExactly(address: IPAddress, port: uint16, scopeId: uint32, e: Endpoint)
    requires Constructible(address)
    ensures var made := MakeEndpoint(address, port, scopeId);
            && ConstructibleEndpoint(made) && made.address == address && made.port == port
            && (address.version == IPv6 ==> made.scopeId == scopeId)
    ensures ConstructibleEndpoint(e) ==> MakeEndpoint(e.address, e.port, e.scopeId) == e
  {
  }

  predicate SameEndpoint(a: Endpoint, b: Endpoint)
    requires |a.address.bytes| == IPV6_BYTE_COUNT == |b.address.bytes|
  {
    SameAddress(a.address, b.address) && a.port == b.port && a.scopeId == b.scopeId
  }

  /** `operator<=>`: address, then port, then scope. */
  function CompareEndpoints(a: Endpoint, b: Endpoint): Ordering
    requires |a.address.bytes| == IPV6_BYTE_COUNT == |b.address.bytes|
  {
    var cmp := CompareAddresses(a.address, b.address);
    if cmp != Equal then cmp
    else if a.port != b.port then CompareInts(a.port, b.port)
    else CompareInts(a.scopeId, b.scopeId)
  }

  /** Ports decide between equal addresses, scopes between equal ports. */
  lemma EndpointOrderIsLexicographic(a: Endpoint, b: Endpoint)
    requires Constructible(a.address) && Constructible(b.address)
    ensures CompareEndpoints(a, b) == Less <==>
            || CompareAddresses(a.address, b.address) == Less
            || (CompareAddresses(a.address, b.address) == Equal
                && (a.port < b.port || (a.port == b.port && a.scopeId < b.scopeId)))
  {
  }

  /** The numbers that decide the order, most significant first. */
  ghost function Key(e: Endpoint): (int, int, int, int)
    requires Constructible(e.address)
  {
    (if e.address.version == IPv4 then 0 else 1, BigEndian(SpanBytes(e.address)), e.port, e.scopeId)
  }

  function CompareKeys(a: (int, int, int, int), b: (int, int, int, int)): Ordering {
    if a.0 != b.0 then CompareInts(a.0, b.0)
    else if a.1 != b.1 then CompareInts(a.1, b.1)
    else if a.2 != b.2 then CompareInts(a.2, b.2)
    else CompareInts(a.3, b.3)
  }

  lemma EndpointOrderIsByKey(a: Endpoint, b: Endpoint)
    requires Constructible(a.address) && Constructible(b.address)
    ensures CompareEndpoints(a, b) == CompareKeys(Key(a), Key(b))
  {
    AddressOrderIsNumeric(a.address, b.address);
  }

  /** A strict total order whose equality is `operator==`. */
  lemma EndpointOrderIsTotal(a: Endpoint, b: Endpoint, c: Endpoint)
    requires ConstructibleEndpoint(a) && ConstructibleEndpoint(b) && ConstructibleEndpoint(c)
    ensures CompareEndpoints(a, b) == Equal <==> SameEndpoint(a, b)
    ensures SameEndpoint(a, b) <==> a == b
    ensures CompareEndpoints(a, b) == Less <==> CompareEndpoints(b, a) == Greater
    ensures CompareEndpoints(a, b) == Less && CompareEndpoints(b, c) == Less ==> CompareEndpoints(a, c) == Less
  {
    EndpointOrderIsByKey(a, b);
    EndpointOrderIsByKey(b, a);
    EndpointOrderIsByKey(b, c);
    EndpointOrderIsByKey(a, c);
    SameAddressIsEquality(a.address, b.address);
    if Key(a) == Key(b) {
      BigEndianInjective(SpanBytes(a.address), SpanBytes(b.address));
    }
  }
}
