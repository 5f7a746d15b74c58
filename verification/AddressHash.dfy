/** The hashes of addresses and endpoints: exclusive or, then multiply, modulo
    the width of size_t. */
module AddressHash {
  import opened Common
  import opened Addresses

  /** The two widths of size_t that the source distinguishes. */
  datatype Width = Bits32 | Bits64

  function Bits(w: Width): nat {
    if w == Bits64 then 64 else 32
  }

  function Modulus(w: Width): nat {
    if w == Bits64 then 0x1_0000_0000_0000_0000 else 0x1_0000_0000
  }

  function Offset(w: Width): nat {
    if w == Bits64 then 14695981039346656037 else 2166136261
  }

  function Prime(w: Width): nat {
    if w == Bits64 then 1099511628211 else 16777619
  }

  /** Exclusive or, bit by bit from the lowest. */
  function Xor(a: nat, b: nat): nat {
    if a == 0 && b == 0 then 0 else (a + b) % 2 + 2 * Xor(a / 2, b / 2)
  }

  lemma XorHalves(a: nat, b: nat)
    ensures Xor(a, b) / 2 == Xor(a / 2, b / 2) && Xor(a, b) % 2 == (a + b) % 2
  {
  }

  /** The same number again takes an exclusive or back. */
  lemma {:induction false} XorTwice(a: nat, b: nat)
    ensures Xor(Xor(a, b), b) == a
    decreases a + b
  {
    if a > 0 || b > 0 {
      var x := Xor(a, b);
      XorHalves(a, b);
      XorHalves(x, b);
      XorTwice(a / 2, b / 2);
      Parity(a, b, x);
      SameHalves(Xor(x, b), a);
    }
  }

  /** Bit k of a number, counted from the lowest. */
  function Bit(n: nat, k: nat): nat {
    if k == 0 then n % 2 else Bit(n / 2, k - 1)
  }

  /** Bit by bit: set where exactly one of the two is. */
  lemma {:induction false} XorBit(a: nat, b: nat, k: nat)
    ensures Bit(Xor(a, b), k) == (Bit(a, k) + Bit(b, k)) % 2
    decreases k
  {
    XorHalves(a, b);
    if k == 0 {
      OddSum(a, b);
    } else {
      BitAbove(a, k);
      BitAbove(b, k);
      BitAbove(Xor(a, b), k);
      XorBit(a / 2, b / 2, k - 1);
    }
  }

  lemma BitAbove(n: nat, k: nat)
    requires k > 0
    ensures Bit(n, k) == Bit(n / 2, k - 1)
  {
  }

  lemma OddSum(a: nat, b: nat)
    ensures (a + b) % 2 == (a % 2 + b % 2) % 2
  {
  }

  lemma Parity(a: nat, b: nat, x: nat)
    requires x % 2 == (a + b) % 2
    ensures (x + b) % 2 == a % 2
  {
  }

  lemma SameHalves(x: nat, y: nat)
    requires x / 2 == y / 2 && x % 2 == y % 2
    ensures x == y
  {
  }

  lemma XorCommutes(a: nat, b: nat)
    ensures Xor(a, b) == Xor(b, a)
  {
  }

  function Power2(n: nat): (p: nat)
    ensures p > 0
  {
    if n == 0 then 1 else 2 * Power2(n - 1)
  }

  lemma {:induction false} XorBounded(a: nat, b: nat, n: nat)
    requires a < Power2(n) && b < Power2(n)
    ensures Xor(a, b) < Power2(n)
  {
    if n > 0 {
      XorBounded(a / 2, b / 2, n - 1);
    }
  }

  lemma {:induction false} Power2Adds(m: nat, n: nat)
    ensures Power2(m + n) == Power2(m) * Power2(n)
  {
    if m > 0 {
      Power2Adds(m - 1, n);
    }
  }

  lemma ModulusIsPower(w: Width)
    ensures Modulus(w) == Power2(Bits(w))
  {
    Power2Of32();
    Power2Adds(32, 32);
  }

  lemma Power2Of32()
    ensures Power2(32) == 0x1_0000_0000
  {
    assert Power2(8) == 0x100;
    Power2Adds(8, 8);
    Power2Adds(16, 16);
  }

  /** `hash ^= x; hash *= prime;` */
  function Mix(w: Width, hash: nat, x: nat): (mixed: nat)
    ensures mixed < Modulus(w)
  {
    (Xor(hash, x) * Prime(w)) % Modulus(w)
  }

  /** The inverse of the prime: an odd number has one modulo a power of two. */
  function Inverse(w: Width): nat {
    if w == Bits64 then 14886173955864302971 else 899433627
  }

  /** Multiplying by the prime loses nothing: its inverse brings `h` back. */
  lemma PrimeInverts(w: Width, h: nat)
    requires h < Modulus(w)
    ensures ((h * Prime(w)) % Modulus(w) * Inverse(w)) % Modulus(w) == h
  {
    var q := h * Prime(w) / Modulus(w);
    if w == Bits64 {
      assert 1099511628211 * 14886173955864302971 == 1 + 887285111055 * 0x1_0000_0000_0000_0000;
      RemainderWide(h * 887285111055 - q * 14886173955864302971, h);
    } else {
      assert 16777619 * 899433627 == 1 + 3513497 * 0x1_0000_0000;
      RemainderNarrow(h * 3513497 - q * 899433627, h);
    }
  }

  lemma RemainderWide(k: int, h: nat)
    requires h < 0x1_0000_0000_0000_0000
    ensures (h + 0x1_0000_0000_0000_0000 * k) % 0x1_0000_0000_0000_0000 == h
  {
  }

  lemma RemainderNarrow(k: int, h: nat)
    requires h < 0x1_0000_0000
    ensures (h + 0x1_0000_0000 * k) % 0x1_0000_0000 == h
  {
  }

  /** Different states stay different, whatever is mixed in. */
  lemma MixInjectiveInState(w: Width, h1: nat, h2: nat, x: nat)
    requires h1 < Modulus(w) && h2 < Modulus(w) && x < Modulus(w)
    ensures Mix(w, h1, x) == Mix(w, h2, x) ==> h1 == h2
  {
    ModulusIsPower(w);
    XorBounded(h1, x, Bits(w));
    XorBounded(h2, x, Bits(w));
    PrimeInverts(w, Xor(h1, x));
    PrimeInverts(w, Xor(h2, x));
    XorTwice(h1, x);
    XorTwice(h2, x);
  }

  /** Different inputs make one state into different ones. */
  lemma MixInjectiveInInput(w: Width, h: nat, x1: nat, x2: nat)
    requires h < Modulus(w) && x1 < Modulus(w) && x2 < Modulus(w)
    ensures Mix(w, h, x1) == Mix(w, h, x2) ==> x1 == x2
  {
    ModulusIsPower(w);
    XorBounded(h, x1, Bits(w));
    XorBounded(h, x2, Bits(w));
    PrimeInverts(w, Xor(h, x1));
    PrimeInverts(w, Xor(h, x2));
    XorCommutes(h, x1);
    XorCommutes(h, x2);
    XorTwice(x1, h);
    XorTwice(x2, h);
  }

  function MixAll(w: Width, hash: nat, bytes: seq<byte>): nat
    decreases |bytes|
  {
    if bytes == [] then hash else MixAll(w, Mix(w, hash, bytes[0]), bytes[1..])
  }

  lemma {:induction false} MixAllSplit(w: Width, hash: nat, a: seq<byte>, b: seq<byte>)
    ensures MixAll(w, hash, a + b) == MixAll(w, MixAll(w, hash, a), b)
    decreases |a|
  {
    if a == [] {
      assert a + b == b;
    } else {
      assert (a + b)[1..] == a[1..] + b;
      MixAllSplit(w, Mix(w, hash, a[0]), a[1..], b);
    }
  }

  lemma {:induction false} MixAllBounded(w: Width, hash: nat, bytes: seq<byte>)
    requires hash < Modulus(w)
    ensures MixAll(w, hash, bytes) < Modulus(w)
    decreases |bytes|
  {
    if bytes != [] {
      MixAllBounded(w, Mix(w, hash, bytes[0]), bytes[1..]);
    }
  }

  lemma {:induction false} MixAllInjectiveInState(w: Width, h1: nat, h2: nat, bytes: seq<byte>)
    requires h1 < Modulus(w) && h2 < Modulus(w)
    ensures MixAll(w, h1, bytes) == MixAll(w, h2, bytes) ==> h1 == h2
    decreases |bytes|
  {
    if bytes != [] {
      MixAllInjectiveInState(w, Mix(w, h1, bytes[0]), Mix(w, h2, bytes[0]), bytes[1..]);
      MixInjectiveInState(w, h1, h2, bytes[0]);
    }
  }

  function HashOf(w: Width, a: IPAddress): nat
    requires |a.bytes| == IPV6_BYTE_COUNT
  {
    MixAll(w, Mix(w, Offset(w), VersionCode(a.version)), SpanBytes(a))
  }

  /** `IPAddress::Hash`, with its loop over the bytes in use. */
  method Hash(w: Width, a: IPAddress) returns (hash: nat)
    requires |a.bytes| == IPV6_BYTE_COUNT
    ensures hash == HashOf(w, a) && hash < Modulus(w)
  {
    hash := Offset(w);
    var byteCount := ByteCount(a.version);
    hash := Mix(w, hash, VersionCode(a.version));
    var i := 0;
    while i < byteCount
      invariant i <= byteCount && hash < Modulus(w)
      invariant MixAll(w, hash, SpanBytes(a)[i..]) == HashOf(w, a)
    {
      assert SpanBytes(a)[i..][1..] == SpanBytes(a)[i + 1..];
      hash := Mix(w, hash, a.bytes[i]);
      i := i + 1;
    }
  }

  /** `SocketEndpoint::Hash` */
  function EndpointHash(w: Width, e: Endpoint): nat
    requires |e.address.bytes| == IPV6_BYTE_COUNT
  {
    Mix(w, Mix(w, HashOf(w, e.address), e.port), e.scopeId)
  }

  /** The states a hash goes through: the offset basis, and for each input the
      exclusive or of it with the state, times the prime, cut to the width. */
  ghost predicate Fnv(w: Width, inputs: seq<nat>, states: seq<nat>) {
    && |states| == |inputs| + 1
    && states[0] == (if w == Bits64 then 14695981039346656037 else 2166136261)
    && forall k | 0 <= k < |inputs| ::
         states[k + 1] == if w == Bits64 then (Xor(states[k], inputs[k]) * 1099511628211) % 0x1_0000_0000_0000_0000
                          else (Xor(states[k], inputs[k]) * 16777619) % 0x1_0000_0000
  }

  lemma {:induction false} MixAllIsFnv(w: Width, inputs: seq<nat>, states: seq<nat>, hash: nat, bytes: seq<byte>)
    returns (all: seq<nat>)
    requires Fnv(w, inputs, states) && states[|inputs|] == hash
    ensures Fnv(w, inputs + bytes, all) && all[|inputs + bytes|] == MixAll(w, hash, bytes)
    decreases |bytes|
  {
    all := states;
    if bytes == [] {
      assert inputs + bytes == inputs;
    } else {
      var next := Mix(w, hash, bytes[0]);
      all := MixAllIsFnv(w, inputs + [bytes[0]], states + [next], next, bytes[1..]);
      assert inputs + [bytes[0]] + bytes[1..] == inputs + bytes;
    }
  }

  /** The hash of an address: its version, and then its bytes in order. */
  lemma HashIsFnv(w: Width, a: IPAddress) returns (states: seq<nat>)
    requires |a.bytes| == IPV6_BYTE_COUNT
    ensures var inputs: seq<nat> := [if a.version == IPv4 then 0 else 1] + SpanBytes(a);
            Fnv(w, inputs, states) && HashOf(w, a) == states[|inputs|]
  {
    var code := VersionCode(a.version);
    var first := Mix(w, Offset(w), code);
    states := MixAllIsFnv(w, [code], [Offset(w), first], first, SpanBytes(a));
  }

  /** The hash of an endpoint: after its address the port and then the scope. */
  lemma EndpointHashIsFnv(w: Width, e: Endpoint) returns (states: seq<nat>)
    requires |e.address.bytes| == IPV6_BYTE_COUNT
    ensures var inputs: seq<nat> :=
              [if e.address.version == IPv4 then 0 else 1] + SpanBytes(e.address) + [e.port, e.scopeId];
            Fnv(w, inputs, states) && EndpointHash(w, e) == states[|inputs|]
  {
    var before := HashIsFnv(w, e.address);
    var withPort := Mix(w, HashOf(w, e.address), e.port);
    states := before + [withPort, Mix(w, withPort, e.scopeId)];
  }

  /** What compares equal has one hash. */
  lemma EqualHashes(w: Width, a: Endpoint, b: Endpoint)
    requires |a.address.bytes| == IPV6_BYTE_COUNT == |b.address.bytes| && SameEndpoint(a, b)
    ensures HashOf(w, a.address) == HashOf(w, b.address) && EndpointHash(w, a) == EndpointHash(w, b)
  {
  }

  /** Bytes that differ at index i only make different hashes. */
  lemma OneByteShows(w: Width, hash: nat, a: seq<byte>, b: seq<byte>, i: nat)
    requires hash < Modulus(w) && |a| == |b| && i < |a| && a[i] != b[i]
    requires a[..i] == b[..i] && a[i + 1..] == b[i + 1..]
    ensures MixAll(w, hash, a) != MixAll(w, hash, b)
  {
    var h := MixAll(w, hash, a[..i]);
    MixAllBounded(w, hash, a[..i]);
    assert a == a[..i] + ([a[i]] + a[i + 1..]) && b == a[..i] + ([b[i]] + a[i + 1..]);
    MixAllSplit(w, hash, a[..i], [a[i]] + a[i + 1..]);
    MixAllSplit(w, hash, a[..i], [b[i]] + a[i + 1..]);
    MixAllInjectiveInState(w, Mix(w, h, a[i]), Mix(w, h, b[i]), a[i + 1..]);
    MixInjectiveInInput(w, h, a[i], b[i]);
  }

  /** Two addresses of one version that differ in exactly one byte never have
      the same hash. */
  lemma AddressesOneByteApart(w: Width, a: IPAddress, b: IPAddress, i: nat)
    requires |a.bytes| == IPV6_BYTE_COUNT == |b.bytes| && a.version == b.version
    requires i < ByteCount(a.version) && a.bytes[i] != b.bytes[i]
    requires forall k | 0 <= k < ByteCount(a.version) && k != i :: a.bytes[k] == b.bytes[k]
    ensures HashOf(w, a) != HashOf(w, b)
  {
    OneByteShows(w, Mix(w, Offset(w), VersionCode(a.version)), SpanBytes(a), SpanBytes(b), i);
  }

  /** Endpoints that differ in nothing but the port, or the scope, or addresses
      with different hashes, never have the same hash. */
  lemma EndpointsOneFieldApart(w: Width, a: Endpoint, b: Endpoint)
    requires |a.address.bytes| == IPV6_BYTE_COUNT == |b.address.bytes|
    ensures a.address == b.address && a.port != b.port && a.scopeId == b.scopeId ==> EndpointHash(w, a) != EndpointHash(w, b)
    ensures a.address == b.address && a.port == b.port && a.scopeId != b.scopeId ==> EndpointHash(w, a) != EndpointHash(w, b)
    ensures a.port == b.port && a.scopeId == b.scopeId && HashOf(w, a.address) != HashOf(w, b.address) ==>
              EndpointHash(w, a) != EndpointHash(w, b)
  {
    var ha, hb := HashOf(w, a.address), HashOf(w, b.address);
    MixAllBounded(w, Mix(w, Offset(w), VersionCode(a.address.version)), SpanBytes(a.address));
    MixAllBounded(w, Mix(w, Offset(w), VersionCode(b.address.version)), SpanBytes(b.address));
    MixInjectiveInInput(w, Mix(w, ha, a.port), a.scopeId, b.scopeId);
    MixInjectiveInState(w, Mix(w, ha, a.port), Mix(w, hb, b.port), a.scopeId);
    MixInjectiveInInput(w, ha, a.port, b.port);
    MixInjectiveInState(w, ha, hb, a.port);
  }
}
