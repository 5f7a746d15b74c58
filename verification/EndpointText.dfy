/** Addresses and endpoints as text: `Parse` and `ToString` of
    include/net/ip_address.hpp and include/net/socket_endpoint.hpp. */
module EndpointText {
  import opened Common
  import opened Addresses
  import opened Decimal
  import D = DottedDecimal

  const INET6_ADDRSTRLEN: nat := 46

  /** The C library's `inet_ntop` and `inet_pton` for AF_INET6. */
  datatype Text6 = Text6(show: seq<byte> -> string, read: string -> Option<seq<byte>>)

  /** What the endpoint text needs of them; module Ipv6Text has an instance. */
  ghost predicate Lawful(t: Text6) {
    && (forall b: seq<byte> {:trigger t.show(b)} | |b| == IPV6_BYTE_COUNT ::
          t.read(t.show(b)) == Some(b) && PlainText6(t.show(b)))
    && forall s: string {:trigger t.read(s)} :: t.read(s).Some? ==> |t.read(s).value| == IPV6_BYTE_COUNT
  }

  /** A C string that fits the buffer, has a colon, and no bracket or percent. */
  predicate PlainText6(s: string) {
    && |s| < INET6_ADDRSTRLEN && ':' in s
    && '\0' !in s && '[' !in s && ']' !in s && '%' !in s
  }

  /** `IPAddress::Parse`: IPv4 first. */
  function ParseAddress(t: Text6, s: string): Option<IPAddress> {
    if s == [] || |s| >= INET6_ADDRSTRLEN || '\0' in s then None
    else
      match D.ParseBytes(s, 4)
      case Some(bytes) => FromBytes(bytes, 0)
      case None =>
        match t.read(s)
        case Some(bytes) => FromBytes(bytes, 1)
        case None => None
  }

  /** `IPAddress::ToString` */
  function AddressText(t: Text6, a: IPAddress): string
    requires |a.bytes| == IPV6_BYTE_COUNT
  {
    if a.version == IPv4 then D.PrintBytes(SpanBytes(a)) else t.show(SpanBytes(a))
  }

  function InBrackets(inside: string, port: string): string {
    "[" + inside + "]:" + port
  }

  /** `SocketEndpoint::ToString` */
  function EndpointString(t: Text6, e: Endpoint): string
    requires |e.address.bytes| == IPV6_BYTE_COUNT
  {
    if e.address.version == IPv6 then
      var scope := if e.scopeId == 0 then "" else "%" + ToDecimal(e.scopeId);
      InBrackets(AddressText(t, e.address) + scope, ToDecimal(e.port))
    else
      AddressText(t, e.address) + ":" + ToDecimal(e.port)
  }

  /** The scope after the first percent sign inside the brackets, if any. */
  function ParseScope(inside: string): Option<uint32> {
    var percent := Find(inside, '%');
    if percent == |inside| then Some(0)
    else
      match ParseWhole(inside[percent + 1..], 0xFFFF_FFFF)
      case Some(scope) => ParseWholeExactly(inside[percent + 1..], 0xFFFF_FFFF); Some(scope)
      case None => None
  }

  function ParsePort(s: string): Option<uint16> {
    match ParseWhole(s, 0xFFFF)
    case Some(port) => ParseWholeExactly(s, 0xFFFF); Some(port)
    case None => None
  }

  function Finish(address: Option<IPAddress>, version: IPVersion, port: Option<uint16>, scope: Option<uint32>):
    Option<Endpoint>
  {
    if address.Some? && address.value.version == version && port.Some? && scope.Some?
    then Some(MakeEndpoint(address.value, port.value, scope.value))
    else None
  }

  /** `SocketEndpoint::Parse` */
  function ParseEndpoint(t: Text6, s: string): Option<Endpoint> {
    if s == [] then None
    else if s[0] == '[' then
      var close := Find(s, ']');
      if close == |s| || close + 1 >= |s| || s[close + 1] != ':' then None
      else
        var inside := s[1..close];
        Finish(ParseAddress(t, inside[..Find(inside, '%')]), IPv6, ParsePort(s[close + 2..]), ParseScope(inside))
    else
      var colon := FindLast(s, ':');
      if colon == |s| || colon == 0 || colon + 1 >= |s| then None
      else Finish(ParseAddress(t, s[..colon]), IPv4, ParsePort(s[colon + 1..]), Some(0))
  }

  // --- What is accepted ----------------------------------------------------------

  /** `ip` is a spelling of the address inside brackets. */
  ghost predicate Inside(t: Text6, ip: string, a: IPAddress) {
    ParseAddress(t, ip) == Some(a) && a.version == IPv6 && ']' !in ip && '%' !in ip
  }

  ghost predicate SpellsPort(s: string, port: uint16) {
    s != [] && AllDigits(s) && Value(s) == port
  }

  ghost predicate SpellsScope(s: string, scope: uint32) {
    s != [] && AllDigits(s) && Value(s) == scope
  }

  /** IPv4 addresses are accepted in the one spelling that is printed. */
  lemma AcceptedV4(t: Text6, s: string, a: IPAddress)
    requires a.version == IPv4
    ensures ParseAddress(t, s) == Some(a) <==> Constructible(a) && s == AddressText(t, a)
  {
    if ParseAddress(t, s) == Some(a) {
      D.PrintParsedBytes(s, 4);
    } else if Constructible(a) && s == AddressText(t, a) {
      V4Printed(t, a);
    }
  }

  lemma V4Printed(t: Text6, a: IPAddress)
    requires Constructible(a) && a.version == IPv4
    ensures ParseAddress(t, AddressText(t, a)) == Some(a)
  {
    FromBytesComplete(a);
    D.PrintedChars(SpanBytes(a));
    D.ParsePrintedBytes(SpanBytes(a));
  }

  /** IPv6 addresses are accepted as the C library reads them, if they fit its
      buffer, have no zero character and are not the text of an IPv4 address. */
  lemma AcceptedV6(t: Text6, s: string, a: IPAddress)
    requires Lawful(t) && a.version == IPv6
    ensures ParseAddress(t, s) == Some(a) <==>
            && Constructible(a) && t.read(s) == Some(SpanBytes(a))
            && 1 <= |s| <= 45 && '\0' !in s
            && !exists b: seq<byte> :: |b| == IPV4_BYTE_COUNT && D.PrintBytes(b) == s
  {
    NoV4Text(s);
    if Constructible(a) {
      FromBytesComplete(a);
    }
  }

  lemma NoV4Text(s: string)
    ensures D.ParseBytes(s, 4).None? <==> !exists b: seq<byte> :: |b| == IPV4_BYTE_COUNT && D.PrintBytes(b) == s
  {
    if D.ParseBytes(s, 4).Some? {
      D.PrintParsedBytes(s, 4);
    } else {
      forall b: seq<byte> | |b| == IPV4_BYTE_COUNT
        ensures D.PrintBytes(b) != s
      {
        D.ParsePrintedBytes(b);
      }
    }
  }

  /** The three forms of an endpoint. */
  ghost predicate Plain(t: Text6, s: string, e: Endpoint, ip: string, port: string) {
    && s == ip + ":" + port && SpellsPort(port, e.port) && e.scopeId == 0
    && ParseAddress(t, ip) == Some(e.address) && e.address.version == IPv4
  }

  ghost predicate Bracketed(t: Text6, s: string, e: Endpoint, ip: string, port: string) {
    s == InBrackets(ip, port) && SpellsPort(port, e.port) && e.scopeId == 0 && Inside(t, ip, e.address)
  }

  ghost predicate Scoped(t: Text6, s: string, e: Endpoint, ip: string, scope: string, port: string) {
    && s == InBrackets(ip + "%" + scope, port) && SpellsPort(port, e.port) && SpellsScope(scope, e.scopeId)
    && Inside(t, ip, e.address)
  }

  lemma PortExactly(s: string, port: uint16)
    ensures ParsePort(s) == Some(port) <==> SpellsPort(s, port)
  {
    ParseWholeExactly(s, 0xFFFF);
  }

  lemma PlainAccepted(t: Text6, s: string, e: Endpoint, ip: string, port: string)
    requires Plain(t, s, e, ip, port)
    ensures ParseEndpoint(t, s) == Some(e)
  {
    PortExactly(port, e.port);
    FindLastSplit(ip, ':', port);
    assert s == ip + [':'] + port && s[..|ip|] == ip && s[|ip| + 1..] == port;
    AddressStart(t, ip);
  }

  /** What is accepted as IPv4 does not begin with a bracket. */
  lemma AddressStart(t: Text6, ip: string)
    requires ParseAddress(t, ip).Some? && ParseAddress(t, ip).value.version == IPv4
    ensures ip != [] && ip[0] != '['
  {
    var bytes := D.ParseBytes(ip, 4).value;
    D.PrintParsedBytes(ip, 4);
    D.PrintedChars(bytes);
  }

  lemma BracketedAccepted(t: Text6, s: string, e: Endpoint, ip: string, port: string)
    requires Bracketed(t, s, e, ip, port)
    ensures ParseEndpoint(t, s) == Some(e)
  {
    PortExactly(port, e.port);
    ParseBrackets(t, ip, port);
    assert Find(ip, '%') == |ip| && ip[..|ip|] == ip;
  }

  /** Brackets without a closing bracket inside are found where they are. */
  lemma ParseBrackets(t: Text6, inside: string, port: string)
    requires ']' !in inside && port != []
    ensures ParseEndpoint(t, InBrackets(inside, port)) ==
            Finish(ParseAddress(t, inside[..Find(inside, '%')]), IPv6, ParsePort(port), ParseScope(inside))
  {
    var s := InBrackets(inside, port);
    assert s == ("[" + inside) + [']'] + (":" + port);
    FindSplit("[" + inside, ']', ":" + port);
    assert s[1..|inside| + 1] == inside && s[|inside| + 3..] == port;
  }

  lemma ScopedAccepted(t: Text6, s: string, e: Endpoint, ip: string, scope: string, port: string)
    requires Scoped(t, s, e, ip, scope, port)
    ensures ParseEndpoint(t, s) == Some(e)
  {
    var inside := ip + "%" + scope;
    PortExactly(port, e.port);
    ScopeFound(inside, ip, scope, e.scopeId);
    assert ']' !in inside;
    ParseBrackets(t, inside, port);
  }

  lemma ScopeFound(inside: string, ip: string, scope: string, scopeId: uint32)
    requires inside == ip + "%" + scope && '%' !in ip && SpellsScope(scope, scopeId)
    ensures inside[..Find(inside, '%')] == ip && ParseScope(inside) == Some(scopeId)
  {
    assert inside == ip + ['%'] + scope;
    FindSplit(ip, '%', scope);
    assert inside[..|ip|] == ip && inside[|ip| + 1..] == scope;
    ParseWholeExactly(scope, 0xFFFF_FFFF);
  }

  /** Whatever is accepted has one of the three forms. */
  lemma AcceptedSpelling(t: Text6, s: string)
    requires ParseEndpoint(t, s).Some?
    ensures var e := ParseEndpoint(t, s).value;
            || (exists ip, port :: Plain(t, s, e, ip, port))
            || (exists ip, port :: Bracketed(t, s, e, ip, port))
            || (exists ip, scope, port :: Scoped(t, s, e, ip, scope, port))
  {
    if s[0] == '[' {
      AcceptedInBrackets(t, s);
    } else {
      AcceptedWithoutBrackets(t, s);
    }
  }

  lemma AcceptedWithoutBrackets(t: Text6, s: string)
    requires ParseEndpoint(t, s).Some? && s[0] != '['
    ensures var e := ParseEndpoint(t, s).value; exists ip, port :: Plain(t, s, e, ip, port)
  {
    var colon := FindLast(s, ':');
    SplitAt(s, colon);
    PortExactly(s[colon + 1..], ParseEndpoint(t, s).value.port);
    assert Plain(t, s, ParseEndpoint(t, s).value, s[..colon], s[colon + 1..]);
  }

  lemma SplitAt(s: string, i: nat)
    requires i < |s|
    ensures s == s[..i] + [s[i]] + s[i + 1..]
  {
  }

  lemma AcceptedInBrackets(t: Text6, s: string)
    requires ParseEndpoint(t, s).Some? && s[0] == '['
    ensures var e := ParseEndpoint(t, s).value;
            || (exists ip, port :: Bracketed(t, s, e, ip, port))
            || (exists ip, scope, port :: Scoped(t, s, e, ip, scope, port))
  {
    var close := Find(s, ']');
    BetweenBrackets(s, close);
    PortExactly(s[close + 2..], ParseEndpoint(t, s).value.port);
    AcceptedInside(t, s, ParseEndpoint(t, s).value, s[1..close], s[close + 2..]);
  }

  lemma AcceptedInside(t: Text6, s: string, e: Endpoint, inside: string, port: string)
    requires s == InBrackets(inside, port) && ']' !in inside && SpellsPort(port, e.port)
    requires ParseAddress(t, inside[..Find(inside, '%')]) == Some(e.address) && e.address.version == IPv6
    requires ParseScope(inside) == Some(e.scopeId)
    ensures || (exists ip, port :: Bracketed(t, s, e, ip, port))
            || (exists ip, scope, port :: Scoped(t, s, e, ip, scope, port))
  {
    var percent := Find(inside, '%');
    var ip := inside[..percent];
    if percent == |inside| {
      assert ip == inside;
      assert Bracketed(t, s, e, ip, port);
    } else {
      ScopeSplit(inside, e.scopeId);
      assert Scoped(t, s, e, ip, inside[percent + 1..], port);
    }
  }

  lemma ScopeSplit(inside: string, scopeId: uint32)
    requires ParseScope(inside) == Some(scopeId) && Find(inside, '%') < |inside| && ']' !in inside
    ensures SpellsScope(inside[Find(inside, '%') + 1..], scopeId)
    ensures inside == inside[..Find(inside, '%')] + "%" + inside[Find(inside, '%') + 1..]
    ensures ']' !in inside[..Find(inside, '%')]
  {
    ParseWholeExactly(inside[Find(inside, '%') + 1..], 0xFFFF_FFFF);
    SplitAround(inside, Find(inside, '%'), ']');
  }

  /** A text around one of its characters; what it lacks, its parts lack. */
  lemma SplitAround(s: string, i: nat, c: char)
    requires i < |s| && c !in s
    ensures s == s[..i] + [s[i]] + s[i + 1..] && c !in s[..i]
  {
    assert forall x <- s[..i] :: x in s;
  }

  lemma BetweenBrackets(s: string, close: nat)
    requires 1 <= close && close + 1 < |s| && s[0] == '[' && s[close] == ']' && s[close + 1] == ':'
    requires ']' !in s[..close]
    ensures s == InBrackets(s[1..close], s[close + 2..]) && ']' !in s[1..close]
  {
  }

  // --- Round trips -----------------------------------------------------------------

  lemma ParsePrintedAddress(t: Text6, a: IPAddress)
    requires Lawful(t) && Constructible(a)
    ensures ParseAddress(t, AddressText(t, a)) == Some(a)
    ensures a.version == IPv6 ==> ']' !in AddressText(t, a) && '%' !in AddressText(t, a)
  {
    if a.version == IPv4 {
      V4Printed(t, a);
    } else {
      FromBytesComplete(a);
      assert PlainText6(AddressText(t, a));
      ColonIsNotDotted(AddressText(t, a));
    }
  }

  /** No text is an address of both versions. */
  lemma ColonIsNotDotted(s: string)
    requires ':' in s
    ensures D.ParseBytes(s, 4) == None
  {
    if D.ParseBytes(s, 4).Some? {
      D.PrintParsedBytes(s, 4);
      D.PrintedChars(D.ParseBytes(s, 4).value);
    }
  }

  /** The text of an endpoint, to the character. `port` and `scope` are the
      canonical spellings of its numbers; a zero scope is not written. */
  lemma TextExactly(t: Text6, e: Endpoint, port: string, scope: string)
    requires |e.address.bytes| == IPV6_BYTE_COUNT
    requires Canonical(port) && Value(port) == e.port && Canonical(scope) && Value(scope) == e.scopeId
    ensures e.address.version == IPv4 ==> EndpointString(t, e) == D.PrintBytes(e.address.bytes[..4]) + ":" + port
    ensures e.address.version == IPv6 && e.scopeId == 0 ==>
              EndpointString(t, e) == "[" + t.show(e.address.bytes) + "]:" + port
    ensures e.address.version == IPv6 && e.scopeId != 0 ==>
              EndpointString(t, e) == "[" + t.show(e.address.bytes) + "%" + scope + "]:" + port
  {
    CanonicalIsToDecimal(port);
    CanonicalIsToDecimal(scope);
    if e.address.version == IPv6 {
      assert e.address.bytes[..16] == e.address.bytes;
      var ip := t.show(e.address.bytes);
      assert ip + "" == ip;
      assert "[" + (ip + ("%" + scope)) + "]:" + port == "[" + ip + "%" + scope + "]:" + port;
    }
  }

  /** Every constructible endpoint is what parsing its text gives. */
  lemma TextRoundTrip(t: Text6, e: Endpoint)
    requires Lawful(t) && ConstructibleEndpoint(e)
    ensures ParseEndpoint(t, EndpointString(t, e)) == Some(e)
  {
    var ip, port := AddressText(t, e.address), ToDecimal(e.port);
    ParsePrintedAddress(t, e.address);
    ToDecimalValue(e.port);
    if e.address.version == IPv4 {
      PlainAccepted(t, EndpointString(t, e), e, ip, port);
    } else if e.scopeId == 0 {
      assert ip + "" == ip;
      BracketedAccepted(t, EndpointString(t, e), e, ip, port);
    } else {
      ToDecimalValue(e.scopeId);
      var scope := ToDecimal(e.scopeId);
      assert ip + ("%" + scope) == ip + "%" + scope;
      ScopedAccepted(t, EndpointString(t, e), e, ip, scope, port);
    }
  }

  /** Parsing gives constructible endpoints only, so printing what was accepted,
      leading zeros, a zero scope and all, and parsing again changes nothing. */
  lemma AcceptedRoundTrip(t: Text6, s: string)
    requires Lawful(t) && ParseEndpoint(t, s).Some?
    ensures ConstructibleEndpoint(ParseEndpoint(t, s).value)
    ensures ParseEndpoint(t, EndpointString(t, ParseEndpoint(t, s).value)) == ParseEndpoint(t, s)
  {
    TextRoundTrip(t, ParseEndpoint(t, s).value);
  }
}
