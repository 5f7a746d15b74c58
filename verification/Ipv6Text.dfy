/** IPv6 addresses as text: the forms of section 2.2 of RFC 4291, printed and
    read as the C library's `inet_ntop` and `inet_pton` do. It shows that what
    module EndpointText asks of the C library can be had. */
module Ipv6Text {
  import opened Common
  import opened Addresses
  import opened Decimal
  import D = DottedDecimal
  import opened EndpointText

  predicate IsHex(c: char) {
    '0' <= c <= '9' || 'a' <= c <= 'f' || 'A' <= c <= 'F'
  }

  function HexValue(c: char): (v: nat)
    requires IsHex(c)
    ensures v < 16
  {
    if c <= '9' then c as int - '0' as int
    else if c <= 'F' then c as int - 'A' as int + 10
    else c as int - 'a' as int + 10
  }

  function HexChar(d: nat): (c: char)
    requires d < 16
    ensures IsHex(c) && HexValue(c) == d
  {
    if d < 10 then ('0' as int + d) as char else ('a' as int + d - 10) as char
  }

  predicate AllHex(s: string) {
    forall c <- s :: IsHex(c)
  }

  function HexNumber(s: string): nat
    requires AllHex(s)
  {
    if s == [] then 0 else 16 * HexNumber(s[..|s| - 1]) + HexValue(s[|s| - 1])
  }

  function ToHex(n: nat): (s: string)
    ensures s != [] && AllHex(s)
  {
    if n < 16 then [HexChar(n)] else ToHex(n / 16) + [HexChar(n % 16)]
  }

  lemma {:induction false} ToHexNumber(n: nat)
    ensures HexNumber(ToHex(n)) == n
  {
    var s := ToHex(n);
    if n < 16 {
      assert s[..0] == [];
    } else {
      ToHexNumber(n / 16);
      assert s[..|s| - 1] == ToHex(n / 16);
    }
  }

  /** One group: one to four hexadecimal digits, two bytes. */
  function ParseGroup(s: string): (r: Option<seq<byte>>)
    ensures r.Some? ==> |r.value| == 2
  {
    if 1 <= |s| <= 4 && AllHex(s) then
      GroupBounded(s);
      Some([HexNumber(s) / 256, HexNumber(s) % 256])
    else None
  }

  lemma GroupBounded(s: string)
    requires |s| <= 4 && AllHex(s)
    ensures HexNumber(s) < 0x1_0000
  {
    if |s| > 0 {
      var a := s[..|s| - 1];
      if |a| > 0 {
        var b := a[..|a| - 1];
        if |b| > 0 {
          var c := b[..|b| - 1];
          assert |c| > 0 ==> c[..|c| - 1] == [];
        }
      }
    }
  }

  /** Groups with colons between them; the last may be a dotted IPv4 address. */
  function ParseGroups(s: string): Option<seq<byte>>
    decreases |s|
  {
    var colon := Find(s, ':');
    if colon == |s| then if '.' in s then D.ParseBytes(s, 4) else ParseGroup(s)
    else
      match (ParseGroup(s[..colon]), ParseGroups(s[colon + 1..]))
      case (Some(group), Some(rest)) => Some(group + rest)
      case _ => None
  }

  /** Where the first two adjacent colons are, or the length. */
  function FindDouble(s: string): (i: nat)
    ensures i <= |s|
  {
    if s == [] then 0
    else if |s| >= 2 && s[0] == ':' && s[1] == ':' then 0
    else 1 + FindDouble(s[1..])
  }

  function Side(s: string): Option<seq<byte>> {
    if s == [] then Some([]) else ParseGroups(s)
  }

  /** `inet_pton(AF_INET6, ...)`: two colons stand for at least one zero group. */
  function Read(s: string): (r: Option<seq<byte>>)
    ensures r.Some? ==> |r.value| == IPV6_BYTE_COUNT
  {
    var double := FindDouble(s);
    if double + 1 >= |s| then
      match ParseGroups(s)
      case Some(bytes) => if |bytes| == IPV6_BYTE_COUNT then Some(bytes) else None
      case None => None
    else if '.' in s[..double] then None
    else
      match (Side(s[..double]), Side(s[double + 2..]))
      case (Some(left), Some(right)) =>
        if |left| + |right| <= IPV6_BYTE_COUNT - 2
        then Some(left + Zeros(IPV6_BYTE_COUNT - |left| - |right|) + right)
        else None
      case _ => None
  }

  function Group(bytes: seq<byte>): nat
    requires |bytes| >= 2
  {
    256 * (bytes[0] as int) + bytes[1] as int
  }

  function JoinGroups(bytes: seq<byte>): string
    requires |bytes| % 2 == 0
  {
    if bytes == [] then ""
    else if |bytes| == 2 then ToHex(Group(bytes))
    else ToHex(Group(bytes)) + [':'] + JoinGroups(bytes[2..])
  }

  /** How many zero groups follow from group i on. */
  function ZeroRun(bytes: seq<byte>, i: nat): (n: nat)
    requires |bytes| == IPV6_BYTE_COUNT && i <= 8
    ensures i + n <= 8 && forall k | 2 * i <= k < 2 * (i + n) :: bytes[k] == 0
    decreases 8 - i
  {
    if i < 8 && bytes[2 * i] == 0 && bytes[2 * i + 1] == 0 then 1 + ZeroRun(bytes, i + 1) else 0
  }

  /** The first of the longest zero runs among those that begin at group i or
      later, and the one found so far. */
  function BestRun(bytes: seq<byte>, i: nat, base: nat): (best: nat)
    requires |bytes| == IPV6_BYTE_COUNT && i <= 8 && base <= 8
    ensures best <= 8 && ZeroRun(bytes, best) >= ZeroRun(bytes, base)
    ensures forall j | i <= j <= 8 :: ZeroRun(bytes, j) <= ZeroRun(bytes, best)
    decreases 8 - i
  {
    if i == 8 then base
    else BestRun(bytes, i + 1, if ZeroRun(bytes, i) > ZeroRun(bytes, base) then i else base)
  }

  /** Two colons stand for the n zero groups from group base on. */
  function Compress(bytes: seq<byte>, base: nat, n: nat): string
    requires |bytes| == IPV6_BYTE_COUNT && base + n <= 8
  {
    var left, right := bytes[..2 * base], bytes[2 * (base + n)..];
    JoinGroups(left) + "::" + JoinGroups(right)
  }

  function Mapped(bytes: seq<byte>): string
    requires |bytes| == 4
  {
    ToHex(0xFFFF) + [':'] + D.PrintBytes(bytes)
  }

  /** `inet_ntop(AF_INET6, ...)`: the longest run of two or more zero groups is
      compressed; IPv4-compatible and IPv4-mapped addresses end in dotted form. */
  function Show(bytes: seq<byte>): string {
    if |bytes| != IPV6_BYTE_COUNT then ""
    else
      var base := BestRun(bytes, 0, 0);
      var n := ZeroRun(bytes, base);
      if n < 2 then JoinGroups(bytes)
      else if base == 0 && n == 6 then "::" + D.PrintBytes(bytes[12..])
      else if base == 0 && n == 5 && bytes[10] == 255 && bytes[11] == 255 then "::" + Mapped(bytes[12..])
      else Compress(bytes, base, n)
  }

  const C_LIBRARY: Text6 := Text6(bytes => Show(bytes), s => Read(s))

  // --- Reading what was printed ------------------------------------------------

  /** At most k digits for a number below sixteen to the k. */
  lemma {:induction false} ToHexLength(n: nat, k: nat)
    requires k > 0 && n < Power16(k)
    ensures |ToHex(n)| <= k
  {
    if n >= 16 {
      ToHexLength(n / 16, k - 1);
    }
  }

  function Power16(k: nat): nat {
    if k == 0 then 1 else 16 * Power16(k - 1)
  }

  lemma GroupLength(bytes: seq<byte>)
    requires |bytes| >= 2
    ensures |ToHex(Group(bytes))| <= 4
  {
    ToHexLength(Group(bytes), 4);
  }

  lemma GroupRead(bytes: seq<byte>)
    requires |bytes| >= 2
    ensures ParseGroup(ToHex(Group(bytes))) == Some(bytes[..2])
  {
    ToHexNumber(Group(bytes));
    GroupLength(bytes);
    assert bytes[..2] == [bytes[0], bytes[1]];
  }

  /** A text of groups: hexadecimal digits and single colons between them. */
  ghost predicate Grouped(s: string) {
    && s != [] && IsHex(s[0]) && IsHex(s[|s| - 1])
    && (forall c <- s :: IsHex(c) || c == ':')
    && forall i | 0 <= i < |s| - 1 :: s[i] == ':' ==> s[i + 1] != ':'
  }

  lemma {:induction false} JoinedIsGrouped(bytes: seq<byte>)
    requires |bytes| % 2 == 0 && bytes != []
    ensures Grouped(JoinGroups(bytes)) && |JoinGroups(bytes)| < 5 * |bytes| / 2
  {
    var first := ToHex(Group(bytes));
    GroupLength(bytes);
    assert forall i | 0 <= i < |first| :: first[i] in first;
    if |bytes| > 2 {
      JoinedIsGrouped(bytes[2..]);
      GroupedInFront(first, JoinGroups(bytes[2..]));
    }
  }

  lemma GroupedInFront(first: string, rest: string)
    requires first != [] && AllHex(first) && Grouped(rest)
    ensures Grouped(first + [':'] + rest)
  {
    var s := first + [':'] + rest;
    assert first[0] in first;
    forall i | 0 <= i < |s| - 1
      ensures s[i] == ':' ==> s[i + 1] != ':'
    {
      if i < |first| {
        assert s[i] == first[i] && first[i] in first;
      } else if i == |first| {
        assert s[i + 1] == rest[0];
      } else {
        var j := i - |first| - 1;
        assert s[i] == rest[j] && s[i + 1] == rest[j + 1];
      }
    }
  }

  /** A group in front of what is already read. */
  lemma GroupInFront(bytes: seq<byte>, s: string, rest: seq<byte>)
    requires |bytes| >= 2 && ParseGroups(s) == Some(rest)
    ensures ParseGroups(ToHex(Group(bytes)) + [':'] + s) == Some(bytes[..2] + rest)
  {
    var first := ToHex(Group(bytes));
    GroupRead(bytes);
    FindSplit(first, ':', s);
    var all := first + [':'] + s;
    assert all[..|first|] == first && all[|first| + 1..] == s;
  }

  lemma NotIn(s: string, c: char)
    ensures Find(s, c) == |s| || c in s
  {
  }

  lemma {:induction false} JoinedRead(bytes: seq<byte>)
    requires |bytes| % 2 == 0 && bytes != []
    ensures ParseGroups(JoinGroups(bytes)) == Some(bytes)
  {
    if |bytes| == 2 {
      GroupRead(bytes);
      var s := ToHex(Group(bytes));
      NotIn(s, ':');
      assert '.' !in s;
      assert bytes[..2] == bytes;
    } else {
      JoinedRead(bytes[2..]);
      GroupInFront(bytes, JoinGroups(bytes[2..]), bytes[2..]);
      assert bytes == bytes[..2] + bytes[2..];
    }
  }

  lemma {:induction false} NoDouble(s: string)
    requires forall i | 0 <= i < |s| - 1 :: s[i] == ':' ==> s[i + 1] != ':'
    ensures FindDouble(s) == |s|
  {
    if s != [] {
      NoDouble(s[1..]);
    }
  }

  lemma {:induction false} DoubleFound(a: string, b: string)
    requires forall i | 0 <= i < |a| - 1 :: a[i] == ':' ==> a[i + 1] != ':'
    requires a != [] ==> a[|a| - 1] != ':'
    ensures FindDouble(a + "::" + b) == |a|
  {
    if a != [] {
      assert (a + "::" + b)[1..] == a[1..] + "::" + b;
      DoubleFound(a[1..], b);
    } else {
      assert a + "::" + b == "::" + b;
    }
  }

  /** Two printed sides with two colons between them are read as they are. */
  lemma SidesRead(left: seq<byte>, leftText: string, right: seq<byte>, rightText: string)
    requires leftText == [] || Grouped(leftText)
    requires Side(leftText) == Some(left) && Side(rightText) == Some(right)
    requires |left| + |right| <= IPV6_BYTE_COUNT - 2
    ensures Read(leftText + "::" + rightText) ==
            Some(left + Zeros(IPV6_BYTE_COUNT - |left| - |right|) + right)
  {
    var s := leftText + "::" + rightText;
    DoubleFound(leftText, rightText);
    assert s[..|leftText|] == leftText && s[|leftText| + 2..] == rightText;
  }

  lemma JoinedSide(bytes: seq<byte>)
    requires |bytes| % 2 == 0
    ensures Side(JoinGroups(bytes)) == Some(bytes)
    ensures JoinGroups(bytes) == [] || Grouped(JoinGroups(bytes))
  {
    if bytes != [] {
      JoinedIsGrouped(bytes);
      JoinedRead(bytes);
    }
  }

  lemma DottedSide(bytes: seq<byte>)
    requires |bytes| == 4
    ensures ParseGroups(D.PrintBytes(bytes)) == Some(bytes)
  {
    var s := D.PrintBytes(bytes);
    D.PrintedChars(bytes);
    D.ParsePrintedBytes(bytes);
    NotIn(s, ':');
    assert s == ToDecimal(bytes[0]) + ['.'] + D.PrintBytes(bytes[1..]);
    assert s[|ToDecimal(bytes[0])|] == '.';
  }

  lemma UncompressedRead(bytes: seq<byte>)
    requires |bytes| == IPV6_BYTE_COUNT
    ensures Read(JoinGroups(bytes)) == Some(bytes) && PlainText6(JoinGroups(bytes))
  {
    JoinedIsGrouped(bytes);
    JoinedRead(bytes);
    var s, first := JoinGroups(bytes), ToHex(Group(bytes));
    NoDouble(s);
    assert s[|first|] == ':';
    ShortIsPlain(s);
  }

  /** Hexadecimal digits, colons and dots, at least one colon, and short enough. */
  lemma ShortIsPlain(s: string)
    requires |s| < INET6_ADDRSTRLEN && ':' in s
    requires forall c <- s :: IsHex(c) || c == ':' || c == '.'
    ensures PlainText6(s)
  {
  }

  lemma SidesArePlain(leftText: string, rightText: string)
    requires forall c <- leftText :: IsHex(c) || c == ':'
    requires forall c <- rightText :: IsHex(c) || c == ':' || c == '.'
    requires |leftText| + |rightText| <= 40
    ensures PlainText6(leftText + "::" + rightText)
  {
    assert (leftText + "::" + rightText)[|leftText|] == ':';
    ShortIsPlain(leftText + "::" + rightText);
  }

  lemma JoinedChars(bytes: seq<byte>)
    requires |bytes| % 2 == 0
    ensures |JoinGroups(bytes)| <= 5 * |bytes| / 2
    ensures forall c <- JoinGroups(bytes) :: IsHex(c) || c == ':'
  {
    if bytes != [] {
      JoinedIsGrouped(bytes);
    }
  }

  lemma CompressedRead(bytes: seq<byte>, left: seq<byte>, n: nat, right: seq<byte>)
    requires |left| % 2 == 0 && |right| % 2 == 0 && |left| + n + |right| == IPV6_BYTE_COUNT && n >= 2
    requires bytes == left + Zeros(n) + right
    ensures Read(JoinGroups(left) + "::" + JoinGroups(right)) == Some(bytes)
  {
    JoinedSide(left);
    JoinedSide(right);
    SidesRead(left, JoinGroups(left), right, JoinGroups(right));
  }

  lemma CompressedShown(bytes: seq<byte>, base: nat, n: nat)
    requires |bytes| == IPV6_BYTE_COUNT && base <= 8 && n == ZeroRun(bytes, base) && n >= 1
    ensures Read(Compress(bytes, base, n)) == Some(bytes) && PlainText6(Compress(bytes, base, n))
  {
    var left, right := bytes[..2 * base], bytes[2 * (base + n)..];
    assert |left| == 2 * base && |right| == 2 * (8 - base - n);
    SplitAtRun(bytes, base, n);
    CompressedRead(bytes, left, 2 * n, right);
    JoinedChars(left);
    JoinedChars(right);
    SidesArePlain(JoinGroups(left), JoinGroups(right));
  }

  lemma DottedShown(last: seq<byte>)
    requires |last| == 4
    ensures Read("::" + D.PrintBytes(last)) == Some(Zeros(12) + last)
    ensures PlainText6("::" + D.PrintBytes(last))
  {
    DottedSide(last);
    D.PrintedChars(last);
    SuffixIsPlain(D.PrintBytes(last));
    AfterZeros(last, D.PrintBytes(last));
  }

  lemma MappedShown(last: seq<byte>)
    requires |last| == 4
    ensures Read("::" + Mapped(last)) == Some(Zeros(10) + ([255, 255] + last))
    ensures PlainText6("::" + Mapped(last))
  {
    MappedSide(last);
    D.PrintedChars(last);
    ToHexLength(0xFFFF, 4);
    SuffixIsPlain(Mapped(last));
    AfterZeros([255, 255] + last, Mapped(last));
  }

  lemma AfterZeros(right: seq<byte>, rightText: string)
    requires Side(rightText) == Some(right) && |right| <= IPV6_BYTE_COUNT - 2
    ensures Read("::" + rightText) == Some(Zeros(IPV6_BYTE_COUNT - |right|) + right)
  {
    SidesRead([], "", right, rightText);
    NothingInFront(rightText);
    var zeros := Zeros(IPV6_BYTE_COUNT - |right|);
    assert [] + zeros == zeros;
  }

  lemma NothingInFront(text: string)
    ensures "" + "::" + text == "::" + text
  {
  }

  lemma SuffixIsPlain(text: string)
    requires forall c <- text :: IsHex(c) || c == ':' || c == '.'
    requires |text| <= 40
    ensures PlainText6("::" + text)
  {
    SidesArePlain("", text);
    NothingInFront(text);
  }

  lemma MappedSide(last: seq<byte>)
    requires |last| == 4
    ensures ParseGroups(Mapped(last)) == Some([255, 255] + last)
  {
    DottedSide(last);
    GroupInFront([255, 255], D.PrintBytes(last), last);
    assert [255, 255][..2] == [255, 255];
    assert Group([255, 255]) == 0xFFFF;
  }

  lemma SplitAtRun(bytes: seq<byte>, base: nat, n: nat)
    requires |bytes| == IPV6_BYTE_COUNT && base <= 8 && n == ZeroRun(bytes, base)
    ensures bytes == bytes[..2 * base] + Zeros(2 * n) + bytes[2 * (base + n)..]
    ensures base == 0 ==> bytes == Zeros(2 * n) + bytes[2 * n..]
  {
    Cut(bytes, 2 * base, 2 * (base + n));
    assert bytes[2 * base..2 * (base + n)] == Zeros(2 * n);
  }

  lemma Cut(bytes: seq<byte>, i: nat, j: nat)
    requires i <= j <= |bytes|
    ensures bytes == bytes[..i] + bytes[i..j] + bytes[j..]
    ensures i == 0 ==> bytes == bytes[i..j] + bytes[j..]
  {
  }

  lemma SplitMapped(bytes: seq<byte>)
    requires |bytes| == IPV6_BYTE_COUNT && bytes[10] == 255 && bytes[11] == 255
    ensures bytes[10..] == [255, 255] + bytes[12..]
  {
  }

  /** Reading takes back printing, for every address; what is printed has only
      digits, colons and dots, at least one colon, and fits the buffer. */
  lemma ReadShown(bytes: seq<byte>)
    requires |bytes| == IPV6_BYTE_COUNT
    ensures Read(Show(bytes)) == Some(bytes)
    ensures PlainText6(Show(bytes))
  {
    var base := BestRun(bytes, 0, 0);
    var n := ZeroRun(bytes, base);
    if n < 2 {
      UncompressedRead(bytes);
    } else if base == 0 && n == 6 {
      SplitAtRun(bytes, base, n);
      DottedShown(bytes[12..]);
    } else if base == 0 && n == 5 && bytes[10] == 255 && bytes[11] == 255 {
      SplitAtRun(bytes, base, n);
      SplitMapped(bytes);
      MappedShown(bytes[12..]);
    } else {
      CompressedShown(bytes, base, n);
    }
  }

  /** The hypotheses of the endpoint round trips hold of these two functions. */
  lemma CLibraryLawful()
    ensures Lawful(C_LIBRARY)
  {
    forall b: seq<byte> | |b| == IPV6_BYTE_COUNT
      ensures C_LIBRARY.read(C_LIBRARY.show(b)) == Some(b) && PlainText6(C_LIBRARY.show(b))
    {
      ReadShown(b);
    }
  }

  /** So the endpoint text round trip holds without hypotheses. */
  lemma EndpointRoundTrip(e: Endpoint)
    requires ConstructibleEndpoint(e)
    ensures ParseEndpoint(C_LIBRARY, EndpointString(C_LIBRARY, e)) == Some(e)
  {
    CLibraryLawful();
    TextRoundTrip(C_LIBRARY, e);
  }
}
