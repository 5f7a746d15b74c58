/** IPv4 addresses as text: what `inet_ntop` prints and `inet_pton` accepts for
    AF_INET. */
module DottedDecimal {
  import opened Common
  import opened Decimal

  function PrintBytes(bytes: seq<byte>): string
    requires bytes != []
  {
    if |bytes| == 1 then ToDecimal(bytes[0]) else ToDecimal(bytes[0]) + ['.'] + PrintBytes(bytes[1..])
  }

  /** The text of an IPv4 address: its four numbers, dots in between. */
  lemma PrintedExactly(bytes: seq<byte>, texts: seq<string>)
    requires |bytes| == 4 == |texts|
    requires forall i | 0 <= i < 4 :: Canonical(texts[i]) && Value(texts[i]) == bytes[i]
    ensures PrintBytes(bytes) == texts[0] + "." + texts[1] + "." + texts[2] + "." + texts[3]
  {
    forall i | 0 <= i < 4
      ensures ToDecimal(bytes[i]) == texts[i]
    {
      CanonicalIsToDecimal(texts[i]);
    }
    PrintedPieces(bytes);
  }

  lemma PrintedPieces(bytes: seq<byte>)
    requires |bytes| == 4
    ensures PrintBytes(bytes) ==
            ToDecimal(bytes[0]) + "." + ToDecimal(bytes[1]) + "." + ToDecimal(bytes[2]) + "." + ToDecimal(bytes[3])
  {
    var one, two, three := bytes[1..], bytes[2..], bytes[3..];
    assert one[1..] == two && two[1..] == three && |three| == 1;
    assert PrintBytes(three) == ToDecimal(bytes[3]);
    assert PrintBytes(two) == ToDecimal(bytes[2]) + "." + PrintBytes(three);
    assert PrintBytes(one) == ToDecimal(bytes[1]) + "." + PrintBytes(two);
    assert PrintBytes(bytes) == ToDecimal(bytes[0]) + "." + PrintBytes(one);
    FourParts(ToDecimal(bytes[0]), ToDecimal(bytes[1]), ToDecimal(bytes[2]), ToDecimal(bytes[3]));
  }

  lemma FourParts(a: string, b: string, c: string, d: string)
    ensures a + "." + (b + "." + (c + "." + d)) == a + "." + b + "." + c + "." + d
  {
    assert b + "." + (c + "." + d) == b + "." + c + "." + d;
  }

  /** A number up to 255 without superfluous zeros. */
  function ParseOctet(s: string): Option<byte> {
    if Canonical(s) && Value(s) <= 255 then Some(Value(s)) else None
  }

  /** Exactly `count` octets with dots between them. */
  function ParseBytes(s: string, count: nat): (r: Option<seq<byte>>)
    requires count > 0
    ensures r.Some? ==> |r.value| == count
    decreases count
  {
    var dot := Find(s, '.');
    if count == 1 then
      match ParseOctet(s)
      case Some(octet) => Some([octet])
      case None => None
    else if dot == |s| then None
    else
      match (ParseOctet(s[..dot]), ParseBytes(s[dot + 1..], count - 1))
      case (Some(octet), Some(rest)) => Some([octet] + rest)
      case _ => None
  }

  lemma PrintedOctet(n: byte)
    ensures ParseOctet(ToDecimal(n)) == Some(n) && '.' !in ToDecimal(n)
    ensures |ToDecimal(n)| <= 3
  {
    ToDecimalCanonical(n);
    ToDecimalValue(n);
    ToDecimalLength(n, 3);
  }

  lemma ParseJoined(s: string, first: string, rest: string, bytes: seq<byte>)
    requires |bytes| > 1 && '.' !in first && s == first + ['.'] + rest
    requires ParseOctet(first) == Some(bytes[0]) && ParseBytes(rest, |bytes| - 1) == Some(bytes[1..])
    ensures ParseBytes(s, |bytes|) == Some(bytes)
  {
    JoinedSplit(s, first, rest);
    HeadAndTail(bytes);
  }

  lemma JoinedSplit(s: string, first: string, rest: string)
    requires '.' !in first && s == first + ['.'] + rest
    ensures Find(s, '.') == |first| < |s| && s[..|first|] == first && s[|first| + 1..] == rest
  {
    FindSplit(first, '.', rest);
  }

  lemma HeadAndTail(bytes: seq<byte>)
    requires bytes != []
    ensures bytes == [bytes[0]] + bytes[1..]
  {
  }

  lemma {:induction false} ParsePrintedBytes(bytes: seq<byte>)
    requires bytes != []
    ensures ParseBytes(PrintBytes(bytes), |bytes|) == Some(bytes)
  {
    if |bytes| == 1 {
      PrintedOctet(bytes[0]);
      assert bytes == [bytes[0]];
    } else {
      ParsePrintedBytes(bytes[1..]);
      ParsePrintedFirst(bytes);
    }
  }

  lemma ParsePrintedFirst(bytes: seq<byte>)
    requires |bytes| > 1 && ParseBytes(PrintBytes(bytes[1..]), |bytes| - 1) == Some(bytes[1..])
    ensures ParseBytes(PrintBytes(bytes), |bytes|) == Some(bytes)
  {
    PrintedOctet(bytes[0]);
    ParseJoined(PrintBytes(bytes), ToDecimal(bytes[0]), PrintBytes(bytes[1..]), bytes);
  }

  /** There is no other spelling: what is accepted is what would be printed. */
  lemma {:induction false} PrintParsedBytes(s: string, count: nat)
    requires count > 0 && ParseBytes(s, count).Some?
    ensures PrintBytes(ParseBytes(s, count).value) == s
    decreases count
  {
    if count == 1 {
      CanonicalIsToDecimal(s);
    } else {
      ParsedSplit(s, count);
      PrintParsedBytes(s[Find(s, '.') + 1..], count - 1);
    }
  }

  lemma ParsedSplit(s: string, count: nat)
    requires count > 1 && ParseBytes(s, count).Some?
    ensures var dot, bytes := Find(s, '.'), ParseBytes(s, count).value;
            && dot < |s| && s == s[..dot] + ['.'] + s[dot + 1..] && ToDecimal(bytes[0]) == s[..dot]
            && ParseBytes(s[dot + 1..], count - 1) == Some(bytes[1..])
  {
    var dot := Find(s, '.');
    CanonicalIsToDecimal(s[..dot]);
    assert ParseBytes(s, count).value[1..] == ParseBytes(s[dot + 1..], count - 1).value;
  }

  /** Only digits and dots, and not too many. */
  lemma {:induction false} PrintedChars(bytes: seq<byte>)
    requires bytes != []
    ensures forall c <- PrintBytes(bytes) :: IsDigit(c) || c == '.'
    ensures 0 < |PrintBytes(bytes)| < 4 * |bytes|
    ensures IsDigit(PrintBytes(bytes)[0])
  {
    PrintedOctet(bytes[0]);
    if |bytes| > 1 {
      PrintedChars(bytes[1..]);
    }
  }
}
