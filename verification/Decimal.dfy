/** Decimal numbers as text: `std::to_string` and `std::from_chars` for
    unsigned types, and searching in strings. */
module Decimal {
  import opened Common

  predicate IsDigit(c: char) {
    '0' <= c <= '9'
  }

  function DigitValue(c: char): nat
    requires IsDigit(c)
  {
    c as int - '0' as int
  }

  function DigitChar(d: nat): (c: char)
    requires d < 10
    ensures IsDigit(c) && DigitValue(c) == d
  {
    ('0' as int + d) as char
  }

  predicate AllDigits(s: string) {
    forall c <- s :: IsDigit(c)
  }

  function Value(s: string): nat
    requires AllDigits(s)
  {
    if s == [] then 0 else 10 * Value(s[..|s| - 1]) + DigitValue(s[|s| - 1])
  }

  function ToDecimal(n: nat): (s: string)
    ensures s != [] && AllDigits(s)
  {
    if n < 10 then [DigitChar(n)] else ToDecimal(n / 10) + [DigitChar(n % 10)]
  }

  lemma {:induction false} ToDecimalValue(n: nat)
    ensures Value(ToDecimal(n)) == n
  {
    var s := ToDecimal(n);
    if n < 10 {
      assert s[..0] == [];
    } else {
      ToDecimalValue(n / 10);
      assert s[..|s| - 1] == ToDecimal(n / 10);
    }
  }

  /** At most k digits for a number below ten to the k. */
  lemma {:induction false} ToDecimalLength(n: nat, k: nat)
    requires k > 0 && n < Power10(k)
    ensures |ToDecimal(n)| <= k
  {
    if n >= 10 {
      ToDecimalLength(n / 10, k - 1);
    }
  }

  function Power10(k: nat): nat {
    if k == 0 then 1 else 10 * Power10(k - 1)
  }

  /** Without superfluous leading zeros. */
  predicate Canonical(s: string) {
    s != [] && AllDigits(s) && (s[0] == '0' ==> |s| == 1)
  }

  lemma {:induction false} ToDecimalCanonical(n: nat)
    ensures Canonical(ToDecimal(n)) && (ToDecimal(n)[0] == '0' ==> n == 0)
  {
    if n >= 10 {
      ToDecimalCanonical(n / 10);
    }
  }

  lemma CharOfDigit(c: char)
    requires IsDigit(c)
    ensures DigitChar(DigitValue(c)) == c
  {
  }

  /** A number has one canonical spelling. */
  lemma {:induction false} CanonicalIsToDecimal(s: string)
    requires Canonical(s)
    ensures ToDecimal(Value(s)) == s
  {
    var front, last := s[..|s| - 1], s[|s| - 1];
    assert last in s && IsDigit(last);
    CharOfDigit(last);
    if |s| == 1 {
      assert front == [] && s == [last];
      assert Value(s) == DigitValue(last);
    } else {
      CanonicalIsToDecimal(front);
      assert s == front + [last];
      ToDecimalCanonical(Value(front));
      assert Value(front) > 0;
      assert Value(s) == 10 * Value(front) + DigitValue(last);
    }
  }

  lemma ValueSnoc(s: string, c: char)
    requires AllDigits(s) && IsDigit(c)
    ensures AllDigits(s + [c]) && Value(s + [c]) == 10 * Value(s) + DigitValue(c)
  {
    assert (s + [c])[..|s|] == s;
  }

  /** In front of n more digits a number counts ten to the n as much. */
  lemma {:induction false} ValueIsPositional(a: string, b: string)
    requires AllDigits(a) && AllDigits(b)
    ensures AllDigits(a + b) && Value(a + b) == Value(a) * Power10(|b|) + Value(b)
    decreases |b|
  {
    if b == [] {
      assert a + b == a;
    } else {
      var front, last := b[..|b| - 1], b[|b| - 1];
      assert last in b && forall c <- front :: c in b;
      ValueIsPositional(a, front);
      ValueSnoc(a + front, last);
      ValueSnoc(front, last);
      assert b == front + [last] && a + b == (a + front) + [last];
      TenTimes(Value(a), Power10(|front|));
    }
  }

  lemma TenTimes(v: nat, p: nat)
    ensures v * (10 * p) == 10 * (v * p)
  {
  }

  /** The ten digits in their order. */
  lemma ValueOfDigit(k: nat)
    requires k < 10
    ensures AllDigits(["0123456789"[k]]) && Value(["0123456789"[k]]) == k
  {
    assert ["0123456789"[k]][..0] == [];
  }

  /** The length of the longest prefix of digits. */
  function DigitsPrefix(s: string): (n: nat)
    ensures n <= |s| && AllDigits(s[..n]) && (n < |s| ==> !IsDigit(s[n]))
  {
    if s == [] || !IsDigit(s[0]) then 0
    else
      var n := 1 + DigitsPrefix(s[1..]);
      assert s[..n] == [s[0]] + s[1..][..n - 1];
      n
  }

  datatype CharsError = NoError | InvalidArgument | OutOfRange

  /** `from_chars` for an unsigned type with the given largest value: how many
      characters it consumed, the error, and the value if there was none. */
  function FromChars(s: string, max: nat): (nat, CharsError, nat) {
    var n := DigitsPrefix(s);
    if n == 0 then (0, InvalidArgument, 0)
    else if Value(s[..n]) > max then (n, OutOfRange, 0)
    else (n, NoError, Value(s[..n]))
  }

  /** The use the endpoint parser makes of it: no error and nothing left over. */
  function ParseWhole(s: string, max: nat): Option<nat> {
    var (consumed, error, value) := FromChars(s, max);
    if error != NoError || consumed != |s| then None else Some(value)
  }

  /** Accepted are digits, at least one, whose value is in range: no sign, no
      space, any number of leading zeros. */
  lemma ParseWholeExactly(s: string, max: nat)
    ensures ParseWhole(s, max).Some? <==> s != [] && AllDigits(s) && Value(s) <= max
    ensures ParseWhole(s, max).Some? ==> ParseWhole(s, max).value == Value(s)
  {
    var n := DigitsPrefix(s);
    if n < |s| {
      assert s[n] in s;
    } else {
      assert s[..n] == s;
    }
  }

  lemma ParsePrinted(n: nat, max: nat)
    requires n <= max
    ensures ParseWhole(ToDecimal(n), max) == Some(n)
  {
    ToDecimalValue(n);
    ParseWholeExactly(ToDecimal(n), max);
  }

  /** The first index of `c`, or the length. */
  function Find(s: string, c: char): (i: nat)
    ensures i <= |s| && c !in s[..i] && (i < |s| ==> s[i] == c)
  {
    if s == [] || s[0] == c then 0
    else
      var i := 1 + Find(s[1..], c);
      assert s[..i] == [s[0]] + s[1..][..i - 1];
      i
  }

  /** The last index of `c`, or the length. */
  function FindLast(s: string, c: char): (i: nat)
    ensures i <= |s| && (i < |s| ==> s[i] == c && c !in s[i + 1..]) && (i == |s| ==> c !in s)
  {
    if s == [] then 0
    else if s[|s| - 1] == c then |s| - 1
    else
      var i := FindLast(s[..|s| - 1], c);
      assert s == s[..|s| - 1] + [s[|s| - 1]];
      if i == |s| - 1 then |s| else
      assert s[i + 1..] == s[..|s| - 1][i + 1..] + [s[|s| - 1]];
      i
  }

  lemma FindSplit(a: string, c: char, b: string)
    requires c !in a
    ensures Find(a + [c] + b, c) == |a|
  {
    assert (a + [c] + b)[|a|] == c;
  }

  lemma {:induction false} FindLastSplit(a: string, c: char, b: string)
    requires c !in b
    ensures FindLast(a + [c] + b, c) == |a|
  {
    if b != [] {
      var s, front := a + [c] + b, b[..|b| - 1];
      assert s[..|s| - 1] == a + [c] + front && b[|b| - 1] in b;
      FindLastSplit(a, c, front);
    }
  }
}
