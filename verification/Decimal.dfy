/** Integers as decimal text, the form every counter and integer field is stored in. */
module Decimal {
  import opened Prelude

  function DigitChar(d: int): char
    requires 0 <= d < 10
  {
    '0' + d as char
  }

  predicate IsDigit(c: char) {
    '0' <= c <= '9'
  }

  function DigitValue(c: char): int
    requires IsDigit(c)
  {
    (c - '0') as int
  }

  function PrintNat(n: nat): string {
    if n < 10 then [DigitChar(n)] else PrintNat(n / 10) + [DigitChar(n % 10)]
  }

  function Print(n: int): string {
    if n < 0 then "-" + PrintNat(-n) else PrintNat(n)
  }

  function ParseNat(s: string): (r: Option<int>)
    ensures r.Some? ==> r.value >= 0
    decreases |s|
  {
    if s == [] || !IsDigit(s[|s| - 1]) then None
    else if |s| == 1 then Some(DigitValue(s[0]))
    else
      var front := ParseNat(s[..|s| - 1]);
      if front.None? then None else Some(10 * front.value + DigitValue(s[|s| - 1]))
  }

  /** The integer a text denotes, if it is an optional minus sign and digits. */
  function Parse(s: string): Option<int> {
    if s != [] && s[0] == '-' then
      match ParseNat(s[1..])
      case None => None
      case Some(n) => Some(-n)
    else ParseNat(s)
  }

  lemma {:induction false} NatRoundTrip(n: nat)
    ensures ParseNat(PrintNat(n)) == Some(n)
    ensures IsDigit(PrintNat(n)[0])
  {
    if n >= 10 {
      NatRoundTrip(n / 10);
      var s := PrintNat(n);
      assert s[..|s| - 1] == PrintNat(n / 10);
    }
  }

  lemma RoundTrip(n: int)
    ensures Parse(Print(n)) == Some(n)
  {
    if n < 0 {
      NegativeRoundTrip(n);
    } else {
      NatRoundTrip(n);
    }
  }

  lemma NegativeRoundTrip(n: int)
    requires n < 0
    ensures Parse("-" + PrintNat(-n)) == Some(n)
  {
    NatRoundTrip(-n);
    assert ("-" + PrintNat(-n))[1..] == PrintNat(-n);
  }

  /** One more digit: ten times the number and the digit's value, written behind. */
  lemma DigitsRule(n: nat, d: nat)
    requires d < 10
    ensures Print(d) == ["0123456789"[d]]
    ensures n > 0 ==> Print(10 * n + d) == Print(n) + ["0123456789"[d]] && Print(0 - n) == "-" + Print(n)
  {
    assert forall k :: 0 <= k < 10 ==> "0123456789"[k] == DigitChar(k);
  }

  ghost predicate AllDigits(s: string) {
    s != [] && forall i :: 0 <= i < |s| ==> s[i] in "0123456789"
  }

  /** Exactly the texts of digits with an optional minus denote an integer. */
  lemma ParsesDigits(s: string)
    ensures Parse(s).Some? <==> AllDigits(s) || (s != [] && s[0] == '-' && AllDigits(s[1..]))
  {
    NatParsesDigits(s);
    if s != [] {
      NatParsesDigits(s[1..]);
    }
  }

  lemma {:induction false} NatParsesDigits(s: string)
    ensures ParseNat(s).Some? <==> AllDigits(s)
    decreases |s|
  {
    if s != [] {
      var front, last := s[..|s| - 1], s[|s| - 1];
      assert IsDigit(last) <==> last in "0123456789";
      assert s == front + [last];
      if front != [] {
        NatParsesDigits(front);
      }
    }
  }

  /** The text of some integer. */
  type DecimalText = s: string | Parse(s).Some? witness "0"

  function Encode(n: int): (t: DecimalText)
    ensures Parse(t) == Some(n)
  {
    RoundTrip(n);
    Print(n)
  }
}
