/** What each escape of a JSON string stands for (RFC 8259, section 7), and which of them JSON.stringify writes. */
module JsonEscapes {
  import opened JsonText
  import opened JsonString

  // ---- Reading ----------------------------------------------------------------------------------

  /** A hexadecimal digit and the number it stands for: a decimal digit, or a letter of either case. */
  predicate IsHexOf(u: Unit, k: nat) {
    (k < 10 && u == 48 + k) || (10 <= k < 16 && (u == 65 + (k - 10) || u == 97 + (k - 10)))
  }

  /** The two-character escapes: the second character, and what it stands for. */
  const SHORT_ESCAPES: seq<(Unit, Unit)> :=
    [(34, 34), (92, 92), (47, 47), (98, 8), (102, 12), (110, 10), (114, 13), (116, 9)]

  /** The unit four hexadecimal digits stand for. */
  function FourDigits(a: nat, b: nat, c: nat, d: nat): Unit
    requires a < 16 && b < 16 && c < 16 && d < 16
  {
    a * 0x1000 + b * 0x100 + c * 0x10 + d
  }

  function HexForm(p: Unit, q: Unit, r: Unit, t: Unit): Text {
    [BACKSLASH, LOWER_U, p, q, r, t]
  }

  lemma HexFormReads(p: Unit, q: Unit, r: Unit, t: Unit, rest: Text)
    requires IsHex(p) && IsHex(q) && IsHex(r) && IsHex(t) && IsStringBody(rest)
    ensures IsStringBody(HexForm(p, q, r, t) + rest)
    ensures Unescape(HexForm(p, q, r, t) + rest)
            == [FourDigits(HexValue(p), HexValue(q), HexValue(r), HexValue(t))] + Unescape(rest)
  {
    HexEscape(p, q, r, t, rest);
  }

  lemma HexStep(p: Unit, q: Unit, r: Unit, t: Unit, a: Text, b: Text)
    requires IsHex(p) && IsHex(q) && IsHex(r) && IsHex(t) && IsStringBody(a) && IsStringBody(b)
    requires IsStringBody(a + b) && Unescape(a + b) == Unescape(a) + Unescape(b)
    ensures IsStringBody(HexForm(p, q, r, t) + a) && IsStringBody(HexForm(p, q, r, t) + (a + b))
    ensures Unescape(HexForm(p, q, r, t) + (a + b)) == Unescape(HexForm(p, q, r, t) + a) + Unescape(b)
  {
    HexFormReads(p, q, r, t, a);
    HexFormReads(p, q, r, t, a + b);
    var u := FourDigits(HexValue(p), HexValue(q), HexValue(r), HexValue(t));
    Assoc([u], Unescape(a), Unescape(b));
  }

  lemma PlainStep(u: Unit, a: Text, b: Text)
    requires IsStringBody(a) && IsStringBody(b) && u != QUOTE && u != BACKSLASH && u >= 32
    requires IsStringBody(a + b) && Unescape(a + b) == Unescape(a) + Unescape(b)
    ensures IsStringBody([u] + a) && IsStringBody([u] + (a + b))
    ensures Unescape([u] + (a + b)) == Unescape([u] + a) + Unescape(b)
  {
    PlainUnit(u, a);
    PlainUnit(u, a + b);
    Assoc([u], Unescape(a), Unescape(b));
  }

  lemma ShortStep(u: Unit, a: Text, b: Text)
    requires IsStringBody(a) && IsStringBody(b) && u in [QUOTE, BACKSLASH, 47, 98, 102, 110, 114, 116]
    requires IsStringBody(a + b) && Unescape(a + b) == Unescape(a) + Unescape(b)
    ensures IsStringBody([BACKSLASH, u] + a) && IsStringBody([BACKSLASH, u] + (a + b))
    ensures Unescape([BACKSLASH, u] + (a + b)) == Unescape([BACKSLASH, u] + a) + Unescape(b)
  {
    ShortEscape(u, a);
    ShortEscape(u, a + b);
    Assoc([Unescaped(u)], Unescape(a), Unescape(b));
  }

  /** How long the first character of a string's body is. */
  function FirstLength(body: Text): (k: nat)
    requires IsStringBody(body) && body != []
    ensures 1 <= k <= |body| && IsStringBody(body[k..])
  {
    if body[0] != BACKSLASH then 1 else if body[1] == LOWER_U then 6 else 2
  }

  lemma Resplit(a: Text, b: Text, k: nat)
    requires k <= |a|
    ensures a == a[..k] + a[k..] && a + b == a[..k] + (a[k..] + b)
  {
  }

  lemma {:induction false} UnescapeAppend(a: Text, b: Text)
    requires IsStringBody(a) && IsStringBody(b)
    ensures IsStringBody(a + b) && Unescape(a + b) == Unescape(a) + Unescape(b)
    decreases |a|
  {
    if a == [] {
      assert a + b == b;
    } else {
      var k := FirstLength(a);
      UnescapeAppend(a[k..], b);
      Resplit(a, b, k);
      FirstStep(a[..k], a[k..], b);
    }
  }

  lemma FirstStep(first: Text, a: Text, b: Text)
    requires first != [] && IsStringBody(first + a) && FirstLength(first + a) == |first|
    requires IsStringBody(a + b) && IsStringBody(a) && IsStringBody(b)
    requires Unescape(a + b) == Unescape(a) + Unescape(b)
    ensures IsStringBody(first + (a + b))
    ensures Unescape(first + (a + b)) == Unescape(first + a) + Unescape(b)
  {
    if first[0] != BACKSLASH {
      PlainStep(first[0], a, b);
    } else if first[1] == LOWER_U {
      HexHead(first, a);
      HexStep(first[2], first[3], first[4], first[5], a, b);
    } else {
      ShortStep(first[1], a, b);
    }
  }

  lemma HexHead(first: Text, a: Text)
    requires |first| == 6 && first[0] == BACKSLASH && first[1] == LOWER_U && IsStringBody(first + a)
    ensures first == HexForm(first[2], first[3], first[4], first[5])
    ensures IsHex(first[2]) && IsHex(first[3]) && IsHex(first[4]) && IsHex(first[5])
  {
    var s := first + a;
    assert s[0] == first[0] && s[1] == first[1] && s[2] == first[2];
    assert s[3] == first[3] && s[4] == first[4] && s[5] == first[5];
  }

  lemma HexDigitIs(u: Unit, k: nat)
    requires IsHexOf(u, k)
    ensures IsHex(u) && HexValue(u) == k
  {
  }

  /** \u and four digits of either case give the unit with that number, wherever the escape stands. */
  lemma HexEscapeRule(before: Text, p: Unit, q: Unit, r: Unit, t: Unit, a: nat, b: nat, c: nat, d: nat, after: Text)
    requires IsStringBody(before) && IsStringBody(after)
    requires IsHexOf(p, a) && IsHexOf(q, b) && IsHexOf(r, c) && IsHexOf(t, d)
    ensures IsStringBody(before + (HexForm(p, q, r, t) + after))
    ensures Unescape(before + (HexForm(p, q, r, t) + after))
            == Unescape(before) + ([FourDigits(a, b, c, d)] + Unescape(after))
  {
    HexDigitIs(p, a);
    HexDigitIs(q, b);
    HexDigitIs(r, c);
    HexDigitIs(t, d);
    HexFormReads(p, q, r, t, after);
    UnescapeAppend(before, HexForm(p, q, r, t) + after);
  }

  /** A backslash and one of eight characters give the unit that character stands for. */
  lemma ShortEscapeRule(before: Text, i: nat, after: Text)
    requires IsStringBody(before) && IsStringBody(after) && i < |SHORT_ESCAPES|
    ensures var body := before + ([BACKSLASH, SHORT_ESCAPES[i].0] + after);
            IsStringBody(body) && Unescape(body) == Unescape(before) + ([SHORT_ESCAPES[i].1] + Unescape(after))
  {
    ShortEscape(SHORT_ESCAPES[i].0, after);
    UnescapeAppend(before, [BACKSLASH, SHORT_ESCAPES[i].0] + after);
  }

  /** A character without a backslash stands for itself. */
  lemma PlainRule(before: Text, u: Unit, after: Text)
    requires IsStringBody(before) && IsStringBody(after) && u >= 32 && u != 34 && u != 92
    ensures var body := before + ([u] + after);
            IsStringBody(body) && Unescape(body) == Unescape(before) + ([u] + Unescape(after))
  {
    PlainUnit(u, after);
    UnescapeAppend(before, [u] + after);
  }

  /** Nothing else may follow a backslash, and no bare quote or control character is part of a string. */
  lemma NothingElseIsABody(before: Text, u: Unit, after: Text)
    requires IsStringBody(before)
    ensures u < 32 || u == 34 ==> !IsStringBody(before + ([u] + after))
    ensures u != 117 && (forall i :: 0 <= i < |SHORT_ESCAPES| ==> SHORT_ESCAPES[i].0 != u) ==>
              !IsStringBody(before + ([BACKSLASH, u] + after))
  {
    NoBodyAfter(before, [u] + after);
    NoBodyAfter(before, [BACKSLASH, u] + after);
    if u in [QUOTE, BACKSLASH, 47, 98, 102, 110, 114, 116] {
      var i := if u == 34 then 0 else if u == 92 then 1 else if u == 47 then 2 else if u == 98 then 3
               else if u == 102 then 4 else if u == 110 then 5 else if u == 114 then 6 else 7;
      assert SHORT_ESCAPES[i].0 == u;
    }
  }

  lemma {:induction false} NoBodyAfter(before: Text, s: Text)
    requires IsStringBody(before)
    ensures IsStringBody(before + s) ==> IsStringBody(s)
    decreases |before|
  {
    if before == [] {
      assert before + s == s;
    } else {
      var k := FirstLength(before);
      NoBodyAfter(before[k..], s);
      assert (before + s)[k..] == before[k..] + s;
      assert (before + s)[0] == before[0] && (k > 1 ==> (before + s)[1] == before[1]);
    }
  }

  // ---- Writing ----------------------------------------------------------------------------------

  /** Written as it is: all but quotes, backslashes, control characters and surrogates. */
  predicate IsOrdinary(u: Unit) {
    u >= 32 && u != 34 && u != 92 && !(0xD800 <= u <= 0xDFFF)
  }

  lemma OrdinaryUnitIsKept(u: Unit, rest: Text)
    requires IsOrdinary(u)
    ensures Escape([u] + rest) == [u] + Escape(rest)
  {
    assert ([u] + rest)[1..] == rest;
  }

  /** Quotes, backslashes and five control characters are written in their short form; / is not. */
  lemma ShortFormIsWritten(i: nat, rest: Text)
    requires i < |SHORT_ESCAPES| && i != 2
    ensures Escape([SHORT_ESCAPES[i].1] + rest) == [BACKSLASH, SHORT_ESCAPES[i].0] + Escape(rest)
  {
    assert ([SHORT_ESCAPES[i].1] + rest)[1..] == rest;
  }

  /**
   * The other control characters, and surrogates without their partner, are written as \u and four
   * lower-case digits.
   */
  lemma LongFormIsWritten(u: Unit, p: Unit, q: Unit, r: Unit, t: Unit, a: nat, b: nat, c: nat, d: nat, rest: Text)
    requires (u < 32 && u !in {8, 9, 10, 12, 13}) || 0xD800 <= u < 0xE000
    requires rest == [] || !(u < 0xDC00 && 0xDC00 <= rest[0] < 0xE000)
    requires IsHexOf(p, a) && IsHexOf(q, b) && IsHexOf(r, c) && IsHexOf(t, d) && u == FourDigits(a, b, c, d)
    requires !(65 <= p <= 70) && !(65 <= q <= 70) && !(65 <= r <= 70) && !(65 <= t <= 70)
    ensures Escape([u] + rest) == HexForm(p, q, r, t) + Escape(rest)
  {
    assert ([u] + rest)[1..] == rest;
    DigitsAre(u, a, b, c, d);
    assert LongForm(u) == HexForm(p, q, r, t);
  }

  lemma DigitsAre(u: Unit, a: nat, b: nat, c: nat, d: nat)
    requires a < 16 && b < 16 && c < 16 && d < 16 && u == a * 0x1000 + b * 0x100 + c * 0x10 + d
    ensures u / 4096 == a && u / 256 % 16 == b && u / 16 % 16 == c && u % 16 == d
  {
    assert u / 16 == a * 256 + b * 16 + c;
    assert u / 256 == a * 16 + b;
  }

  /** A surrogate with its partner is written as it is. */
  lemma PairIsKept(high: Unit, low: Unit, rest: Text)
    requires 0xD800 <= high < 0xDC00 && 0xDC00 <= low < 0xE000
    ensures Escape([high, low] + rest) == [high, low] + Escape(rest)
  {
    assert ([high, low] + rest)[2..] == rest;
  }
}
