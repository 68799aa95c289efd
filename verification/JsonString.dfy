/** Encoding and decoding of JSON strings (RFC 8259, section 7), as JSON.stringify and JSON.parse do it. */
module JsonString {
  import opened JsonText

  function HexValue(u: Unit): (n: nat)
    requires IsHex(u)
    ensures n < 16
  {
    if IsDigit(u) then u - 48 else if u <= 70 then u - 55 else u - 87
  }

  function HexDigit(n: nat): (u: Unit)
    requires n < 16
    ensures IsHex(u) && HexValue(u) == n
  {
    if n < 10 then 48 + n else 87 + n
  }

  /** The character a two-character escape stands for. */
  function Unescaped(u: Unit): Unit {
    if u == 98 then 8 else if u == 102 then 12 else if u == 110 then 10 else if u == 114 then 13
    else if u == 116 then 9 else u
  }

  /** The string between the quotes, decoded. */
  function Unescape(body: Text): Text
    requires IsStringBody(body)
    decreases |body|
  {
    if body == [] then []
    else if body[0] == BACKSLASH then
      if body[1] == LOWER_U then
        [HexValue(body[2]) * 4096 + HexValue(body[3]) * 256 + HexValue(body[4]) * 16 + HexValue(body[5])]
        + Unescape(body[6..])
      else [Unescaped(body[1])] + Unescape(body[2..])
    else [body[0]] + Unescape(body[1..])
  }

  predicate IsHighSurrogate(u: Unit) {
    0xD800 <= u < 0xDC00
  }

  predicate IsLowSurrogate(u: Unit) {
    0xDC00 <= u < 0xE000
  }

  function EscapedUnit(u: Unit): Text {
    if u == QUOTE || u == BACKSLASH then [BACKSLASH, u]
    else if u == 8 then [BACKSLASH, 98] else if u == 12 then [BACKSLASH, 102]
    else if u == 10 then [BACKSLASH, 110] else if u == 13 then [BACKSLASH, 114]
    else if u == 9 then [BACKSLASH, 116]
    else if u < 32 || IsHighSurrogate(u) || IsLowSurrogate(u) then LongForm(u)
    else [u]
  }

  function LongForm(u: Unit): Text {
    [BACKSLASH, LOWER_U, HexDigit(u / 4096), HexDigit(u / 256 % 16), HexDigit(u / 16 % 16), HexDigit(u % 16)]
  }

  /** Surrogate pairs stay as they are; a surrogate on its own is written as an escape. */
  function Escape(s: Text): Text
    decreases |s|
  {
    if s == [] then []
    else if |s| > 1 && IsHighSurrogate(s[0]) && IsLowSurrogate(s[1]) then [s[0]] + ([s[1]] + Escape(s[2..]))
    else EscapedUnit(s[0]) + Escape(s[1..])
  }

  lemma PlainUnit(u: Unit, rest: Text)
    requires IsStringBody(rest) && u != QUOTE && u != BACKSLASH && u >= 32
    ensures IsStringBody([u] + rest) && Unescape([u] + rest) == [u] + Unescape(rest)
  {
    assert ([u] + rest)[1..] == rest;
  }

  lemma ShortEscape(u: Unit, rest: Text)
    requires IsStringBody(rest) && u in [QUOTE, BACKSLASH, 47, 98, 102, 110, 114, 116]
    ensures IsStringBody([BACKSLASH, u] + rest)
    ensures Unescape([BACKSLASH, u] + rest) == [Unescaped(u)] + Unescape(rest)
  {
    assert ([BACKSLASH, u] + rest)[2..] == rest;
  }

  lemma HexEscape(p: Unit, q: Unit, r: Unit, t: Unit, rest: Text)
    requires IsHex(p) && IsHex(q) && IsHex(r) && IsHex(t) && IsStringBody(rest)
    ensures var e := [BACKSLASH, LOWER_U, p, q, r, t] + rest;
            IsStringBody(e)
            && Unescape(e) == [HexValue(p) * 4096 + HexValue(q) * 256 + HexValue(r) * 16 + HexValue(t)] + Unescape(rest)
  {
    var e := [BACKSLASH, LOWER_U, p, q, r, t] + rest;
    assert e[6..] == rest;
    assert e[0] == BACKSLASH && e[1] == LOWER_U && e[2] == p && e[3] == q && e[4] == r && e[5] == t;
  }

  lemma HexDigitsOf(u: Unit)
    ensures u / 4096 < 16 && u / 4096 * 4096 + u / 256 % 16 * 256 + u / 16 % 16 * 16 + u % 16 == u
  {
  }

  lemma LongEscape(u: Unit, rest: Text)
    requires IsStringBody(rest)
    ensures IsStringBody(LongForm(u) + rest) && Unescape(LongForm(u) + rest) == [u] + Unescape(rest)
  {
    HexDigitsOf(u);
    HexEscape(HexDigit(u / 4096), HexDigit(u / 256 % 16), HexDigit(u / 16 % 16), HexDigit(u % 16), rest);
  }

  lemma UnitRoundTrip(u: Unit, rest: Text)
    requires IsStringBody(rest)
    ensures IsStringBody(EscapedUnit(u) + rest) && Unescape(EscapedUnit(u) + rest) == [u] + Unescape(rest)
  {
    if u == QUOTE || u == BACKSLASH || 8 <= u <= 10 || u == 12 || u == 13 {
      ShortEscape(EscapedUnit(u)[1], rest);
    } else if u < 32 || IsHighSurrogate(u) || IsLowSurrogate(u) {
      LongEscape(u, rest);
    } else {
      PlainUnit(u, rest);
    }
  }

  /** Every string, lone surrogates and control characters included, is encoded and read back unchanged. */
  lemma {:induction false} StringRoundTrip(s: Text)
    ensures IsStringBody(Escape(s)) && Unescape(Escape(s)) == s
    decreases |s|
  {
    if s == [] {
    } else if |s| > 1 && IsHighSurrogate(s[0]) && IsLowSurrogate(s[1]) {
      StringRoundTrip(s[2..]);
      PlainUnit(s[1], Escape(s[2..]));
      PlainUnit(s[0], [s[1]] + Escape(s[2..]));
      assert s == [s[0]] + ([s[1]] + s[2..]);
    } else {
      StringRoundTrip(s[1..]);
      UnitRoundTrip(s[0], Escape(s[1..]));
    }
  }
}
