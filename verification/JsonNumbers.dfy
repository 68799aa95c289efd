/** The recognizers of scalars and of whitespace against the grammar they are written for (RFC 8259). */
module JsonNumbers {
  import opened JsonText

  /** The texts of the three literal names, and the six structural characters with quote and backslash. */
  lemma Names()
    ensures TRUE_TEXT == ['t' as int, 'r' as int, 'u' as int, 'e' as int]
    ensures FALSE_TEXT == ['f' as int, 'a' as int, 'l' as int, 's' as int, 'e' as int]
    ensures NULL_TEXT == ['n' as int, 'u' as int, 'l' as int, 'l' as int]
    ensures LBRACE == '{' as int && RBRACE == '}' as int && LBRACKET == '[' as int && RBRACKET == ']' as int
    ensures COLON == ':' as int && COMMA == ',' as int && QUOTE == '"' as int && BACKSLASH == '\\' as int
    ensures forall u: Unit :: IsJsonSpace(u) <==> u in {' ' as int, '\t' as int, '\n' as int, '\r' as int}
  {
  }

  predicate AreDigits(s: Text) {
    s != [] && forall i :: 0 <= i < |s| ==> 48 <= s[i] <= 57
  }

  /** The parts of a number: an optional minus, digits without a leading zero, a fraction, an exponent. */
  predicate AreNumberParts(minus: Text, digits: Text, fraction: Text, exponent: Text) {
    && (minus == [] || minus == [45])
    && AreDigits(digits) && (digits[0] == 48 ==> |digits| == 1)
    && (fraction == [] || (fraction[0] == 46 && AreDigits(fraction[1..])))
    && (exponent == [] ||
        (exponent[0] in {69, 101} && exponent[1..] != []
         && AreDigits(if exponent[1] in {43, 45} then exponent[2..] else exponent[1..])))
  }

  lemma {:induction false} LeadingDigitsStop(digits: Text, rest: Text)
    requires forall i :: 0 <= i < |digits| ==> IsDigit(digits[i])
    requires rest == [] || !IsDigit(rest[0])
    ensures LeadingDigits(digits + rest) == |digits|
  {
    if digits == [] {
      assert digits + rest == rest;
    } else {
      LeadingDigitsStop(digits[1..], rest);
      assert (digits + rest)[1..] == digits[1..] + rest;
    }
  }

  lemma {:induction false} AllLeadingDigits(s: Text)
    ensures LeadingDigits(s) < |s| ==> !IsDigit(s[LeadingDigits(s)])
    ensures LeadingDigits(s) == |s| <==> forall i :: 0 <= i < |s| ==> IsDigit(s[i])
  {
    if s != [] && IsDigit(s[0]) {
      AllLeadingDigits(s[1..]);
      assert forall i :: 1 <= i < |s| ==> s[i] == s[1..][i - 1];
    }
  }

  lemma ExponentParts(exponent: Text)
    ensures IsExponent(exponent) <==> AreNumberParts([], [48], [], exponent)
  {
    if exponent != [] && |exponent| > 1 {
      AllLeadingDigits(exponent[1..]);
      AllLeadingDigits(exponent[2..]);
    }
  }

  lemma FractionParts(fraction: Text, exponent: Text)
    requires AreNumberParts([], [48], fraction, exponent)
    ensures IsFractionThenExponent(fraction + exponent)
  {
    ExponentParts(exponent);
    if fraction == [] {
      assert fraction + exponent == exponent;
    } else {
      LeadingDigitsStop(fraction[1..], exponent);
      assert (fraction + exponent)[1..] == fraction[1..] + exponent;
      assert (fraction + exponent)[1 + |fraction[1..]|..] == exponent;
    }
  }

  lemma FractionSplits(s: Text) returns (fraction: Text, exponent: Text)
    requires IsFractionThenExponent(s)
    ensures s == fraction + exponent && AreNumberParts([], [48], fraction, exponent)
  {
    fraction, exponent := [], s;
    if s != [] && s[0] == DOT {
      var n := LeadingDigits(s[1..]);
      fraction, exponent := s[..1 + n], s[1 + n..];
      assert fraction[1..] == s[1..][..n];
    }
    ExponentParts(exponent);
  }

  lemma NumberOfParts(minus: Text, digits: Text, fraction: Text, exponent: Text)
    requires AreNumberParts(minus, digits, fraction, exponent)
    ensures IsNumber(minus + (digits + (fraction + exponent)))
  {
    var rest := fraction + exponent;
    var u := digits + rest;
    FractionParts(fraction, exponent);
    LeadingDigitsStop(digits, rest);
    assert u[0] == digits[0] && u[|digits|..] == rest;
    if minus == [] {
      assert minus + u == u;
    } else {
      assert (minus + u)[1..] == u;
    }
  }

  /** A number without its minus. */
  predicate IsUnsigned(s: Text) {
    var n := LeadingDigits(s);
    n > 0 && (s[0] == ZERO ==> n == 1) && IsFractionThenExponent(s[n..])
  }

  lemma UnsignedSplits(s: Text) returns (digits: Text, fraction: Text, exponent: Text)
    requires IsUnsigned(s)
    ensures AreNumberParts([], digits, fraction, exponent) && s == digits + (fraction + exponent)
  {
    var n := LeadingDigits(s);
    digits := s[..n];
    fraction, exponent := FractionSplits(s[n..]);
    assert s == s[..n] + s[n..];
  }

  lemma NumberSplits(s: Text) returns (minus: Text, digits: Text, fraction: Text, exponent: Text)
    requires IsNumber(s)
    ensures AreNumberParts(minus, digits, fraction, exponent) && s == minus + (digits + (fraction + exponent))
  {
    if s[0] == MINUS {
      digits, fraction, exponent := UnsignedSplits(s[1..]);
      minus := [45];
      assert s == [45] + s[1..];
    } else {
      digits, fraction, exponent := UnsignedSplits(s);
      minus := [];
      assert s == [] + s;
    }
  }

  /** The recognizer accepts exactly the numbers of RFC 8259, section 6: [ minus ] int [ frac ] [ exp ]. */
  lemma NumberGrammar(s: Text)
    ensures IsNumber(s) <==>
            exists minus, digits, fraction, exponent ::
              AreNumberParts(minus, digits, fraction, exponent) && s == minus + (digits + (fraction + exponent))
  {
    if IsNumber(s) {
      var _, _, _, _ := NumberSplits(s);
    }
    if minus, digits, fraction, exponent :|
      AreNumberParts(minus, digits, fraction, exponent) && s == minus + (digits + (fraction + exponent))
    {
      NumberOfParts(minus, digits, fraction, exponent);
    }
  }
}
