/**
 * JSON text as the grammar of RFC 8259 has it (sections 2 to 7): a tree that keeps every
 * character, its rendering, and the tree with its insignificant whitespace taken out.
 */
module JsonText {
  /** One UTF-16 code unit of a JavaScript string. */
  type Unit = u: int | 0 <= u < 0x1_0000

  type Text = seq<Unit>

  const QUOTE: Unit := 34
  const BACKSLASH: Unit := 92
  const LBRACE: Unit := 123
  const RBRACE: Unit := 125
  const LBRACKET: Unit := 91
  const RBRACKET: Unit := 93
  const COMMA: Unit := 44
  const COLON: Unit := 58
  const MINUS: Unit := 45
  const PLUS: Unit := 43
  const DOT: Unit := 46
  const LOWER_E: Unit := 101
  const UPPER_E: Unit := 69
  const LOWER_U: Unit := 117
  const ZERO: Unit := 48

  const TRUE_TEXT: Text := [116, 114, 117, 101]
  const FALSE_TEXT: Text := [102, 97, 108, 115, 101]
  const NULL_TEXT: Text := [110, 117, 108, 108]

  predicate IsDigit(u: Unit) {
    48 <= u <= 57
  }

  predicate IsHex(u: Unit) {
    IsDigit(u) || 65 <= u <= 70 || 97 <= u <= 102
  }

  /** JSON's four whitespace characters. */
  predicate IsJsonSpace(u: Unit) {
    u == 32 || u == 9 || u == 10 || u == 13
  }

  /** What a regular expression's \s (and trim) take for whitespace. */
  predicate IsSpace(u: Unit) {
    9 <= u <= 13 || u == 32 || u == 0xA0 || u == 0x1680 || 0x2000 <= u <= 0x200A || u == 0x2028 || u == 0x2029
    || u == 0x202F || u == 0x205F || u == 0x3000 || u == 0xFEFF
  }

  // ---- Scalars ------------------------------------------------------------------------------

  function LeadingDigits(s: Text): (n: nat)
    ensures n <= |s| && forall i :: 0 <= i < n ==> IsDigit(s[i])
  {
    if s == [] || !IsDigit(s[0]) then 0 else 1 + LeadingDigits(s[1..])
  }

  predicate IsExponent(s: Text) {
    s == [] || ((s[0] == LOWER_E || s[0] == UPPER_E) && |s| > 1
                && var d := if s[1] == MINUS || s[1] == PLUS then s[2..] else s[1..];
                   d != [] && LeadingDigits(d) == |d|)
  }

  predicate IsFractionThenExponent(s: Text) {
    if s != [] && s[0] == DOT then
      var n := LeadingDigits(s[1..]);
      n > 0 && IsExponent(s[1 + n..])
    else IsExponent(s)
  }

  /** number = [ minus ] int [ frac ] [ exp ] */
  predicate IsNumber(s: Text) {
    var u := if s != [] && s[0] == MINUS then s[1..] else s;
    var n := LeadingDigits(u);
    n > 0 && (u[0] == ZERO ==> n == 1) && IsFractionThenExponent(u[n..])
  }

  predicate IsLiteral(s: Text) {
    s == TRUE_TEXT || s == FALSE_TEXT || s == NULL_TEXT || IsNumber(s)
  }

  /** What stands between a string's quotes: unescaped characters and escapes. */
  predicate IsStringBody(s: Text) {
    if s == [] then true
    else if s[0] == BACKSLASH then
      |s| > 1 &&
      if s[1] == LOWER_U then
        |s| >= 6 && IsHex(s[2]) && IsHex(s[3]) && IsHex(s[4]) && IsHex(s[5]) && IsStringBody(s[6..])
      else s[1] in [QUOTE, BACKSLASH, 47, 98, 102, 110, 114, 116] && IsStringBody(s[2..])
    else s[0] != QUOTE && s[0] >= 32 && IsStringBody(s[1..])
  }

  // ---- Trees ----------------------------------------------------------------------------------

  /** A JSON text with nothing dropped. `pad` is the whitespace of an empty container. */
  datatype Json = Str(body: Text) | Lit(text: Text) | Compound(isObject: bool, pad: Text, items: Items)

  datatype Items = Nil | Cons(before: Text, tag: Tag, value: Json, after: Text, rest: Items)

  /** A member's name with the whitespace around its colon; array elements have none. */
  datatype Tag = NoName | Name(body: Text, gap1: Text, gap2: Text)

  predicate IsWs(s: Text) {
    forall i :: 0 <= i < |s| ==> IsJsonSpace(s[i])
  }

  predicate WellFormed(v: Json) {
    match v
    case Str(body) => IsStringBody(body)
    case Lit(text) => IsLiteral(text)
    case Compound(isObject, pad, items) => IsWs(pad) && ItemsWellFormed(items, isObject)
  }

  predicate ItemsWellFormed(items: Items, named: bool) {
    match items
    case Nil => true
    case Cons(before, tag, value, after, rest) =>
      && IsWs(before) && IsWs(after) && WellFormed(value) && ItemsWellFormed(rest, named)
      && (tag.Name? <==> named) && TagWellFormed(tag)
  }

  predicate TagWellFormed(tag: Tag) {
    tag.Name? ==> IsStringBody(tag.body) && IsWs(tag.gap1) && IsWs(tag.gap2)
  }

  function Open(isObject: bool): Unit {
    if isObject then LBRACE else LBRACKET
  }

  function Close(isObject: bool): Unit {
    if isObject then RBRACE else RBRACKET
  }

  function Quoted(body: Text, rest: Text): Text {
    [QUOTE] + (body + ([QUOTE] + rest))
  }

  /** The text of a tree, followed by `rest`. */
  function Emit(v: Json, rest: Text): Text {
    match v
    case Str(body) => Quoted(body, rest)
    case Lit(text) => text + rest
    case Compound(isObject, pad, items) =>
      var tail := [Close(isObject)] + rest;
      [Open(isObject)] + (if items.Nil? then pad + tail else EmitItems(items, tail))
  }

  function EmitItems(items: Items, rest: Text): Text {
    match items
    case Nil => rest
    case Cons(before, tag, value, after, more) =>
      before + EmitTag(tag, Emit(value, after + if more.Nil? then rest else [COMMA] + EmitItems(more, rest)))
  }

  function EmitTag(tag: Tag, rest: Text): Text {
    match tag
    case NoName => rest
    case Name(body, gap1, gap2) => Quoted(body, gap1 + ([COLON] + (gap2 + rest)))
  }

  function Render(v: Json): Text {
    Emit(v, [])
  }

  /** A value with whitespace around it: what a JSON text is. */
  ghost predicate IsJsonText(text: Text) {
    exists lead, v, trail :: IsTextOf(text, lead, v, trail)
  }

  ghost predicate IsTextOf(text: Text, lead: Text, v: Json, trail: Text) {
    IsWs(lead) && IsWs(trail) && WellFormed(v) && text == lead + Emit(v, trail)
  }

  /** The same tree with all insignificant whitespace removed. */
  function Strip(v: Json): Json {
    match v
    case Str(_) => v
    case Lit(_) => v
    case Compound(isObject, _, items) => Compound(isObject, [], StripItems(items))
  }

  function StripItems(items: Items): Items {
    match items
    case Nil => Nil
    case Cons(_, tag, value, _, rest) =>
      Cons([], StripTag(tag), Strip(value), [], StripItems(rest))
  }

  function StripTag(tag: Tag): Tag {
    if tag.Name? then Name(tag.body, [], []) else NoName
  }

  lemma StripWellFormed(v: Json)
    requires WellFormed(v)
    ensures WellFormed(Strip(v))
    decreases v
  {
    if v.Compound? {
      StripItemsWellFormed(v.items, v.isObject);
    }
  }

  lemma StripItemsWellFormed(items: Items, named: bool)
    requires ItemsWellFormed(items, named)
    ensures ItemsWellFormed(StripItems(items), named)
    decreases items
  {
    if items.Cons? {
      StripWellFormed(items.value);
      StripItemsWellFormed(items.rest, named);
    }
  }

  // ---- Character classes of well-formed text ----------------------------------------------------

  /** A character the value scanner passes over at any depth. */
  predicate Plain(u: Unit) {
    u != QUOTE && u != LBRACE && u != RBRACE && u != LBRACKET && u != RBRACKET && u != COMMA
  }

  predicate AllPlain(s: Text) {
    forall i :: 0 <= i < |s| ==> Plain(s[i])
  }

  predicate NoSpace(s: Text) {
    forall i :: 0 <= i < |s| ==> !IsSpace(s[i])
  }

  lemma ExponentIsPlain(s: Text)
    requires IsExponent(s)
    ensures AllPlain(s) && NoSpace(s)
  {
    if s != [] {
      var k := if s[1] == MINUS || s[1] == PLUS then 2 else 1;
      forall i | k <= i < |s| ensures IsDigit(s[i]) {
        assert s[i] == s[k..][i - k];
      }
    }
  }

  lemma NumberIsPlain(s: Text)
    requires IsNumber(s)
    ensures s != [] && AllPlain(s) && NoSpace(s)
    ensures s[0] == MINUS || IsDigit(s[0])
  {
    var u := if s[0] == MINUS then s[1..] else s;
    var n := LeadingDigits(u);
    FractionIsPlain(u[n..]);
    DigitsThenPlain(u, n);
    assert s[0] == MINUS ==> s == [MINUS] + u;
  }

  lemma DigitsThenPlain(s: Text, n: nat)
    requires n <= |s| && (forall i :: 0 <= i < n ==> IsDigit(s[i])) && AllPlain(s[n..]) && NoSpace(s[n..])
    ensures AllPlain(s) && NoSpace(s)
  {
    forall i | n <= i < |s| ensures Plain(s[i]) && !IsSpace(s[i]) {
      assert s[i] == s[n..][i - n];
    }
  }

  lemma FractionIsPlain(s: Text)
    requires IsFractionThenExponent(s)
    ensures AllPlain(s) && NoSpace(s)
  {
    if s != [] && s[0] == DOT {
      var n := LeadingDigits(s[1..]);
      ExponentIsPlain(s[1 + n..]);
      forall i | 0 <= i < |s| ensures Plain(s[i]) && !IsSpace(s[i]) {
        if i >= 1 + n {
          assert s[i] == s[1 + n..][i - 1 - n];
        } else if i >= 1 {
          assert s[i] == s[1..][i - 1];
        }
      }
    } else {
      ExponentIsPlain(s);
    }
  }

  lemma LiteralIsPlain(s: Text)
    requires IsLiteral(s)
    ensures s != [] && AllPlain(s) && NoSpace(s)
  {
    if IsNumber(s) {
      NumberIsPlain(s);
    }
  }

  /** Where a scanner that only looks for backslashes and quotes stops: nowhere inside the text. */
  predicate Sealed(s: Text) {
    if s == [] then true
    else if s[0] == BACKSLASH then |s| > 1 && Sealed(s[2..])
    else s[0] != QUOTE && Sealed(s[1..])
  }

  lemma {:induction false} BodyIsSealed(body: Text)
    requires IsStringBody(body)
    ensures Sealed(body)
    decreases |body|
  {
    if body != [] {
      if body[0] != BACKSLASH {
        BodyIsSealed(body[1..]);
      } else if body[1] == LOWER_U {
        BodyIsSealed(body[6..]);
        SealedBefore(body, 5);
        SealedBefore(body, 4);
        SealedBefore(body, 3);
        SealedBefore(body, 2);
      } else {
        BodyIsSealed(body[2..]);
      }
    }
  }

  lemma SealedBefore(s: Text, i: nat)
    requires i < |s| && s[i] != BACKSLASH && s[i] != QUOTE && Sealed(s[i + 1..])
    ensures Sealed(s[i..])
  {
    assert s[i..][1..] == s[i + 1..];
  }

  // ---- Rendering ----------------------------------------------------------------------------------

  lemma Assoc(a: Text, b: Text, c: Text)
    ensures (a + b) + c == a + (b + c)
  {
  }

  lemma QuotedAppends(body: Text, rest: Text, more: Text)
    ensures Quoted(body, rest) + more == Quoted(body, rest + more)
  {
    Assoc([QUOTE], body + ([QUOTE] + rest), more);
    Assoc(body, [QUOTE] + rest, more);
    Assoc([QUOTE], rest, more);
  }

  lemma {:induction false} EmitAppends(v: Json, rest: Text, more: Text)
    ensures Emit(v, rest) + more == Emit(v, rest + more)
    decreases v
  {
    match v
    case Str(body) => QuotedAppends(body, rest, more);
    case Lit(text) => Assoc(text, rest, more);
    case Compound(isObject, pad, items) =>
      var tail := [Close(isObject)] + rest;
      Assoc([Close(isObject)], rest, more);
      if items.Nil? {
        Assoc(pad, tail, more);
        Assoc([Open(isObject)], pad + tail, more);
      } else {
        EmitItemsAppends(items, tail, more);
        Assoc([Open(isObject)], EmitItems(items, tail), more);
      }
  }

  lemma {:induction false} EmitItemsAppends(items: Items, rest: Text, more: Text)
    ensures EmitItems(items, rest) + more == EmitItems(items, rest + more)
    decreases items
  {
    match items
    case Nil =>
    case Cons(before, tag, value, after, others) =>
      var tail := if others.Nil? then rest else [COMMA] + EmitItems(others, rest);
      if others.Cons? {
        EmitItemsAppends(others, rest, more);
        Assoc([COMMA], EmitItems(others, rest), more);
      }
      Assoc(after, tail, more);
      EmitAppends(value, after + tail, more);
      EmitTagAppends(tag, Emit(value, after + tail), more);
      Assoc(before, EmitTag(tag, Emit(value, after + tail)), more);
  }

  lemma EmitTagAppends(tag: Tag, rest: Text, more: Text)
    ensures EmitTag(tag, rest) + more == EmitTag(tag, rest + more)
  {
    if tag.Name? {
      QuotedAppends(tag.body, tag.gap1 + ([COLON] + (tag.gap2 + rest)), more);
      Assoc(tag.gap1, [COLON] + (tag.gap2 + rest), more);
      Assoc([COLON], tag.gap2 + rest, more);
      Assoc(tag.gap2, rest, more);
    }
  }

  /** A tree followed by `rest` is its own text followed by `rest`. */
  lemma EmitIsRender(v: Json, rest: Text)
    ensures Emit(v, rest) == Render(v) + rest
  {
    EmitAppends(v, [], rest);
    assert [] + rest == rest;
  }

  lemma BracketsEnd(isObject: bool, inner: Text)
    ensures var s := [Open(isObject)] + (inner + [Close(isObject)]);
            s[0] == Open(isObject) && s[|s| - 1] == Close(isObject)
  {
  }

  /** A value's text starts and ends with a character that is not whitespace. */
  lemma ValueEnds(v: Json)
    requires WellFormed(v)
    ensures Render(v) != [] && !IsSpace(Render(v)[0]) && !IsSpace(Render(v)[|Render(v)| - 1])
  {
    match v
    case Str(body) =>
      BodyEnds(body);
    case Lit(text) =>
      LiteralIsPlain(text);
      assert Render(v) == text;
    case Compound(isObject, pad, items) =>
      var tail := [Close(isObject)];
      assert tail + [] == tail;
      if items.Nil? {
        BracketsEnd(isObject, pad);
      } else {
        EmitItemsAppends(items, [], tail);
        assert [] + tail == tail;
        BracketsEnd(isObject, EmitItems(items, []));
      }
  }

  lemma BodyEnds(body: Text)
    ensures Quoted(body, [])[|Quoted(body, [])| - 1] == QUOTE
  {
  }
}
