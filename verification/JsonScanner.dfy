/**
 * The hand-written scanner that splits a top-level JSON object into its fields, each with its exact
 * value text.
 */
module JsonScanner {
  import opened Prelude
  import opened JsonText
  import opened JsonString
  import opened OrderedFields

  // ---- What the scanner leaves unread ----------------------------------------------------------

  /** What follows a string whose opening quote is behind us; None when the string never ends. */
  function AfterString(s: Text): (r: Option<Text>)
    ensures r.Some? ==> |r.value| < |s|
    decreases |s|
  {
    if s == [] then None
    else if s[0] == QUOTE then Some(s[1..])
    else if s[0] == BACKSLASH then if |s| == 1 then None else AfterString(s[2..])
    else AfterString(s[1..])
  }

  /** What follows the value that starts here, `depth` brackets being open. */
  function AfterValue(s: Text, depth: nat): (r: Option<Text>)
    ensures r.Some? ==> |r.value| <= |s|
    decreases |s|
  {
    if s == [] then Some(s)
    else if s[0] == QUOTE then
      var r := AfterString(s[1..]);
      if r.None? || depth == 0 then r else AfterValue(r.value, depth)
    else if s[0] == LBRACE || s[0] == LBRACKET then AfterValue(s[1..], depth + 1)
    else if s[0] == RBRACE || s[0] == RBRACKET then
      if depth == 0 then Some(s) else if depth == 1 then Some(s[1..]) else AfterValue(s[1..], depth - 1)
    else if s[0] == COMMA && depth == 0 then Some(s)
    else AfterValue(s[1..], depth)
  }

  lemma {:induction false} AfterBody(body: Text, rest: Text)
    requires Sealed(body)
    ensures AfterString(body + ([QUOTE] + rest)) == Some(rest)
    decreases |body|
  {
    var tail := [QUOTE] + rest;
    if body == [] {
      assert body + tail == tail;
    } else {
      var k := if body[0] == BACKSLASH then 2 else 1;
      AfterBody(body[k..], rest);
      assert (body + tail)[k..] == body[k..] + tail;
    }
  }

  lemma {:induction false} AfterPlain(s: Text, rest: Text, depth: nat)
    requires AllPlain(s)
    ensures AfterValue(s + rest, depth) == AfterValue(rest, depth)
    decreases |s|
  {
    if s == [] {
      assert s + rest == rest;
    } else {
      AfterPlain(s[1..], rest, depth);
      assert (s + rest)[1..] == s[1..] + rest;
    }
  }

  lemma AfterQuoted(body: Text, rest: Text, depth: nat)
    requires IsStringBody(body)
    ensures AfterValue(Quoted(body, rest), depth) == if depth == 0 then Some(rest) else AfterValue(rest, depth)
  {
    BodyIsSealed(body);
    AfterBody(body, rest);
    assert Quoted(body, rest)[1..] == body + ([QUOTE] + rest);
  }

  lemma AfterTag(tag: Tag, rest: Text, depth: nat)
    requires TagWellFormed(tag) && depth > 0
    ensures AfterValue(EmitTag(tag, rest), depth) == AfterValue(rest, depth)
  {
    if tag.Name? {
      var colon := [COLON] + (tag.gap2 + rest);
      AfterQuoted(tag.body, tag.gap1 + colon, depth);
      AfterPlain(tag.gap1, colon, depth);
      AfterPlain([COLON], tag.gap2 + rest, depth);
      AfterPlain(tag.gap2, rest, depth);
    }
  }

  /** Inside a container the scanner passes over a whole value and comes out at the same depth. */
  lemma {:induction false} AfterInnerValue(v: Json, rest: Text, depth: nat)
    requires WellFormed(v) && depth > 0
    ensures AfterValue(Emit(v, rest), depth) == AfterValue(rest, depth)
    decreases v
  {
    match v
    case Str(body) => AfterQuoted(body, rest, depth);
    case Lit(text) =>
      LiteralIsPlain(text);
      AfterPlain(text, rest, depth);
    case Compound(isObject, pad, items) =>
      AfterContainer(isObject, pad, items, rest, depth);
  }

  lemma AfterContainer(isObject: bool, pad: Text, items: Items, rest: Text, depth: nat)
    requires IsWs(pad) && ItemsWellFormed(items, isObject)
    ensures AfterValue(Emit(Compound(isObject, pad, items), rest), depth)
            == if depth == 0 then Some(rest) else AfterValue(rest, depth)
    decreases items, 1
  {
    var tail := [Close(isObject)] + rest;
    var inner := if items.Nil? then pad + tail else EmitItems(items, tail);
    if items.Nil? {
      AfterPlain(pad, tail, depth + 1);
    } else {
      AfterItems(items, isObject, tail, depth + 1);
    }
    assert tail[1..] == rest;
    assert ([Open(isObject)] + inner)[1..] == inner;
  }

  lemma {:induction false} AfterItems(items: Items, named: bool, rest: Text, depth: nat)
    requires ItemsWellFormed(items, named) && depth > 0
    ensures AfterValue(EmitItems(items, rest), depth) == AfterValue(rest, depth)
    decreases items, 0
  {
    match items
    case Nil =>
    case Cons(before, tag, value, after, more) =>
      var tail := if more.Nil? then rest else [COMMA] + EmitItems(more, rest);
      var text := Emit(value, after + tail);
      AfterPlain(before, EmitTag(tag, text), depth);
      AfterTag(tag, text, depth);
      AfterInnerValue(value, after + tail, depth);
      AfterPlain(after, tail, depth);
      if more.Cons? {
        assert tail[1..] == EmitItems(more, rest);
        AfterItems(more, named, rest, depth);
      }
  }

  /** Where a field's value may stop: at the comma or at the object's closing brace. */
  predicate Stops(tail: Text) {
    tail != [] && (tail[0] == COMMA || tail[0] == RBRACE)
  }

  /** A scalar is read up to the comma or brace, other values exactly to their end. */
  function Leftover(v: Json, after: Text, tail: Text): Text {
    if v.Lit? then tail else after + tail
  }

  lemma AfterFieldValue(v: Json, after: Text, tail: Text)
    requires WellFormed(v) && IsWs(after) && Stops(tail)
    ensures AfterValue(Emit(v, after + tail), 0) == Some(Leftover(v, after, tail))
  {
    match v
    case Str(body) => AfterQuoted(body, after + tail, 0);
    case Lit(text) =>
      LiteralIsPlain(text);
      AfterPlain(text, after + tail, 0);
      AfterPlain(after, tail, 0);
    case Compound(isObject, pad, items) => AfterContainer(isObject, pad, items, after + tail, 0);
  }

  // ---- Trimming ----------------------------------------------------------------------------------

  function TrimStart(s: Text): Text {
    if s != [] && IsSpace(s[0]) then TrimStart(s[1..]) else s
  }

  function TrimEnd(s: Text): Text {
    if s != [] && IsSpace(s[|s| - 1]) then TrimEnd(s[..|s| - 1]) else s
  }

  function Trim(s: Text): Text {
    TrimEnd(TrimStart(s))
  }

  lemma {:induction false} TrimStartIs(lead: Text, s: Text)
    requires IsWs(lead) && s != [] && !IsSpace(s[0])
    ensures TrimStart(lead + s) == s
  {
    if lead == [] {
      assert lead + s == s;
    } else {
      TrimStartIs(lead[1..], s);
      assert (lead + s)[1..] == lead[1..] + s;
    }
  }

  lemma {:induction false} TrimEndIs(s: Text, trail: Text)
    requires IsWs(trail) && s != [] && !IsSpace(s[|s| - 1])
    ensures TrimEnd(s + trail) == s
  {
    if trail == [] {
      assert s + trail == s;
    } else {
      TrimEndIs(s, trail[..|trail| - 1]);
      assert (s + trail)[..|s + trail| - 1] == s + trail[..|trail| - 1];
    }
  }

  lemma TrimIs(lead: Text, v: Json, trail: Text)
    requires IsWs(lead) && IsWs(trail) && WellFormed(v)
    ensures Trim(lead + (Render(v) + trail)) == Render(v)
  {
    ValueEnds(v);
    TrimStartIs(lead, Render(v) + trail);
    TrimEndIs(Render(v), trail);
  }

  // ---- The scanner -------------------------------------------------------------------------------

  /** The fields of an object's tree: decoded names with the exact text of each value, in text order. */
  function Members(items: Items): seq<Field<Text, Text>>
    requires ItemsWellFormed(items, true)
  {
    match items
    case Nil => []
    case Cons(_, tag, value, _, rest) => [Field(Unescape(tag.body), Render(value))] + Members(rest)
  }

  /** The text of the remaining items, leading whitespace already skipped, up to the object's end. */
  function FromName(items: Items): Text {
    match items
    case Nil => [RBRACE]
    case Cons(_, tag, value, after, more) => EmitTag(tag, Emit(value, after + AfterField(more)))
  }

  function AfterField(more: Items): Text {
    if more.Nil? then [RBRACE] else [COMMA] + EmitItems(more, [RBRACE])
  }

  class Scanner {
    const text: Text
    var i: nat

    constructor (text: Text, i: nat)
      requires i <= |text|
      ensures this.text == text && this.i == i
    {
      this.text := text;
      this.i := i;
    }

    ghost predicate At(rest: Text)
      reads this
    {
      i <= |text| && text[i..] == rest
    }

    method SkipWs(ghost ws: Text, ghost rest: Text)
      requires At(ws + rest) && IsWs(ws)
      requires rest == [] || !IsSpace(rest[0])
      modifies this
      ensures At(rest)
    {
      ghost var left := ws;
      while i < |text| && IsSpace(text[i])
        invariant At(left + rest) && IsWs(left)
        decreases |left|
      {
        assert text[i] == (left + rest)[0];
        assert left != [];
        assert text[i + 1..] == text[i..][1..] == left[1..] + rest;
        left := left[1..];
        i := i + 1;
      }
      assert i < |text| ==> text[i] == (left + rest)[0];
      assert left == [];
      assert left + rest == rest;
    }

    method ReadString() returns (raw: Text)
      requires i < |text| && text[i] == QUOTE && AfterString(text[i + 1..]).Some?
      modifies this
      ensures old(i) < i <= |text| && raw == text[old(i)..i]
      ensures text[i..] == AfterString(text[old(i) + 1..]).value
    {
      var start := i;
      i := i + 1;
      while text[i] != QUOTE
        invariant start < i < |text| && AfterString(text[i..]) == AfterString(text[start + 1..])
        decreases |text| - i
      {
        var k := if text[i] == BACKSLASH then 2 else 1;
        assert text[i..][k..] == text[i + k..];
        if text[i] == BACKSLASH {
          i := i + 1;
        }
        i := i + 1;
      }
      assert text[i..][1..] == text[i + 1..];
      i := i + 1;
      return text[start..i];
    }

    method ReadValue() returns (raw: Text)
      requires i <= |text| && AfterValue(text[i..], 0).Some?
      modifies this
      ensures old(i) <= i <= |text| && raw == Trim(text[old(i)..i])
      ensures text[i..] == AfterValue(text[old(i)..], 0).value
    {
      var start := i;
      var depth := 0;
      while i < |text|
        invariant start <= i <= |text| && depth >= 0
        invariant AfterValue(text[i..], depth) == AfterValue(text[start..], 0)
        decreases |text| - i
      {
        var ch := text[i];
        assert text[i..][0] == ch && text[i..][1..] == text[i + 1..];
        if ch == QUOTE {
          var _ := ReadString();
          if depth == 0 {
            break;
          }
          continue;
        }
        if ch == LBRACE || ch == LBRACKET {
          depth := depth + 1;
        } else if ch == RBRACE || ch == RBRACKET {
          if depth == 0 {
            break;
          }
          depth := depth - 1;
          if depth == 0 {
            i := i + 1;
            break;
          }
        } else if ch == COMMA && depth == 0 {
          break;
        }
        i := i + 1;
      }
      return Trim(text[start..i]);
    }

    /** One `"name" : value` with the whitespace after it, up to the comma or the closing brace. */
    method ReadField(ghost tag: Tag, ghost value: Json, ghost after: Text, ghost tail: Text)
      returns (key: Text, raw: Text)
      requires At(EmitTag(tag, Emit(value, after + tail)))
      requires tag.Name? && TagWellFormed(tag) && WellFormed(value) && IsWs(after) && Stops(tail)
      modifies this
      ensures At(tail) && key == Unescape(tag.body) && raw == Render(value)
    {
      key := ReadName(tag, Emit(value, after + tail));
      ValueEnds(value);
      EmitIsRender(value, after + tail);
      SkipWs(tag.gap2, Emit(value, after + tail));
      raw := ReadFieldValue(value, after, tail);
      SkipWs(if value.Lit? then [] else after, tail);
    }

    method ReadFieldValue(ghost value: Json, ghost after: Text, ghost tail: Text) returns (raw: Text)
      requires At(Emit(value, after + tail)) && WellFormed(value) && IsWs(after) && Stops(tail)
      modifies this
      ensures At((if value.Lit? then [] else after) + tail) && raw == Render(value)
    {
      AfterFieldValue(value, after, tail);
      var start := i;
      raw := ReadValue();
      SliceBefore(start);
      ghost var left := Leftover(value, after, tail);
      ghost var read := if value.Lit? then after else [];
      assert [] + left == left;
      ReadExactly(text[start..i], value, read, left, after + tail);
    }

    /** The name, and the colon after it. */
    method ReadName(ghost tag: Tag, ghost rest: Text) returns (key: Text)
      requires At(EmitTag(tag, rest)) && tag.Name? && TagWellFormed(tag)
      modifies this
      ensures At(tag.gap2 + rest) && key == Unescape(tag.body)
    {
      ghost var colon := [COLON] + (tag.gap2 + rest);
      ghost var tail := tag.gap1 + colon;
      BodyIsSealed(tag.body);
      AfterBody(tag.body, tail);
      assert text[i + 1..] == text[i..][1..] == tag.body + ([QUOTE] + tail);
      var start := i;
      var raw := ReadString();
      SliceBefore(start);
      QuotedIs(raw, tag.body, tail);
      key := Unescape(raw[1..|raw| - 1]);
      SkipWs(tag.gap1, colon);
      assert text[i + 1..] == text[i..][1..] == tag.gap2 + rest;
      i := i + 1;
    }

    /** Between the opening brace and the closing one: every field in turn, later duplicates overwriting. */
    method ReadFields(ghost pad: Text, ghost items: Items) returns (obj: JsonObject<Text, Text>)
      requires IsWs(pad) && ItemsWellFormed(items, true)
      requires At(if items.Nil? then pad + [RBRACE] else EmitItems(items, [RBRACE]))
      modifies this
      ensures fresh(obj) && obj.fields == SetAll([], Members(items))
    {
      obj := new JsonObject([]);
      SkipWs(if items.Nil? then pad else items.before, FromName(items));
      ghost var left := items;
      while text[i] != RBRACE
        invariant At(FromName(left)) && FromName(left) != [] && (left.Nil? <==> FromName(left)[0] == RBRACE)
        invariant ItemsWellFormed(left, true)
        invariant fresh(obj) && SetAll(obj.fields, Members(left)) == SetAll([], Members(items))
        decreases left
      {
        ghost var more := left.rest;
        var key, raw := ReadField(left.tag, left.value, left.after, AfterField(more));
        SetFirst(obj.fields, Field(key, raw), Members(more));
        obj.SetField(key, raw);
        SkipComma(more);
        left := more;
      }
    }

    method SkipComma(ghost more: Items)
      requires At(AfterField(more)) && ItemsWellFormed(more, true)
      modifies this
      ensures At(FromName(more))
    {
      if text[i] == COMMA {
        assert text[i + 1..] == text[i..][1..] == EmitItems(more, [RBRACE]);
        i := i + 1;
        SkipWs(more.before, FromName(more));
      }
    }

    lemma SliceBefore(start: nat)
      requires start <= i <= |text|
      ensures text[start..] == text[start..i] + text[i..]
    {
    }
  }

  lemma SetFirst(fields: seq<Field<Text, Text>>, first: Field<Text, Text>, rest: seq<Field<Text, Text>>)
    ensures SetAll(Set(fields, first.key, first.value), rest) == SetAll(fields, [first] + rest)
  {
    SetAllAppend(fields, [first], rest);
    assert [first][..0] == [];
  }

  /** A slice before `left` of a value's text and what follows it is the value's text. */
  lemma ReadExactly(slice: Text, v: Json, read: Text, left: Text, rest: Text)
    requires WellFormed(v) && IsWs(read) && rest == read + left && slice + left == Emit(v, rest)
    ensures Trim(slice) == Render(v)
  {
    EmitIsRender(v, rest);
    Assoc(Render(v), read, left);
    SameFront(slice, Render(v) + read, left);
    TrimIs([], v, read);
    assert [] + (Render(v) + read) == slice;
  }

  lemma SameFront(a: Text, b: Text, tail: Text)
    requires a + tail == b + tail
    ensures a == b
  {
    assert |a + tail| == |b + tail|;
    assert a == (a + tail)[..|a|];
    assert b == (b + tail)[..|b|];
  }

  lemma QuotedIs(raw: Text, body: Text, tail: Text)
    requires raw + tail == Quoted(body, tail)
    ensures |raw| == |body| + 2 && raw[1..|raw| - 1] == body
  {
    assert Quoted(body, tail) == ([QUOTE] + body + [QUOTE]) + tail;
    SameFront(raw, [QUOTE] + body + [QUOTE], tail);
  }

  // ---- Whole texts ---------------------------------------------------------------------------------

  datatype RootType = RootObject | RootArray | RootText | RootTrue | RootFalse | RootNull | RootNumber

  function RootTypeOf(trimmed: Text): RootType
    requires trimmed != []
  {
    var u := trimmed[0];
    if u == LBRACE then RootObject else if u == LBRACKET then RootArray else if u == QUOTE then RootText
    else if u == TRUE_TEXT[0] then RootTrue else if u == FALSE_TEXT[0] then RootFalse
    else if u == NULL_TEXT[0] then RootNull else RootNumber
  }

  /** The kind of a value, read off its tree. */
  function KindOfTree(v: Json): RootType {
    match v
    case Str(_) => RootText
    case Compound(isObject, _, _) => if isObject then RootObject else RootArray
    case Lit(text) =>
      if text == TRUE_TEXT then RootTrue else if text == FALSE_TEXT then RootFalse
      else if text == NULL_TEXT then RootNull else RootNumber
  }

  /** The first character tells the kind of any well-formed value. */
  lemma FirstUnitTellsKind(v: Json)
    requires WellFormed(v)
    ensures Render(v) != [] && RootTypeOf(Render(v)) == KindOfTree(v)
  {
    if v.Lit? {
      assert Render(v) == v.text;
    }
  }

  datatype Malformed = Malformed

  datatype Parsed = Parsed(fields: Option<JsonObject<Text, Text>>, root: RootType)

  /**
   * Malformed text is refused (`valid` is the platform parser's verdict). For any other text the
   * result is read off its tree: the ghost arguments are whatever tree the text has.
   */
  method ParseJsonObject(text: Text, valid: bool, ghost lead: Text, ghost v: Json, ghost trail: Text)
    returns (r: Result<Parsed, Malformed>)
    requires valid <==> IsJsonText(text)
    requires valid ==> IsTextOf(text, lead, v, trail)
    ensures r.Ok? <==> valid
    ensures valid ==> r.value.root == KindOfTree(v)
    ensures valid ==> (r.value.fields.Some? <==> v.Compound? && v.isObject)
    ensures valid && r.value.fields.Some? ==>
              fresh(r.value.fields.value) && r.value.fields.value.fields == SetAll([], Members(v.items))
  {
    if !valid {
      return Err(Malformed);
    }
    var trimmed := Trim(text);
    EmitIsRender(v, trail);
    TrimIs(lead, v, trail);
    FirstUnitTellsKind(v);
    var root := RootTypeOf(trimmed);
    if root != RootObject {
      return Ok(Parsed(None, root));
    }
    var scanner := new Scanner(trimmed, 1);
    assert [RBRACE] + [] == [RBRACE];
    assert trimmed[1..] == if v.items.Nil? then v.pad + [RBRACE] else EmitItems(v.items, [RBRACE]);
    var obj := scanner.ReadFields(v.pad, v.items);
    return Ok(Parsed(Some(obj), root));
  }
}
