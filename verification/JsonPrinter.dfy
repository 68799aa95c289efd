/** Writing an object's fields back as JSON text, and the round trip through the scanner. */
module JsonPrinter {
  import opened Prelude
  import opened JsonText
  import opened JsonString
  import opened JsonCompact
  import opened JsonScanner
  import opened OrderedFields

  type Fields = seq<Field<Text, Text>>

  /** `"key":value`, the value compacted. */
  function FieldText(f: Field<Text, Text>): Text {
    [QUOTE] + Escape(f.key) + [QUOTE, COLON] + Compact(f.value, false)
  }

  function Joined(parts: seq<Text>): Text {
    if parts == [] then []
    else parts[0] + if |parts| == 1 then [] else [COMMA] + Joined(parts[1..])
  }

  function Parts(fields: Fields): seq<Text> {
    seq(|fields|, n requires 0 <= n < |fields| => FieldText(fields[n]))
  }

  method ToJson(fields: Fields) returns (out: Text)
    ensures out == [LBRACE] + Joined(Parts(fields)) + [RBRACE]
  {
    var parts := [];
    for n := 0 to |fields|
      invariant parts == Parts(fields)[..n]
    {
      var value := CompactJson(fields[n].value, false);
      parts := parts + [[QUOTE] + Escape(fields[n].key) + [QUOTE, COLON] + value];
    }
    assert parts == Parts(fields);
    return [LBRACE] + Joined(parts) + [RBRACE];
  }

  // ---- The tree behind the text ---------------------------------------------------------------

  /** Every field's value is one JSON text: `trees[n]` is the tree of field n. */
  ghost predicate ValuesAre(fields: Fields, trees: seq<Json>) {
    |trees| == |fields| && forall n :: 0 <= n < |fields| ==> IsValueOf(fields[n].value, trees[n])
  }

  ghost predicate IsValueOf(text: Text, v: Json) {
    exists lead, trail :: IsTextOf(text, lead, v, trail)
  }

  /** The object that ToJson writes, as a tree. */
  function ItemsOf(fields: Fields, trees: seq<Json>): Items
    requires |trees| == |fields|
  {
    if fields == [] then Nil
    else Cons([], Name(Escape(fields[0].key), [], []), Strip(trees[0]), [], ItemsOf(fields[1..], trees[1..]))
  }

  function Compacted(fields: Fields): Fields {
    seq(|fields|, n requires 0 <= n < |fields| => Field(fields[n].key, Compact(fields[n].value, false)))
  }

  lemma ValueText(text: Text, v: Json)
    requires IsValueOf(text, v)
    ensures WellFormed(v) && Compact(text, false) == Render(Strip(v)) && WellFormed(Strip(v))
  {
    var lead, trail :| IsTextOf(text, lead, v, trail);
    CompactText(text, lead, v, trail);
    StripWellFormed(v);
  }

  lemma {:induction false} ItemsAreWellFormed(fields: Fields, trees: seq<Json>)
    requires ValuesAre(fields, trees)
    ensures ItemsWellFormed(ItemsOf(fields, trees), true)
    ensures Members(ItemsOf(fields, trees)) == Compacted(fields)
    decreases |fields|
  {
    if fields != [] {
      ValueText(fields[0].value, trees[0]);
      StringRoundTrip(fields[0].key);
      ItemsAreWellFormed(fields[1..], trees[1..]);
      OneMoreItem(Escape(fields[0].key), Strip(trees[0]), ItemsOf(fields[1..], trees[1..]));
      CompactedFirst(fields);
    }
  }

  lemma OneMoreItem(name: Text, v: Json, rest: Items)
    requires IsStringBody(name) && WellFormed(v) && ItemsWellFormed(rest, true)
    ensures var items := Cons([], Name(name, [], []), v, [], rest);
            ItemsWellFormed(items, true) && Members(items) == [Field(Unescape(name), Render(v))] + Members(rest)
  {
  }

  lemma CompactedFirst(fields: Fields)
    requires fields != []
    ensures Compacted(fields) == [Field(fields[0].key, Compact(fields[0].value, false))] + Compacted(fields[1..])
  {
  }

  lemma {:induction false} JoinedIsItems(fields: Fields, trees: seq<Json>, rest: Text)
    requires ValuesAre(fields, trees)
    ensures Joined(Parts(fields)) + rest == EmitItems(ItemsOf(fields, trees), rest)
    decreases |fields|
  {
    if fields == [] {
      assert [] + rest == rest;
    } else {
      ValueText(fields[0].value, trees[0]);
      JoinedIsItems(fields[1..], trees[1..], rest);
      assert Parts(fields)[1..] == Parts(fields[1..]);
      assert ItemsOf(fields[1..], trees[1..]).Nil? <==> |fields| == 1;
      var more := Joined(Parts(fields[1..]));
      FieldEmits(fields[0], trees[0], if |fields| == 1 then rest else [COMMA] + (more + rest));
      JoinStep(FieldText(fields[0]), more, |fields| == 1, rest);
    }
  }

  lemma JoinStep(first: Text, more: Text, isLast: bool, rest: Text)
    ensures (first + if isLast then [] else [COMMA] + more) + rest
        == first + if isLast then rest else [COMMA] + (more + rest)
  {
    if !isLast {
      Assoc([COMMA], more, rest);
      Assoc(first, [COMMA] + more, rest);
    }
  }

  lemma FieldEmits(f: Field<Text, Text>, v: Json, tail: Text)
    requires IsValueOf(f.value, v)
    ensures FieldText(f) + tail == [] + EmitTag(Name(Escape(f.key), [], []), Emit(Strip(v), [] + tail))
  {
    ValueText(f.value, v);
    EmitIsRender(Strip(v), tail);
    assert [] + tail == tail;
    FieldShape(Escape(f.key), Render(Strip(v)), tail);
  }

  lemma FieldShape(name: Text, value: Text, tail: Text)
    ensures [QUOTE] + name + [QUOTE, COLON] + value + tail
            == [] + EmitTag(Name(name, [], []), value + tail)
  {
    var rest := value + tail;
    var colon := [COLON] + rest;
    assert [] + rest == rest && [] + colon == colon;
    assert [QUOTE, COLON] + value + tail == [QUOTE] + colon;
    assert [QUOTE] + name + [QUOTE, COLON] + value + tail == [QUOTE] + (name + ([QUOTE, COLON] + value + tail));
  }

  /** What ToJson writes is a well-formed object: the fields in order, each value stripped of whitespace. */
  lemma WrittenTextIsJson(fields: Fields, trees: seq<Json>, out: Text)
    requires ValuesAre(fields, trees) && out == [LBRACE] + Joined(Parts(fields)) + [RBRACE]
    ensures var v := Compound(true, [], ItemsOf(fields, trees));
            IsTextOf(out, [], v, []) && Members(v.items) == Compacted(fields)
  {
    var v := Compound(true, [], ItemsOf(fields, trees));
    var tail := [RBRACE];
    assert tail + [] == tail && [] + tail == tail;
    ItemsAreWellFormed(fields, trees);
    JoinedIsItems(fields, trees, tail);
    Assoc([LBRACE], Joined(Parts(fields)), tail);
    assert [] + Emit(v, []) == Emit(v, []);
  }

  lemma {:induction false} SettingUniqueFields(fields: Fields)
    requires UniqueKeys(fields)
    ensures SetAll([], fields) == fields
    decreases |fields|
  {
    if fields != [] {
      var front := fields[..|fields| - 1];
      SettingUniqueFields(front);
      IndexOfShape(front, fields[|fields| - 1].key);
      assert fields == front + [fields[|fields| - 1]];
    }
  }

  /**
   * Writing an object and parsing the text gives its keys back in order, each with its value
   * compacted, whatever characters keys and strings hold.
   */
  method Reload(fields: Fields, ghost trees: seq<Json>) returns (again: JsonObject<Text, Text>)
    requires ValuesAre(fields, trees) && UniqueKeys(fields)
    ensures again.fields == Compacted(fields)
  {
    var out := ToJson(fields);
    WrittenTextIsJson(fields, trees, out);
    assert UniqueKeys(Compacted(fields));
    SettingUniqueFields(Compacted(fields));
    var parsed := ParseJsonObject(out, true, [], Compound(true, [], ItemsOf(fields, trees)), []);
    again := parsed.value.fields.value;
  }

  /** From then on the object no longer changes: its values are compact already. */
  lemma ReloadedIsStable(fields: Fields)
    ensures Compacted(Compacted(fields)) == Compacted(fields)
  {
    forall n | 0 <= n < |fields|
      ensures Compact(Compact(fields[n].value, false), false) == Compact(fields[n].value, false)
    {
      CompactIdempotent(fields[n].value, false, false);
    }
  }
}
