/** The compactors of the Node and the PHP client side by side. */
module JsonTwins {
  import opened JsonText
  import opened JsonCompact

  /** Whitespace that is not JSON's. */
  predicate IsExotic(u: Unit) {
    IsSpace(u) && !IsJsonSpace(u)
  }

  /** How many such characters stand outside strings. */
  function Exotic(s: Text, inString: bool): nat {
    if s == [] then 0
    else if inString then
      if s[0] == BACKSLASH then if |s| == 1 then 0 else Exotic(s[2..], true)
      else Exotic(s[1..], s[0] != QUOTE)
    else (if IsExotic(s[0]) then 1 else 0) + Exotic(s[1..], s[0] == QUOTE)
  }

  lemma {:induction false} LengthsDiffer(s: Text, inString: bool)
    ensures |Compact(s, inString, true)| == |Compact(s, inString)| + Exotic(s, inString)
    ensures Exotic(s, inString) == 0 ==> Compact(s, inString, true) == Compact(s, inString)
    decreases |s|
  {
    if s != [] {
      if inString && s[0] == BACKSLASH {
        if |s| > 1 {
          LengthsDiffer(s[2..], true);
        }
      } else if inString {
        LengthsDiffer(s[1..], s[0] != QUOTE);
      } else {
        LengthsDiffer(s[1..], s[0] == QUOTE);
      }
    }
  }

  /** On any text whatever the two agree exactly when no other whitespace stands outside strings. */
  lemma TwinsAgree(s: Text)
    ensures Compact(s, false, true) == Compact(s, false) <==> Exotic(s, false) == 0
  {
    LengthsDiffer(s, false);
  }

  /** The one-character texts on which they part: whitespace to a regular expression, but not to JSON. */
  lemma TwinsPartOn(u: Unit)
    ensures Compact([u], false, true) != Compact([u], false) <==>
            u in {0x0B, 0x0C, 0xA0, 0x1680, 0x2028, 0x2029, 0x202F, 0x205F, 0x3000, 0xFEFF} || 0x2000 <= u <= 0x200A
  {
    assert [u][1..] == [];
    LengthsDiffer([u], false);
  }

  lemma {:induction false} ExoticSealed(body: Text, rest: Text)
    requires Sealed(body)
    ensures Exotic(body + ([QUOTE] + rest), true) == Exotic(rest, false)
    decreases |body|
  {
    var tail := [QUOTE] + rest;
    if body == [] {
      assert body + tail == tail && tail[1..] == rest;
    } else {
      var k := if body[0] == BACKSLASH then 2 else 1;
      ExoticSealed(body[k..], rest);
      assert (body + tail)[k..] == body[k..] + tail;
    }
  }

  lemma {:induction false} ExoticSkips(s: Text, rest: Text)
    requires forall i :: 0 <= i < |s| ==> s[i] != QUOTE && !IsExotic(s[i])
    ensures Exotic(s + rest, false) == Exotic(rest, false)
  {
    if s == [] {
      assert s + rest == rest;
    } else {
      ExoticSkips(s[1..], rest);
      assert (s + rest)[1..] == s[1..] + rest;
    }
  }

  lemma ExoticQuoted(body: Text, rest: Text)
    requires IsStringBody(body)
    ensures Exotic(Quoted(body, rest), false) == Exotic(rest, false)
  {
    BodyIsSealed(body);
    ExoticSealed(body, rest);
    assert Quoted(body, rest)[1..] == body + ([QUOTE] + rest);
  }

  lemma ExoticTag(tag: Tag, rest: Text)
    requires TagWellFormed(tag)
    ensures Exotic(EmitTag(tag, rest), false) == Exotic(rest, false)
  {
    if tag.Name? {
      var colon := [COLON] + (tag.gap2 + rest);
      ExoticQuoted(tag.body, tag.gap1 + colon);
      ExoticSkips(tag.gap1, colon);
      ExoticSkips([COLON], tag.gap2 + rest);
      ExoticSkips(tag.gap2, rest);
    }
  }

  lemma {:induction false} ExoticValue(v: Json, rest: Text)
    requires WellFormed(v)
    ensures Exotic(Emit(v, rest), false) == Exotic(rest, false)
    decreases v
  {
    match v
    case Str(body) => ExoticQuoted(body, rest);
    case Lit(text) =>
      LiteralIsPlain(text);
      ExoticSkips(text, rest);
    case Compound(isObject, pad, items) =>
      var tail := [Close(isObject)] + rest;
      ExoticSkips([Close(isObject)], rest);
      if items.Nil? {
        ExoticSkips(pad, tail);
        ExoticSkips([Open(isObject)], pad + tail);
      } else {
        ExoticItems(items, isObject, tail);
        ExoticSkips([Open(isObject)], EmitItems(items, tail));
      }
  }

  lemma {:induction false} ExoticItems(items: Items, named: bool, rest: Text)
    requires ItemsWellFormed(items, named)
    ensures Exotic(EmitItems(items, rest), false) == Exotic(rest, false)
    decreases items
  {
    match items
    case Nil =>
    case Cons(before, tag, value, after, more) =>
      var tail := if more.Nil? then rest else [COMMA] + EmitItems(more, rest);
      var text := Emit(value, after + tail);
      ExoticSkips(before, EmitTag(tag, text));
      ExoticTag(tag, text);
      ExoticValue(value, after + tail);
      ExoticSkips(after, tail);
      if more.Cons? {
        ExoticSkips([COMMA], EmitItems(more, rest));
        ExoticItems(more, named, rest);
      }
  }

  /** On JSON texts they always agree, so both clients compact a value to the same text. */
  lemma TwinsAgreeOnJson(text: Text)
    requires IsJsonText(text)
    ensures Compact(text, false, true) == Compact(text, false)
  {
    var lead, v, trail :| IsTextOf(text, lead, v, trail);
    ExoticSkips(lead, Emit(v, trail));
    ExoticValue(v, trail);
    ExoticSkips(trail, []);
    assert trail + [] == trail;
    TwinsAgree(text);
  }
}
