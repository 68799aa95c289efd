/**
 * The compactor: re-emits JSON text without insignificant whitespace, leaving strings untouched. The
 * Node client drops whatever \s matches, the PHP client JSON's four whitespace characters only.
 */
module JsonCompact {
  import opened JsonText

  /** Whitespace to the client: JSON's own when `strict`. */
  predicate Drops(u: Unit, strict: bool) {
    if strict then IsJsonSpace(u) else IsSpace(u)
  }

  /** The rest of the output when `s` is left to read. A backslash keeps the character after it. */
  function Compact(s: Text, inString: bool, strict: bool := false): Text {
    if s == [] then []
    else if inString then
      if s[0] == BACKSLASH then
        if |s| == 1 then [BACKSLASH] else [s[0], s[1]] + Compact(s[2..], true, strict)
      else [s[0]] + Compact(s[1..], s[0] != QUOTE, strict)
    else if s[0] == QUOTE then [QUOTE] + Compact(s[1..], true, strict)
    else if Drops(s[0], strict) then Compact(s[1..], false, strict)
    else [s[0]] + Compact(s[1..], false, strict)
  }

  method CompactJson(text: Text, strict: bool) returns (out: Text)
    ensures out == Compact(text, false, strict)
  {
    out := [];
    var inString := false;
    var i := 0;
    assert text[0..] == text && [] + Compact(text, false, strict) == Compact(text, false, strict);
    while i < |text|
      invariant i <= |text|
      invariant out + Compact(text[i..], inString, strict) == Compact(text, false, strict)
      decreases |text| - i
    {
      var ch := text[i];
      assert text[i..][0] == ch && text[i..][1..] == text[i + 1..];
      if inString {
        if ch == BACKSLASH && i + 1 < |text| {
          assert text[i..][2..] == text[i + 2..] && text[i..][1] == text[i + 1];
          Assoc(out, [ch, text[i + 1]], Compact(text[i + 2..], true, strict));
          assert out + [ch] + [text[i + 1]] == out + [ch, text[i + 1]];
        } else {
          Assoc(out, [ch], Compact(text[i + 1..], ch != QUOTE, strict));
        }
        out := out + [ch];
        if ch == BACKSLASH {
          i := i + 1;
          if i < |text| {
            out := out + [text[i]];
          } else {
            return;
          }
        } else if ch == QUOTE {
          inString := false;
        }
      } else if ch == QUOTE {
        Assoc(out, [ch], Compact(text[i + 1..], true, strict));
        inString := true;
        out := out + [ch];
      } else if !Drops(ch, strict) {
        Assoc(out, [ch], Compact(text[i + 1..], false, strict));
        out := out + [ch];
      }
      i := i + 1;
    }
  }

  // ---- On any text whatever -----------------------------------------------------------------

  /** Compacting twice is compacting once, well-formed or not. */
  lemma {:induction false} CompactIdempotent(s: Text, inString: bool, strict: bool)
    ensures Compact(Compact(s, inString, strict), inString, strict) == Compact(s, inString, strict)
    decreases |s|
  {
    if s != [] {
      if inString && s[0] == BACKSLASH {
        if |s| > 1 {
          CompactIdempotent(s[2..], true, strict);
          assert ([s[0], s[1]] + Compact(s[2..], true, strict))[2..] == Compact(s[2..], true, strict);
        }
      } else {
        var more := if inString then s[0] != QUOTE else s[0] == QUOTE;
        CompactIdempotent(s[1..], more, strict);
        assert ([s[0]] + Compact(s[1..], more, strict))[1..] == Compact(s[1..], more, strict);
      }
    }
  }

  /** The characters inside strings, in order, escapes and closing quotes included. */
  function Inside(s: Text, inString: bool): Text {
    if s == [] then []
    else if !inString then Inside(s[1..], s[0] == QUOTE)
    else if s[0] == BACKSLASH then
      if |s| == 1 then [BACKSLASH] else [s[0], s[1]] + Inside(s[2..], true)
    else [s[0]] + Inside(s[1..], s[0] != QUOTE)
  }

  /** Compacting never changes, adds or drops a character inside a string. */
  lemma {:induction false} CompactKeepsStrings(s: Text, inString: bool, strict: bool)
    ensures Inside(Compact(s, inString, strict), inString) == Inside(s, inString)
    decreases |s|
  {
    if s != [] {
      if inString && s[0] == BACKSLASH {
        if |s| > 1 {
          CompactKeepsStrings(s[2..], true, strict);
          assert ([s[0], s[1]] + Compact(s[2..], true, strict))[2..] == Compact(s[2..], true, strict);
        }
      } else {
        var more := if inString then s[0] != QUOTE else s[0] == QUOTE;
        CompactKeepsStrings(s[1..], more, strict);
        assert ([s[0]] + Compact(s[1..], more, strict))[1..] == Compact(s[1..], more, strict);
      }
    }
  }

  // ---- On well-formed text ----------------------------------------------------------------------

  lemma {:induction false} CompactSealed(body: Text, rest: Text)
    requires Sealed(body)
    ensures Compact(body + ([QUOTE] + rest), true) == body + ([QUOTE] + Compact(rest, false))
    decreases |body|
  {
    var tail := [QUOTE] + rest;
    if body == [] {
      assert body + tail == tail;
      assert tail[1..] == rest;
    } else {
      var k := if body[0] == BACKSLASH then 2 else 1;
      CompactSealed(body[k..], rest);
      assert (body + tail)[k..] == body[k..] + tail;
      assert body == body[..k] + body[k..];
      Assoc(body[..k], body[k..], [QUOTE] + Compact(rest, false));
    }
  }

  lemma {:induction false} CompactKeeps(s: Text, rest: Text)
    requires AllPlain(s) && NoSpace(s)
    ensures Compact(s + rest, false) == s + Compact(rest, false)
  {
    if s == [] {
      assert s + rest == rest;
    } else {
      CompactKeeps(s[1..], rest);
      assert (s + rest)[1..] == s[1..] + rest;
    }
  }

  lemma {:induction false} CompactDrops(ws: Text, rest: Text)
    requires IsWs(ws)
    ensures Compact(ws + rest, false) == Compact(rest, false)
  {
    if ws == [] {
      assert ws + rest == rest;
    } else {
      CompactDrops(ws[1..], rest);
      assert (ws + rest)[1..] == ws[1..] + rest;
    }
  }

  lemma CompactUnit(u: Unit, rest: Text)
    requires u != QUOTE && !IsSpace(u)
    ensures Compact([u] + rest, false) == [u] + Compact(rest, false)
  {
    assert ([u] + rest)[1..] == rest;
  }

  lemma CompactQuoted(body: Text, rest: Text)
    requires IsStringBody(body)
    ensures Compact(Quoted(body, rest), false) == Quoted(body, Compact(rest, false))
  {
    BodyIsSealed(body);
    CompactSealed(body, rest);
    assert Quoted(body, rest)[1..] == body + ([QUOTE] + rest);
  }

  lemma CompactTag(tag: Tag, rest: Text)
    requires TagWellFormed(tag)
    ensures Compact(EmitTag(tag, rest), false) == EmitTag(StripTag(tag), Compact(rest, false))
  {
    if tag.Name? {
      var colon := [COLON] + (tag.gap2 + rest);
      CompactQuoted(tag.body, tag.gap1 + colon);
      CompactDrops(tag.gap1, colon);
      CompactUnit(COLON, tag.gap2 + rest);
      CompactDrops(tag.gap2, rest);
      var out := Compact(rest, false);
      assert [] + out == out && [] + ([COLON] + out) == [COLON] + out;
    }
  }

  /** On a well-formed value the compactor removes exactly the insignificant whitespace. */
  lemma {:induction false} CompactValue(v: Json, rest: Text)
    requires WellFormed(v)
    ensures Compact(Emit(v, rest), false) == Emit(Strip(v), Compact(rest, false))
    decreases v
  {
    match v
    case Str(body) => CompactQuoted(body, rest);
    case Lit(text) =>
      LiteralIsPlain(text);
      CompactKeeps(text, rest);
    case Compound(isObject, pad, items) =>
      var tail := [Close(isObject)] + rest;
      CompactUnit(Close(isObject), rest);
      if items.Nil? {
        CompactDrops(pad, tail);
        CompactUnit(Open(isObject), pad + tail);
        assert [] + Compact(tail, false) == Compact(tail, false);
      } else {
        CompactItems(items, isObject, tail);
        CompactUnit(Open(isObject), EmitItems(items, tail));
      }
  }

  lemma {:induction false} CompactItems(items: Items, named: bool, rest: Text)
    requires ItemsWellFormed(items, named)
    ensures Compact(EmitItems(items, rest), false) == EmitItems(StripItems(items), Compact(rest, false))
    decreases items
  {
    match items
    case Nil =>
    case Cons(before, tag, value, after, more) =>
      var tail := if more.Nil? then rest else [COMMA] + EmitItems(more, rest);
      var text := Emit(value, after + tail);
      CompactDrops(before, EmitTag(tag, text));
      CompactTag(tag, text);
      CompactValue(value, after + tail);
      CompactDrops(after, tail);
      if more.Cons? {
        CompactUnit(COMMA, EmitItems(more, rest));
        CompactItems(more, named, rest);
      }
      var out := Compact(tail, false);
      assert [] + out == out;
      var all := EmitTag(StripTag(tag), Emit(Strip(value), out));
      assert [] + all == all;
  }

  /** A JSON text, whitespace around it included, compacts to its stripped tree's text. */
  lemma CompactText(text: Text, lead: Text, v: Json, trail: Text)
    requires IsTextOf(text, lead, v, trail)
    ensures Compact(text, false) == Render(Strip(v))
  {
    CompactDrops(lead, Emit(v, trail));
    CompactValue(v, trail);
    CompactDrops(trail, []);
    assert trail + [] == trail;
  }
}
