/** JSON paths that address one top-level field, whatever characters its name holds. */
module FieldPath {
  /** strings.ReplaceAll with a one-character pattern. */
  function ReplaceAll(s: string, c: char, sub: string): string {
    if s == [] then [] else (if s[0] == c then sub else [s[0]]) + ReplaceAll(s[1..], c, sub)
  }

  /** Two passes: backslashes first, then quotes. */
  function HashPath(field: string): string {
    "$.\"" + ReplaceAll(ReplaceAll(field, '\\', "\\\\"), '"', "\\\"") + "\""
  }

  /** One pass, character by character. */
  function Escape(field: string): string {
    if field == [] then []
    else EscapedChar(field[0]) + Escape(field[1..])
  }

  function EscapedChar(c: char): string {
    if c == '\\' || c == '"' then ['\\', c] else [c]
  }

  /** What stands before the first unescaped quote, unescaped, and where that quote is. */
  function ReadLabel(s: string): (string, int)
    decreases |s|
  {
    if s == [] then ([], -1)
    else if s[0] == '"' then ([], 0)
    else if s[0] == '\\' && |s| > 1 then
      var (rest, n) := ReadLabel(s[2..]);
      ([s[1]] + rest, if n < 0 then -1 else n + 2)
    else
      var (rest, n) := ReadLabel(s[1..]);
      ([s[0]] + rest, if n < 0 then -1 else n + 1)
  }

  lemma {:induction false} TwoPassesAreOne(field: string)
    ensures ReplaceAll(ReplaceAll(field, '\\', "\\\\"), '"', "\\\"") == Escape(field)
  {
    if field != [] {
      TwoPassesAreOne(field[1..]);
      var first := if field[0] == '\\' then "\\\\" else [field[0]];
      var rest := ReplaceAll(field[1..], '\\', "\\\\");
      if field[0] == '\\' {
        assert (first + rest)[1..] == ['\\'] + rest;
        assert (['\\'] + rest)[1..] == rest;
      } else {
        assert (first + rest)[1..] == rest;
      }
    }
  }

  /** Reading the label back gives the field, and the quote that ends it is the path's last character. */
  lemma {:induction false} LabelReadsBack(field: string, tail: string)
    ensures ReadLabel(Escape(field) + ("\"" + tail)) == (field, |Escape(field)|)
  {
    var end := "\"" + tail;
    if field == [] {
      assert Escape(field) + end == end;
    } else {
      LabelReadsBack(field[1..], tail);
      var rest := Escape(field[1..]) + end;
      assert Escape(field) + end == EscapedChar(field[0]) + rest;
      assert [field[0]] + field[1..] == field;
    }
  }

  /** A path addresses its own field: no name ends the label early or reaches past it. */
  lemma PathAddressesField(field: string)
    ensures var path := HashPath(field);
            path[..3] == "$.\"" && ReadLabel(path[3..]) == (field, |path| - 4)
  {
    TwoPassesAreOne(field);
    LabelReadsBack(field, "");
    assert "\"" + "" == "\"";
    assert HashPath(field)[3..] == Escape(field) + "\"";
  }

  /** What stands between `$."` and the closing quote of a path. */
  function Label(path: string): string
    requires |path| >= 4
  {
    path[3..|path| - 1]
  }

  lemma LabelIsEscape(field: string)
    ensures |HashPath(field)| >= 4 && Label(HashPath(field)) == Escape(field)
  {
    TwoPassesAreOne(field);
    assert HashPath(field) == "$.\"" + Escape(field) + "\"";
  }

  /** The label is the name with a backslash before each quote and each backslash. */
  lemma LabelOfName(front: string, c: char)
    ensures |HashPath("")| >= 4 && |HashPath(front)| >= 4 && |HashPath(front + [c])| >= 4
    ensures Label(HashPath("")) == ""
    ensures Label(HashPath(front + [c])) == Label(HashPath(front)) + if c == '"' || c == '\\' then ['\\', c] else [c]
  {
    LabelIsEscape("");
    LabelIsEscape(front);
    LabelIsEscape(front + [c]);
    EscapeAppend(front, [c]);
    assert [c][1..] == "" && Escape([c]) == EscapedChar(c);
  }

  lemma {:induction false} EscapeAppend(a: string, b: string)
    ensures Escape(a + b) == Escape(a) + Escape(b)
  {
    if a == [] {
      assert a + b == b;
    } else {
      EscapeAppend(a[1..], b);
      assert (a + b)[1..] == a[1..] + b;
    }
  }

  /** Distinct fields have distinct paths. */
  lemma PathIsInjective(a: string, b: string)
    requires HashPath(a) == HashPath(b)
    ensures a == b
  {
    PathAddressesField(a);
    PathAddressesField(b);
  }

  /** The order of the passes matters: quotes first would escape their own backslashes. */
  lemma OtherOrderIsWrong()
    ensures ReplaceAll(ReplaceAll("\"", '"', "\\\""), '\\', "\\\\") == "\\\\\""
    ensures ReadLabel("\\\\\"" + "\"") == ("\\", 2)
  {
    assert ReplaceAll("\"", '"', "\\\"") == "\\\"";
    assert "\\\""[1..] == "\"";
    var s := "\\\\\"" + "\"";
    assert s[2..] == "\"\"" && s[0] == '\\' && s[1] == '\\';
    assert ReadLabel("\"\"") == ([], 0);
    assert ['\\'] + [] == "\\";
  }
}
