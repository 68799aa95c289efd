/** Splitting a REPL line into arguments, with single and double quotes. */
module ReplTokens {
  import opened Prelude

  datatype Mode = Plain | InSingle | InDouble

  predicate IsGap(c: char) {
    c == ' ' || c == '\t'
  }

  predicate Escapable(c: char) {
    c == '"' || c == '\\'
  }

  /** The arguments still to come when `s` is left to read; None when a quote is never closed. */
  function Split(s: string, mode: Mode, cur: string, hasCur: bool): Option<seq<string>>
    decreases |s|
  {
    if s == [] then
      if mode != Plain then None else Some(if hasCur then [cur] else [])
    else
      match mode
      case InSingle =>
        if s[0] == '\'' then Split(s[1..], Plain, cur, hasCur) else Split(s[1..], InSingle, cur + [s[0]], hasCur)
      case InDouble =>
        if s[0] == '"' then Split(s[1..], Plain, cur, hasCur)
        else if s[0] == '\\' && |s| > 1 && Escapable(s[1]) then Split(s[2..], InDouble, cur + [s[1]], hasCur)
        else Split(s[1..], InDouble, cur + [s[0]], hasCur)
      case Plain =>
        if s[0] == '\'' then Split(s[1..], InSingle, cur, true)
        else if s[0] == '"' then Split(s[1..], InDouble, cur, true)
        else if IsGap(s[0]) then
          if hasCur then Prepend([cur], Split(s[1..], Plain, "", false)) else Split(s[1..], Plain, cur, false)
        else Split(s[1..], Plain, cur + [s[0]], true)
  }

  function Prepend(args: seq<string>, rest: Option<seq<string>>): Option<seq<string>> {
    if rest.None? then None else Some(args + rest.value)
  }

  method SplitArgs(line: string) returns (r: Option<seq<string>>)
    ensures r == Split(line, Plain, "", false)
  {
    var args, cur, hasCur, mode := [], "", false, Plain;
    var i := 0;
    ghost var whole := Split(line, Plain, "", false);
    assert line[0..] == line && (whole.Some? ==> [] + whole.value == whole.value);
    while i < |line|
      invariant i <= |line|
      invariant Prepend(args, Split(line[i..], mode, cur, hasCur)) == Split(line, Plain, "", false)
      decreases |line| - i
    {
      var ch := line[i];
      assert line[i..][0] == ch && line[i..][1..] == line[i + 1..];
      match mode {
        case InSingle =>
          if ch == '\'' {
            mode := Plain;
          } else {
            cur := cur + [ch];
          }
        case InDouble =>
          if ch == '"' {
            mode := Plain;
          } else if ch == '\\' && i + 1 < |line| && Escapable(line[i + 1]) {
            assert line[i..][2..] == line[i + 2..] && line[i..][1] == line[i + 1];
            i := i + 1;
            cur := cur + [line[i]];
          } else {
            cur := cur + [ch];
          }
        case Plain =>
          if ch == '\'' {
            mode, hasCur := InSingle, true;
          } else if ch == '"' {
            mode, hasCur := InDouble, true;
          } else if IsGap(ch) {
            if hasCur {
              ghost var rest := Split(line[i + 1..], Plain, "", false);
              assert rest.Some? ==> args + ([cur] + rest.value) == (args + [cur]) + rest.value;
              args := args + [cur];
              cur := "";
              hasCur := false;
            }
          } else {
            cur := cur + [ch];
            hasCur := true;
          }
      }
      i := i + 1;
    }
    if mode != Plain {
      return None;
    }
    if hasCur {
      args := args + [cur];
    } else {
      assert args + [] == args;
    }
    return Some(args);
  }

  // ---- When it fails ------------------------------------------------------------------------------

  /** What follows the quote that ends single-quoted text. */
  function AfterSingle(s: string): (r: Option<string>)
    ensures r.Some? ==> |r.value| < |s|
  {
    if s == [] then None else if s[0] == '\'' then Some(s[1..]) else AfterSingle(s[1..])
  }

  /** What follows the quote that ends double-quoted text: the first that no backslash escapes. */
  function AfterDouble(s: string): (r: Option<string>)
    ensures r.Some? ==> |r.value| < |s|
    decreases |s|
  {
    if s == [] then None
    else if s[0] == '"' then Some(s[1..])
    else if s[0] == '\\' && |s| > 1 && Escapable(s[1]) then AfterDouble(s[2..])
    else AfterDouble(s[1..])
  }

  /** Every quote that opens is closed. */
  predicate Balanced(s: string)
    decreases |s|
  {
    if s == [] then true
    else if s[0] == '\'' then AfterSingle(s[1..]).Some? && Balanced(AfterSingle(s[1..]).value)
    else if s[0] == '"' then AfterDouble(s[1..]).Some? && Balanced(AfterDouble(s[1..]).value)
    else Balanced(s[1..])
  }

  predicate BalancedFrom(s: string, mode: Mode) {
    match mode
    case Plain => Balanced(s)
    case InSingle => AfterSingle(s).Some? && Balanced(AfterSingle(s).value)
    case InDouble => AfterDouble(s).Some? && Balanced(AfterDouble(s).value)
  }

  /** Splitting fails exactly when some quote is never closed. */
  lemma {:induction false} FailsOnOpenQuote(s: string, mode: Mode, cur: string, hasCur: bool)
    ensures Split(s, mode, cur, hasCur).None? <==> !BalancedFrom(s, mode)
    decreases |s|
  {
    if s != [] {
      match mode
      case InSingle =>
        FailsOnOpenQuote(s[1..], if s[0] == '\'' then Plain else InSingle,
                         if s[0] == '\'' then cur else cur + [s[0]], hasCur);
      case InDouble =>
        if s[0] == '"' {
          FailsOnOpenQuote(s[1..], Plain, cur, hasCur);
        } else if s[0] == '\\' && |s| > 1 && Escapable(s[1]) {
          FailsOnOpenQuote(s[2..], InDouble, cur + [s[1]], hasCur);
        } else {
          FailsOnOpenQuote(s[1..], InDouble, cur + [s[0]], hasCur);
        }
      case Plain =>
        if s[0] == '\'' {
          FailsOnOpenQuote(s[1..], InSingle, cur, true);
        } else if s[0] == '"' {
          FailsOnOpenQuote(s[1..], InDouble, cur, true);
        } else if IsGap(s[0]) {
          FailsOnOpenQuote(s[1..], Plain, if hasCur then "" else cur, false);
        } else {
          FailsOnOpenQuote(s[1..], Plain, cur + [s[0]], true);
        }
    }
  }

  // ---- What it reads ------------------------------------------------------------------------------

  /** A word is made of bare characters and quoted stretches in any order. */
  datatype Piece = Bare(c: char) | Single(text: string) | Double(raw: string)

  type Word = seq<Piece>

  /** Between double quotes: no unescaped quote, and no backslash that would escape the closing one. */
  predicate IsDoubleBody(raw: string)
    decreases |raw|
  {
    if raw == [] then true
    else if raw[0] == '"' then false
    else if raw[0] == '\\' then |raw| > 1 && IsDoubleBody(if Escapable(raw[1]) then raw[2..] else raw[1..])
    else IsDoubleBody(raw[1..])
  }

  /** A backslash before a quote or a backslash goes; any other backslash stays. */
  function Decoded(raw: string): string
    decreases |raw|
  {
    if raw == [] then []
    else if raw[0] == '\\' && |raw| > 1 && Escapable(raw[1]) then [raw[1]] + Decoded(raw[2..])
    else [raw[0]] + Decoded(raw[1..])
  }

  predicate IsPiece(p: Piece) {
    match p
    case Bare(c) => c != '\'' && c != '"' && !IsGap(c)
    case Single(text) => '\'' !in text
    case Double(raw) => IsDoubleBody(raw)
  }

  function PieceText(p: Piece, rest: string): string {
    match p
    case Bare(c) => [c] + rest
    case Single(text) => "'" + (text + ("'" + rest))
    case Double(raw) => "\"" + (raw + ("\"" + rest))
  }

  function PieceValue(p: Piece): string {
    match p
    case Bare(c) => [c]
    case Single(text) => text
    case Double(raw) => Decoded(raw)
  }

  function WordText(w: Word, rest: string): string {
    if w == [] then rest else PieceText(w[0], WordText(w[1..], rest))
  }

  function WordValue(w: Word): string {
    if w == [] then [] else PieceValue(w[0]) + WordValue(w[1..])
  }

  ghost predicate IsWord(w: Word) {
    w != [] && forall p :: p in w ==> IsPiece(p)
  }

  ghost predicate IsBlank(gap: string) {
    forall i :: 0 <= i < |gap| ==> IsGap(gap[i])
  }

  /** Words with gaps: `gaps[n]` follows word n, and only the last may be empty. */
  ghost predicate IsRow(words: seq<Word>, gaps: seq<string>) {
    && |gaps| == |words|
    && (forall n :: 0 <= n < |words| ==> IsWord(words[n]))
    && (forall n :: 0 <= n < |gaps| ==> IsBlank(gaps[n]))
    && (forall n :: 0 <= n < |gaps| - 1 ==> gaps[n] != [])
  }

  function RowText(words: seq<Word>, gaps: seq<string>): string
    requires |gaps| == |words|
  {
    if words == [] then [] else WordText(words[0], gaps[0] + RowText(words[1..], gaps[1..]))
  }

  function Values(words: seq<Word>): seq<string> {
    if words == [] then [] else [WordValue(words[0])] + Values(words[1..])
  }

  lemma {:induction false} SingleRun(text: string, rest: string, cur: string, hasCur: bool)
    requires '\'' !in text
    ensures Split(text + ("'" + rest), InSingle, cur, hasCur) == Split(rest, Plain, cur + text, hasCur)
    decreases |text|
  {
    var tail := "'" + rest;
    if text == [] {
      assert text + tail == tail && tail[1..] == rest && cur + text == cur;
    } else {
      SingleRun(text[1..], rest, cur + [text[0]], hasCur);
      assert (text + tail)[1..] == text[1..] + tail;
      assert cur + [text[0]] + text[1..] == cur + text;
    }
  }

  lemma {:induction false} DoubleRun(raw: string, rest: string, cur: string, hasCur: bool)
    requires IsDoubleBody(raw)
    ensures Split(raw + ("\"" + rest), InDouble, cur, hasCur) == Split(rest, Plain, cur + Decoded(raw), hasCur)
    decreases |raw|
  {
    var tail := "\"" + rest;
    var s := raw + tail;
    if raw == [] {
      assert s == tail && tail[1..] == rest && cur + [] == cur;
    } else if raw[0] == '\\' && Escapable(raw[1]) {
      DoubleRun(raw[2..], rest, cur + [raw[1]], hasCur);
      assert s[2..] == raw[2..] + tail && s[1] == raw[1];
      assert cur + [raw[1]] + Decoded(raw[2..]) == cur + Decoded(raw);
    } else {
      DoubleRun(raw[1..], rest, cur + [raw[0]], hasCur);
      assert s[1..] == raw[1..] + tail && (|raw| > 1 ==> s[1] == raw[1]);
      assert cur + [raw[0]] + Decoded(raw[1..]) == cur + Decoded(raw);
    }
  }

  lemma PieceRun(p: Piece, rest: string, cur: string, hasCur: bool)
    requires IsPiece(p)
    ensures Split(PieceText(p, rest), Plain, cur, hasCur) == Split(rest, Plain, cur + PieceValue(p), true)
  {
    match p
    case Bare(c) =>
      assert ([c] + rest)[1..] == rest;
    case Single(text) =>
      SingleRun(text, rest, cur, true);
      assert PieceText(p, rest)[1..] == text + ("'" + rest);
    case Double(raw) =>
      DoubleRun(raw, rest, cur, true);
      assert PieceText(p, rest)[1..] == raw + ("\"" + rest);
  }

  lemma {:induction false} WordRun(w: Word, rest: string, cur: string, hasCur: bool)
    requires forall p :: p in w ==> IsPiece(p)
    ensures Split(WordText(w, rest), Plain, cur, hasCur) == Split(rest, Plain, cur + WordValue(w), hasCur || w != [])
  {
    if w == [] {
      assert cur + [] == cur;
    } else {
      PieceRun(w[0], WordText(w[1..], rest), cur, hasCur);
      WordRun(w[1..], rest, cur + PieceValue(w[0]), true);
      assert cur + PieceValue(w[0]) + WordValue(w[1..]) == cur + WordValue(w);
    }
  }

  lemma {:induction false} GapRun(gap: string, rest: string)
    requires IsBlank(gap)
    ensures Split(gap + rest, Plain, "", false) == Split(rest, Plain, "", false)
  {
    if gap == [] {
      assert gap + rest == rest;
    } else {
      GapRun(gap[1..], rest);
      assert (gap + rest)[1..] == gap[1..] + rest;
    }
  }

  lemma GapEndsWord(gap: string, rest: string, value: string)
    requires gap != [] && IsBlank(gap)
    ensures Split(gap + rest, Plain, value, true) == Prepend([value], Split(rest, Plain, "", false))
  {
    assert IsGap(gap[0]);
    GapRun(gap[1..], rest);
    assert (gap + rest)[1..] == gap[1..] + rest;
  }

  lemma {:induction false} SplitsRow(words: seq<Word>, gaps: seq<string>)
    requires IsRow(words, gaps)
    ensures Split(RowText(words, gaps), Plain, "", false) == Some(Values(words))
    decreases |words|
  {
    if words != [] {
      var more := RowText(words[1..], gaps[1..]);
      assert IsWord(words[0]) && IsBlank(gaps[0]);
      SplitsRow(words[1..], gaps[1..]);
      var value := WordValue(words[0]);
      WordRun(words[0], gaps[0] + more, "", false);
      assert "" + value == value;
      if gaps[0] == [] {
        assert words[1..] == [] && gaps[0] + more == [];
        assert [value] + [] == [value];
      } else {
        GapEndsWord(gaps[0], more, value);
      }
    }
  }

  /** A whole line: blanks, then words with gaps. */
  ghost predicate IsLine(line: string, lead: string, words: seq<Word>, gaps: seq<string>) {
    IsBlank(lead) && IsRow(words, gaps) && line == lead + RowText(words, gaps)
  }

  /**
   * A line is split into exactly its words' values: quotes group, text in single quotes is literal, and
   * only \" and \\ are escapes, only between double quotes.
   */
  lemma SplitsLine(line: string, lead: string, words: seq<Word>, gaps: seq<string>)
    requires IsLine(line, lead, words, gaps)
    ensures Split(line, Plain, "", false) == Some(Values(words))
  {
    GapRun(lead, RowText(words, gaps));
    SplitsRow(words, gaps);
  }

  // ---- Every line without an open quote is such a line -------------------------------------------------

  lemma {:induction false} SingleStretch(s: string) returns (text: string)
    requires AfterSingle(s).Some?
    ensures '\'' !in text && s == text + ("'" + AfterSingle(s).value)
    decreases |s|
  {
    if s[0] == '\'' {
      text := "";
      assert s == text + ("'" + s[1..]);
    } else {
      var more := SingleStretch(s[1..]);
      text := [s[0]] + more;
      assert s == [s[0]] + s[1..];
    }
  }

  lemma {:induction false} DoubleStretch(s: string) returns (raw: string)
    requires AfterDouble(s).Some?
    ensures IsDoubleBody(raw) && s == raw + ("\"" + AfterDouble(s).value)
    decreases |s|
  {
    if s[0] == '"' {
      raw := "";
      assert s == raw + ("\"" + s[1..]);
    } else if s[0] == '\\' && |s| > 1 && Escapable(s[1]) {
      var more := DoubleStretch(s[2..]);
      raw := [s[0], s[1]] + more;
      assert raw[2..] == more;
      assert s == [s[0], s[1]] + s[2..];
    } else {
      var more := DoubleStretch(s[1..]);
      raw := [s[0]] + more;
      assert raw[1..] == more;
      assert s == [s[0]] + s[1..];
      assert s[0] == '\\' ==> |s| > 1 && !Escapable(s[1]) && |more| > 0 && more[0] == s[1];
    }
  }

  /** The first piece of a line that starts with one, and what follows it. */
  lemma FirstPiece(s: string) returns (p: Piece, rest: string)
    requires Balanced(s) && s != [] && !IsGap(s[0])
    ensures IsPiece(p) && Balanced(rest) && |rest| < |s| && s == PieceText(p, rest)
  {
    assert s == [s[0]] + s[1..];
    if s[0] == '\'' {
      rest := AfterSingle(s[1..]).value;
      var text := SingleStretch(s[1..]);
      p := Single(text);
    } else if s[0] == '"' {
      rest := AfterDouble(s[1..]).value;
      var raw := DoubleStretch(s[1..]);
      p := Double(raw);
    } else {
      rest := s[1..];
      p := Bare(s[0]);
    }
  }

  /** A piece before a line starts a new word, or lengthens the first one. */
  lemma PieceBeforeLine(p: Piece, rest: string, lead: string, words: seq<Word>, gaps: seq<string>)
    returns (words': seq<Word>, gaps': seq<string>)
    requires IsPiece(p) && IsLine(rest, lead, words, gaps)
    ensures IsLine(PieceText(p, rest), "", words', gaps')
  {
    if lead == [] && words != [] {
      var w := [p] + words[0];
      words', gaps' := [w] + words[1..], gaps;
      assert lead + RowText(words, gaps) == RowText(words, gaps);
      assert w[1..] == words[0] && words'[1..] == words[1..];
      assert IsWord(words[0]);
    } else {
      words', gaps' := [[p]] + words, [lead] + gaps;
      assert [p][1..] == [];
      OneMoreWord([p], lead, words, gaps);
    }
    assert "" + RowText(words', gaps') == RowText(words', gaps');
  }

  /** Every line in which each quote is closed is made of blanks, words and gaps. */
  lemma {:induction false} EveryLineHasWords(line: string) returns (lead: string, words: seq<Word>, gaps: seq<string>)
    requires Balanced(line)
    ensures IsLine(line, lead, words, gaps)
    decreases |line|
  {
    if line == [] {
      lead, words, gaps := "", [], [];
    } else if IsGap(line[0]) {
      lead, words, gaps := EveryLineHasWords(line[1..]);
      assert line == [line[0]] + line[1..];
      assert line == [line[0]] + lead + RowText(words, gaps);
      lead := [line[0]] + lead;
    } else {
      var p, rest := FirstPiece(line);
      lead, words, gaps := EveryLineHasWords(rest);
      words, gaps := PieceBeforeLine(p, rest, lead, words, gaps);
      lead := "";
    }
  }

  /** So splitting succeeds on exactly the lines made of blanks, words and gaps, with their words' values. */
  lemma SplitIsExact(line: string, args: seq<string>)
    ensures Split(line, Plain, "", false) == Some(args)
            <==> exists lead, words, gaps :: IsLine(line, lead, words, gaps) && Values(words) == args
  {
    FailsOnOpenQuote(line, Plain, "", false);
    if Split(line, Plain, "", false).Some? {
      var lead, words, gaps := EveryLineHasWords(line);
      SplitsLine(line, lead, words, gaps);
    }
    forall lead, words, gaps | IsLine(line, lead, words, gaps)
      ensures Split(line, Plain, "", false) == Some(Values(words))
    {
      SplitsLine(line, lead, words, gaps);
    }
  }

  // ---- Quoting ------------------------------------------------------------------------------------

  function Escaped(arg: string): string {
    if arg == [] then [] else (if Escapable(arg[0]) then ['\\', arg[0]] else [arg[0]]) + Escaped(arg[1..])
  }

  lemma {:induction false} EscapedReadsBack(arg: string)
    ensures IsDoubleBody(Escaped(arg)) && Decoded(Escaped(arg)) == arg
  {
    if arg != [] {
      EscapedReadsBack(arg[1..]);
      var k := if Escapable(arg[0]) then 2 else 1;
      assert Escaped(arg)[k..] == Escaped(arg[1..]);
    }
  }

  /** Arguments in double quotes, `"` and `\` escaped, with spaces between them. */
  function Quoted(args: seq<string>): string {
    if args == [] then []
    else "\"" + (Escaped(args[0]) + ("\"" + ((if |args| == 1 then "" else " ") + Quoted(args[1..]))))
  }

  /** Quoting and splitting gives every argument list back, empty arguments and any characters included. */
  lemma {:induction false} QuotedRoundTrip(args: seq<string>)
    ensures Split(Quoted(args), Plain, "", false) == Some(args)
    decreases |args|
  {
    var words, gaps := QuotedWords(args), QuotedGaps(args);
    QuotedIsRow(args);
    SplitsRow(words, gaps);
  }

  function QuotedWords(args: seq<string>): seq<Word> {
    if args == [] then [] else [[Double(Escaped(args[0]))]] + QuotedWords(args[1..])
  }

  function QuotedGaps(args: seq<string>): seq<string> {
    if args == [] then [] else [if |args| == 1 then "" else " "] + QuotedGaps(args[1..])
  }

  lemma {:induction false} QuotedIsRow(args: seq<string>)
    ensures |QuotedWords(args)| == |QuotedGaps(args)| == |args|
    ensures IsRow(QuotedWords(args), QuotedGaps(args))
    ensures RowText(QuotedWords(args), QuotedGaps(args)) == Quoted(args) && Values(QuotedWords(args)) == args
  {
    if args != [] {
      QuotedIsRow(args[1..]);
      QuotedWord(args[0]);
      var gap := if |args| == 1 then "" else " ";
      assert args[1..] == [] <==> |args| == 1;
      OneMoreWord([Double(Escaped(args[0]))], gap, QuotedWords(args[1..]), QuotedGaps(args[1..]));
      assert args == [args[0]] + args[1..];
    }
  }

  lemma QuotedWord(arg: string)
    ensures var w := [Double(Escaped(arg))]; IsWord(w) && WordValue(w) == arg
    ensures forall rest :: WordText([Double(Escaped(arg))], rest) == "\"" + (Escaped(arg) + ("\"" + rest))
  {
    EscapedReadsBack(arg);
    var w := [Double(Escaped(arg))];
    assert w[1..] == [] && arg + [] == arg;
  }

  lemma OneMoreWord(w: Word, gap: string, words: seq<Word>, gaps: seq<string>)
    requires IsWord(w) && IsBlank(gap) && IsRow(words, gaps) && (words != [] ==> gap != [])
    ensures IsRow([w] + words, [gap] + gaps)
    ensures RowText([w] + words, [gap] + gaps) == WordText(w, gap + RowText(words, gaps))
    ensures Values([w] + words) == [WordValue(w)] + Values(words)
  {
    assert ([w] + words)[1..] == words && ([gap] + gaps)[1..] == gaps;
  }

  // ---- Single characters ----------------------------------------------------------------------------

  /** Within double quotes a backslash stands for itself, except before a quote or another backslash. */
  lemma BackslashRule(c: char)
    ensures Split(['"', '\\', c, 'x', '"'], Plain, "", false)
            == Some([if c == '"' || c == '\\' then [c, 'x'] else ['\\', c, 'x']])
  {
    var s := ['"', '\\', c, 'x', '"'];
    assert s[1..] == ['\\', c, 'x', '"'] && s[1..][1..] == [c, 'x', '"'] && s[1..][2..] == ['x', '"'];
    assert [c, 'x', '"'][1..] == ['x', '"'] && ['x', '"'][1..] == ['"'] && ['"'][1..] == "";
    if c == '"' || c == '\\' {
      assert "" + [c] == [c] && [c] + ['x'] == [c, 'x'];
      assert Split(['"'], InDouble, [c, 'x'], true) == Split("", Plain, [c, 'x'], true);
      assert Split(['x', '"'], InDouble, [c], true) == Split(['"'], InDouble, [c, 'x'], true);
      assert Split(s[1..], InDouble, "", true) == Split(s[1..][2..], InDouble, [c], true);
    } else {
      assert "" + ['\\'] == ['\\'] && ['\\'] + [c] == ['\\', c] && ['\\', c] + ['x'] == ['\\', c, 'x'];
      assert Split(['"'], InDouble, ['\\', c, 'x'], true) == Split("", Plain, ['\\', c, 'x'], true);
      assert Split(['x', '"'], InDouble, ['\\', c], true) == Split(['"'], InDouble, ['\\', c, 'x'], true);
      assert Split([c, 'x', '"'], InDouble, ['\\'], true) == Split(['x', '"'], InDouble, ['\\', c], true);
      assert Split(s[1..], InDouble, "", true) == Split([c, 'x', '"'], InDouble, ['\\'], true);
    }
  }

  /** Outside quotes blanks and tabs end a word, an opening quote needs its end, and all else is part of the word. */
  lemma GapRule(c: char)
    ensures Split(['a', c, 'b'], Plain, "", false)
            == if c == ' ' || c == '\t' then Some(["a", "b"])
               else if c == '\'' || c == '"' then None
               else Some([['a', c, 'b']])
  {
    var s := ['a', c, 'b'];
    assert s[1..] == [c, 'b'] && [c, 'b'][1..] == ['b'] && ['b'][1..] == "";
    assert "" + ['a'] == "a" && "a" + [c] == ['a', c] && ['a', c] + ['b'] == ['a', c, 'b'] && "" + ['b'] == "b";
    assert "a" + ['b'] == "ab" && ["a"] + ["b"] == ["a", "b"];
    assert Split(['b'], Plain, "", false) == Split("", Plain, "b", true) == Some(["b"]);
    assert Split(['b'], Plain, ['a', c], true) == Split("", Plain, ['a', c, 'b'], true);
    assert Split(['b'], InSingle, "a", true) == Split("", InSingle, "ab", true);
    assert Split(['b'], InDouble, "a", true) == Split("", InDouble, "ab", true);
  }

  /** Single quotes keep every character but their own. */
  lemma SingleQuoteRule(c: char)
    requires c != '\''
    ensures Split(['\'', c, '\''], Plain, "", false) == Some([[c]])
  {
    var s := ['\'', c, '\''];
    assert s[1..] == [c, '\''] && [c, '\''][1..] == ['\''] && ['\''][1..] == "" && "" + [c] == [c];
    assert Split(['\''], InSingle, [c], true) == Split("", Plain, [c], true);
  }
}
