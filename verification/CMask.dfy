/**
 * The comment and literal mask the source audits count braces on
 * (harness/island/full/island_icall_audit.py, mask_c_lines).
 */
module CMask {
  import opened Wrappers

  /** What the scan is inside of: `block`, `quote` and `escaped` of the source in one value. */
  datatype Mode = Code | Block | Quote(mark: char, escaped: bool)

  function ModeOf(block: bool, quote: Option<char>, escaped: bool): Mode {
    if block then Block else match quote case None => Code case Some(mark) => Quote(mark, escaped)
  }

  predicate IsMark(c: char) { c == '"' || c == '\'' }

  /** The line opens with a and then b. */
  predicate Opens(s: string, a: char, b: char) { |s| > 1 && s[0] == a && s[1] == b }

  function Spaces(n: nat): string { seq(n, _ => ' ') }

  /** One character inside a literal. */
  function InQuote(c: char, mark: char, escaped: bool): Mode {
    if escaped then Quote(mark, false)
    else if c == '\\' then Quote(mark, true)
    else if c == mark then Code
    else Quote(mark, false)
  }

  function After(prefix: string, r: (string, Mode)): (string, Mode) { (prefix + r.0, r.1) }

  /** What one turn of the scan at the head of a non-empty line writes, and the mode it goes on in. */
  function Turn(raw: string, mode: Mode): (t: (string, Mode))
    requires raw != ""
    ensures 1 <= |t.0| <= |raw|
  {
    match mode
    case Block => if Opens(raw, '*', '/') then ("  ", Code) else (" ", Block)
    case Quote(mark, escaped) => (" ", InQuote(raw[0], mark, escaped))
    case Code =>
      if Opens(raw, '/', '*') then ("  ", Block)
      else if Opens(raw, '/', '/') then (Spaces(|raw|), Code)
      else if IsMark(raw[0]) then (" ", Quote(raw[0], false))
      else ([raw[0]], Code)
  }

  /** A line entered in some mode: what the mask leaves of it, and the mode it is left in. */
  function MaskLine(raw: string, mode: Mode): (r: (string, Mode))
    ensures |r.0| == |raw|
  {
    if raw == "" then ("", mode)
    else var t := Turn(raw, mode); After(t.0, MaskLine(raw[|t.0|..], t.1))
  }

  predicate SameSizes(lines: seq<string>, masked: seq<string>) {
    |lines| == |masked| && forall i :: 0 <= i < |lines| ==> |masked[i]| == |lines[i]|
  }

  function Masked(lines: seq<string>, mode: Mode): (r: seq<string>)
    ensures SameSizes(lines, r)
  {
    if lines == [] then []
    else var (line, next) := MaskLine(lines[0], mode); [line] + Masked(lines[1..], next)
  }

  lemma TurnLeaves(raw: string, i: nat, done: string, mode: Mode)
    requires i < |raw|
    ensures var t := Turn(raw[i..], mode);
      After(done, MaskLine(raw[i..], mode)) == After(done + t.0, MaskLine(raw[i + |t.0|..], t.1))
  {
    var t := Turn(raw[i..], mode);
    assert raw[i..][|t.0|..] == raw[i + |t.0|..];
    assert done + (t.0 + MaskLine(raw[i + |t.0|..], t.1).0) == done + t.0 + MaskLine(raw[i + |t.0|..], t.1).0;
  }

  method MaskLines(lines: seq<string>) returns (masked: seq<string>)
    ensures masked == Masked(lines, Code)
  {
    hide MaskLine, SameSizes;
    masked := [];
    var block, quote: Option<char>, escaped := false, None, false;
    for k := 0 to |lines|
      invariant block ==> quote.None?
      invariant Masked(lines, Code) == masked + Masked(lines[k..], ModeOf(block, quote, escaped))
    {
      var raw := lines[k];
      ghost var entered := ModeOf(block, quote, escaped);
      var line;
      line, block, quote, escaped := MaskOne(raw, block, quote, escaped);
      assert Masked(lines[k..], entered) == [line] + Masked(lines[k..][1..], ModeOf(block, quote, escaped));
      assert lines[k..][1..] == lines[k + 1..];
      masked := masked + [line];
    }
  }

  /** The body of the loop over the lines. */
  method MaskOne(raw: string, block0: bool, quote0: Option<char>, escaped0: bool)
    returns (line: string, block: bool, quote: Option<char>, escaped: bool)
    requires block0 ==> quote0.None?
    ensures block ==> quote.None?
    ensures (line, ModeOf(block, quote, escaped)) == MaskLine(raw, ModeOf(block0, quote0, escaped0))
  {
    hide MaskLine;
    block, quote, escaped := block0, quote0, escaped0;
    var out := raw;
    var i := 0;
    assert raw[0..] == raw;
    ghost var whole := MaskLine(raw, ModeOf(block, quote, escaped));
    assert "" + whole.0 == whole.0;
    while i < |raw|
      invariant 0 <= i <= |raw| == |out| && forall j :: i <= j < |raw| ==> out[j] == raw[j]
      invariant block ==> quote.None?
      invariant whole == After(out[..i], MaskLine(raw[i..], ModeOf(block, quote, escaped)))
    {
      TurnLeaves(raw, i, out[..i], ModeOf(block, quote, escaped));
      ghost var done := out[..i];
      ghost var turn := Turn(raw[i..], ModeOf(block, quote, escaped));
      var c := raw[i];
      if block {
        out := out[i := ' '];
        if c == '*' && i + 1 < |raw| && raw[i + 1] == '/' {
          out := out[i + 1 := ' '];
          block := false;
          i := i + 2;
        } else {
          i := i + 1;
        }
      } else if quote.Some? {
        out := out[i := ' '];
        if escaped {
          escaped := false;
        } else if c == '\\' {
          escaped := true;
        } else if c == quote.value {
          quote := None;
        }
        i := i + 1;
      } else if c == '/' && i + 1 < |raw| && raw[i + 1] == '*' {
        out := out[i := ' '][i + 1 := ' '];
        block := true;
        i := i + 2;
      } else if c == '/' && i + 1 < |raw| && raw[i + 1] == '/' {
        out := out[..i] + Spaces(|raw| - i);
        i := |raw|;
      } else if IsMark(c) {
        out := out[i := ' '];
        quote := Some(c);
        escaped := false;
        i := i + 1;
      } else {
        i := i + 1;
      }
      assert out[..i] == done + turn.0;
      assert ModeOf(block, quote, escaped) == turn.1;
    }
    line := out;
    NothingToMask(raw[i..], line, ModeOf(block, quote, escaped));
    assert line == out[..i];
  }

  lemma NothingToMask(rest: string, line: string, mode: Mode)
    requires rest == ""
    ensures After(line, MaskLine(rest, mode)) == (line, mode)
  {
    assert line + "" == line;
  }

  // ---------------------------------------------------------------- line by line

  /** Positions are preserved, and a character is only ever replaced by a space. */
  lemma {:induction false} OnlyBlanks(raw: string, mode: Mode)
    ensures var r := MaskLine(raw, mode).0;
      |r| == |raw| && forall i :: 0 <= i < |raw| ==> r[i] == raw[i] || r[i] == ' '
  {
    if raw != "" {
      var t := Turn(raw, mode);
      var rest := raw[|t.0|..];
      OnlyBlanks(rest, t.1);
      var r := MaskLine(raw, mode).0;
      assert r == t.0 + MaskLine(rest, t.1).0;
      forall i | 0 <= i < |raw| ensures r[i] == raw[i] || r[i] == ' ' {
        if i >= |t.0| {
          assert r[i] == MaskLine(rest, t.1).0[i - |t.0|] && raw[i] == rest[i - |t.0|];
        }
      }
    }
  }

  /** No quote and no comment opener anywhere in the line. */
  predicate Clean(s: string) {
    && (forall i :: 0 <= i < |s| ==> !IsMark(s[i]))
    && forall i :: 0 <= i < |s| - 1 && s[i] == '/' ==> s[i + 1] != '/' && s[i + 1] != '*'
  }

  lemma TurnIsClean(raw: string, mode: Mode)
    requires raw != ""
    ensures var t := Turn(raw, mode).0;
      && (forall i :: 0 <= i < |t| ==> !IsMark(t[i]))
      && forall i :: 0 <= i < |t| && t[i] == '/' ==> |t| == 1 && (|raw| > 1 ==> raw[1] != '/' && raw[1] != '*')
  {
  }

  lemma CleanSum(a: string, b: string)
    requires Clean(b) && (forall i :: 0 <= i < |a| ==> !IsMark(a[i]))
    requires forall i :: 0 <= i < |a| && a[i] == '/' ==> |a| == 1 && (b != "" ==> b[0] != '/' && b[0] != '*')
    ensures Clean(a + b)
  {
    var s := a + b;
    forall i | 0 <= i < |s| - 1 && s[i] == '/' ensures s[i + 1] != '/' && s[i + 1] != '*' {
      if i < |a| {
        assert s[i] == a[i] && s[i + 1] == b[0];
      } else {
        assert s[i] == b[i - |a|] && s[i + 1] == b[i - |a| + 1];
      }
    }
  }

  lemma {:induction false} NothingLeft(raw: string, mode: Mode)
    ensures Clean(MaskLine(raw, mode).0)
  {
    hide Turn, Clean, IsMark;
    if raw == "" {
      EmptyIsClean();
    } else {
      var t := Turn(raw, mode);
      var rest := raw[|t.0|..];
      NothingLeft(rest, t.1);
      OnlyBlanks(rest, t.1);
      TurnIsClean(raw, mode);
      assert rest != "" ==> rest[0] == raw[|t.0|];
      CleanSum(t.0, MaskLine(rest, t.1).0);
    }
  }

  lemma EmptyIsClean()
    ensures Clean("")
  {
  }

  lemma {:induction false} CleanIsCode(s: string)
    requires Clean(s)
    ensures MaskLine(s, Code) == (s, Code)
  {
    if s != "" {
      assert Turn(s, Code) == ([s[0]], Code);
      CleanIsCode(s[1..]);
      assert [s[0]] + s[1..] == s;
    }
  }

  /** Masking a masked file changes nothing, wherever the file was entered. */
  lemma {:induction false} MaskIsIdempotent(lines: seq<string>, mode: Mode)
    ensures Masked(Masked(lines, mode), Code) == Masked(lines, mode)
  {
    if lines != [] {
      var (line, next) := MaskLine(lines[0], mode);
      NothingLeft(lines[0], mode);
      CleanIsCode(line);
      MaskIsIdempotent(lines[1..], next);
      assert Masked(lines, mode)[1..] == Masked(lines[1..], next);
    }
  }

  // ---------------------------------------------------------------- the lexical grammar

  // The grammar of C11 (sections 6.4.4.4, 6.4.5 and 6.4.9), for a text in which lines that end in a
  // backslash are already joined (section 5.1.1.2).

  /** A member of a literal: a character, or a backslash and the character it escapes. */
  datatype Unit = Raw(c: char) | Escape(c: char)

  /** A comment, a literal, or a character outside them. */
  datatype Piece =
    | Plain(c: char)
    | Comment(body: string)
    | LineComment(body: string)
    | Literal(mark: char, units: seq<Unit>)

  function UnitText(u: Unit): string {
    match u case Raw(c) => [c] case Escape(c) => "\\" + [c]
  }

  function UnitsText(us: seq<Unit>): string {
    if us == [] then "" else UnitText(us[0]) + UnitsText(us[1..])
  }

  function PieceText(p: Piece): (t: string)
    ensures t != ""
  {
    match p
    case Plain(c) => [c]
    case Comment(body) => "/*" + body + "*/"
    case LineComment(body) => "//" + body
    case Literal(mark, units) => [mark] + UnitsText(units) + [mark]
  }

  function Text(ps: seq<Piece>): string {
    if ps == [] then "" else PieceText(ps[0]) + Text(ps[1..])
  }

  /** No literal runs over the end of its line. */
  predicate UnitFits(u: Unit, mark: char) {
    u.c != '\n' && (u.Raw? ==> u.c != mark && u.c != '\\')
  }

  /** The piece may stand where the text `rest` follows it. */
  predicate Fits(p: Piece, rest: string) {
    match p
    case Plain(c) => !IsMark(c) && !(c == '/' && rest != "" && rest[0] in "/*")
    case Comment(body) => forall i :: 0 <= i < |body| - 1 && body[i] == '*' ==> body[i + 1] != '/'
    case LineComment(body) => '\n' !in body && (rest != "" ==> rest[0] == '\n')
    case Literal(mark, units) => IsMark(mark) && forall u :: u in units ==> UnitFits(u, mark)
  }

  predicate Lexed(ps: seq<Piece>) {
    ps == [] || (Fits(ps[0], Text(ps[1..])) && Lexed(ps[1..]))
  }

  /** Everything but the line ends becomes a space. */
  function Blanks(s: string): string { seq(|s|, i requires 0 <= i < |s| => if s[i] == '\n' then '\n' else ' ') }

  function PieceMask(p: Piece): string { if p.Plain? then PieceText(p) else Blanks(PieceText(p)) }

  /** The text with only its plain characters left. */
  function PlainText(ps: seq<Piece>): string {
    if ps == [] then "" else PieceMask(ps[0]) + PlainText(ps[1..])
  }

  // The mask over a whole text, in which a line end is one more character.

  ghost predicate AreLines(lines: seq<string>) {
    forall l :: l in lines ==> '\n' !in l
  }

  /** The first line of a text, and where the next one starts. */
  function LineLength(t: string): (n: nat)
    ensures n <= |t| && '\n' !in t[..n] && (n < |t| ==> t[n] == '\n')
  {
    if t == "" || t[0] == '\n' then 0
    else var n := 1 + LineLength(t[1..]); assert t[..n] == [t[0]] + t[1..][..n - 1]; n
  }

  /** One turn of the scan over a text: a line end is passed over, the rest of the line goes to `Turn`. */
  function TextTurn(t: string, mode: Mode): (r: (string, Mode))
    requires t != ""
    ensures 1 <= |r.0| <= |t|
  {
    if t[0] == '\n' then ("\n", mode) else Turn(t[..LineLength(t)], mode)
  }

  function MaskText(t: string, mode: Mode): (string, Mode) {
    if t == "" then ("", mode)
    else var r := TextTurn(t, mode); After(r.0, MaskText(t[|r.0|..], r.1))
  }

  /** The scan of the text leaves no line inside a literal, and the text in code. */
  predicate Follows(t: string, mode: Mode) {
    if t == "" then mode == Code
    else
      var r := TextTurn(t, mode);
      !(t[0] == '\n' && mode.Quote?) && Follows(t[|r.0|..], r.1)
  }

  lemma FirstLine(raw: string, rest: string)
    requires '\n' !in raw
    ensures LineLength(raw + "\n" + rest) == |raw|
  {
    var t := raw + "\n" + rest;
    assert t[|raw|] == '\n' && forall i :: 0 <= i < |raw| ==> t[i] == raw[i];
  }

  lemma TextTurnInLine(raw: string, rest: string, mode: Mode)
    requires raw != "" && '\n' !in raw
    ensures TextTurn(raw + "\n" + rest, mode) == Turn(raw, mode)
  {
    FirstLine(raw, rest);
    var t := raw + "\n" + rest;
    assert t[..|raw|] == raw && t[0] == raw[0];
  }

  lemma LineEndTurns(rest: string, mode: Mode)
    ensures TextTurn("\n" + rest, mode) == ("\n", mode)
  {
  }

  lemma {:induction false} LineMasks(raw: string, rest: string, mode: Mode)
    requires '\n' !in raw
    ensures var (line, next) := MaskLine(raw, mode);
      && MaskText(raw + "\n" + rest, mode) == After(line + "\n", MaskText(rest, next))
      && (Follows(raw + "\n" + rest, mode) <==> !next.Quote? && Follows(rest, next))
    decreases |raw|
  {
    hide Turn, TextTurn, LineLength;
    var t := raw + "\n" + rest;
    if raw == "" {
      LineEndTurns(rest, mode);
      assert t == "\n" + rest && t[1..] == rest && raw + "\n" == "\n";
    } else {
      TextTurnInLine(raw, rest, mode);
      var turn := Turn(raw, mode);
      assert t[0] == raw[0];
      var raw' := raw[|turn.0|..];
      assert t[|turn.0|..] == raw' + "\n" + rest;
      LineMasks(raw', rest, turn.1);
      var (line, next) := MaskLine(raw', turn.1);
      var end := MaskText(rest, next);
      assert turn.0 + (line + "\n" + end.0) == turn.0 + line + "\n" + end.0;
    }
  }

  // ---------------------------------------------------------------- pieces are masked as pieces

  lemma OpensInLine(t: string, a: char, b: char)
    requires t != "" && b != '\n'
    ensures Opens(t[..LineLength(t)], a, b) <==> a != '\n' && Opens(t, a, b)
  {
    var n := LineLength(t);
  }

  /** A turn of the scan, read off the head of the text. */
  lemma TextTurnCases(t: string, mode: Mode)
    requires t != "" && t[0] != '\n'
    ensures mode == Block ==> TextTurn(t, mode) == if Opens(t, '*', '/') then ("  ", Code) else (" ", Block)
    ensures mode.Quote? ==> TextTurn(t, mode) == (" ", InQuote(t[0], mode.mark, mode.escaped))
    ensures mode == Code && Opens(t, '/', '*') ==> TextTurn(t, mode) == ("  ", Block)
    ensures mode == Code && Opens(t, '/', '/') ==> TextTurn(t, mode) == (Spaces(LineLength(t)), Code)
    ensures mode == Code && IsMark(t[0]) ==> TextTurn(t, mode) == (" ", Quote(t[0], false))
    ensures mode == Code && !Opens(t, '/', '*') && !Opens(t, '/', '/') && !IsMark(t[0]) ==> TextTurn(t, mode) == ([t[0]], Code)
  {
    OpensInLine(t, '*', '/');
    OpensInLine(t, '/', '*');
    OpensInLine(t, '/', '/');
    assert t[..LineLength(t)][0] == t[0];
  }

  /** The scan of `head` inside `head + rest` writes its blanks and goes on in `next`. */
  ghost predicate Blanked(head: string, rest: string, mode: Mode, next: Mode) {
    && MaskText(head + rest, mode) == After(Blanks(head), MaskText(rest, next))
    && (Follows(head + rest, mode) <==> Follows(rest, next))
  }

  lemma BlanksOfSum(a: string, b: string)
    ensures Blanks(a + b) == Blanks(a) + Blanks(b)
  {
  }

  lemma BlankedTurn(head: string, more: string, rest: string, mode: Mode, mid: Mode, next: Mode)
    requires head != "" && TextTurn(head + (more + rest), mode) == (Blanks(head), mid)
    requires head[0] == '\n' ==> !mode.Quote?
    requires Blanked(more, rest, mid, next)
    ensures Blanked(head + more, rest, mode, next)
  {
    hide TextTurn;
    assert head + more + rest == head + (more + rest);
    assert (head + (more + rest))[|head|..] == more + rest && (head + (more + rest))[0] == head[0];
    BlanksOfSum(head, more);
    var end := MaskText(rest, next);
    assert Blanks(head) + (Blanks(more) + end.0) == Blanks(head) + Blanks(more) + end.0;
  }

  lemma NothingBlanked(rest: string, mode: Mode)
    ensures Blanked("", rest, mode, mode)
  {
    assert "" + rest == rest && Blanks("") == "";
    assert "" + MaskText(rest, mode).0 == MaskText(rest, mode).0;
  }

  lemma {:induction false} CommentBlanked(body: string, rest: string)
    requires Fits(Comment(body), rest)
    ensures Blanked(body + "*/", rest, Block, Code)
  {
    if body == "" {
      NothingBlanked(rest, Code);
      TextTurnCases("*/" + ("" + rest), Block);
      assert Blanks("*/") == "  ";
      BlankedTurn("*/", "", rest, Block, Code, Code);
      assert "*/" + "" == body + "*/";
    } else {
      var c, more := body[0], body[1..] + "*/";
      var t := [c] + (more + rest);
      assert Fits(Comment(body[1..]), rest) by {
        forall i | 0 <= i < |body| - 2 && body[1..][i] == '*' ensures body[1..][i + 1] != '/' {
          assert body[i + 1] == '*';
        }
      }
      CommentBlanked(body[1..], rest);
      assert !Opens(t, '*', '/') by {
        if |body| > 1 { assert t[1] == body[1]; } else { assert t[1] == '*'; }
      }
      if c != '\n' {
        TextTurnCases(t, Block);
      }
      assert Blanks([c]) == if c == '\n' then "\n" else " ";
      BlankedTurn([c], more, rest, Block, Block, Code);
      assert [c] + more == body + "*/";
    }
  }

  lemma CharBlanked(c: char, more: string, rest: string, mode: Mode)
    requires c != '\n' && mode.Quote?
    requires Blanked(more, rest, InQuote(c, mode.mark, mode.escaped), Code)
    ensures Blanked([c] + more, rest, mode, Code)
  {
    assert ([c] + (more + rest))[0] == c;
    TextTurnCases([c] + (more + rest), mode);
    assert Blanks([c]) == " ";
    BlankedTurn([c], more, rest, mode, InQuote(c, mode.mark, mode.escaped), Code);
  }

  lemma UnitBlanked(u: Unit, more: string, rest: string, mark: char)
    requires UnitFits(u, mark) && Blanked(more, rest, Quote(mark, false), Code)
    ensures Blanked(UnitText(u) + more, rest, Quote(mark, false), Code)
  {
    hide Blanked;
    match u
    case Raw(c) =>
      CharBlanked(c, more, rest, Quote(mark, false));
    case Escape(c) =>
      CharBlanked(c, more, rest, Quote(mark, true));
      CharBlanked('\\', [c] + more, rest, Quote(mark, false));
      assert "\\" + ([c] + more) == UnitText(u) + more;
  }

  lemma {:induction false} UnitsBlanked(us: seq<Unit>, rest: string, mark: char)
    requires IsMark(mark) && forall u :: u in us ==> UnitFits(u, mark)
    ensures Blanked(UnitsText(us) + [mark], rest, Quote(mark, false), Code)
  {
    if us == [] {
      NothingBlanked(rest, Code);
      TextTurnCases([mark] + ("" + rest), Quote(mark, false));
      assert Blanks([mark]) == " ";
      BlankedTurn([mark], "", rest, Quote(mark, false), Code, Code);
      assert [mark] + "" == UnitsText(us) + [mark];
    } else {
      UnitsBlanked(us[1..], rest, mark);
      UnitBlanked(us[0], UnitsText(us[1..]) + [mark], rest, mark);
      assert UnitText(us[0]) + (UnitsText(us[1..]) + [mark]) == UnitsText(us) + [mark];
    }
  }

  lemma PieceMasks(p: Piece, rest: string)
    requires Fits(p, rest)
    ensures MaskText(PieceText(p) + rest, Code) == After(PieceMask(p), MaskText(rest, Code))
    ensures Follows(PieceText(p) + rest, Code) <==> Follows(rest, Code)
  {
    var t := PieceText(p) + rest;
    match p
    case Plain(c) =>
      assert t[0] == c && t[1..] == rest;
      if c != '\n' {
        TextTurnCases(t, Code);
      }
    case Comment(body) =>
      CommentBlanked(body, rest);
      var more := body + "*/";
      assert Opens("/*" + (more + rest), '/', '*');
      TextTurnCases("/*" + (more + rest), Code);
      assert Blanks("/*") == "  ";
      BlankedTurn("/*", more, rest, Code, Block, Code);
      assert "/*" + more == PieceText(p);
    case LineComment(body) =>
      assert Opens(t, '/', '/');
      TextTurnCases(t, Code);
      var n := |PieceText(p)|;
      assert LineLength(t) == n by { LineCommentEnds(body, rest); }
      assert Spaces(n) == Blanks(PieceText(p));
      assert t[n..] == rest;
    case Literal(mark, units) =>
      UnitsBlanked(units, rest, mark);
      var more := UnitsText(units) + [mark];
      assert ([mark] + (more + rest))[0] == mark;
      TextTurnCases([mark] + (more + rest), Code);
      assert Blanks([mark]) == " ";
      BlankedTurn([mark], more, rest, Code, Quote(mark, false), Code);
      assert [mark] + more == PieceText(p);
  }

  lemma LineCommentEnds(body: string, rest: string)
    requires '\n' !in body && (rest != "" ==> rest[0] == '\n')
    ensures LineLength("//" + body + rest) == |body| + 2
  {
    var raw := "//" + body;
    var t := raw + rest;
    assert forall i :: 0 <= i < |raw| ==> t[i] == raw[i];
    assert '\n' !in raw;
    if rest != "" {
      assert t[|raw|] == '\n';
    }
  }

  /** Read as C pieces, a file keeps its plain characters where they are and loses everything else. */
  lemma {:induction false} MaskKeepsPlainText(ps: seq<Piece>)
    requires Lexed(ps)
    ensures MaskText(Text(ps), Code) == (PlainText(ps), Code) && Follows(Text(ps), Code)
  {
    if ps != [] {
      MaskKeepsPlainText(ps[1..]);
      PieceMasks(ps[0], Text(ps[1..]));
    }
  }

  // ---------------------------------------------------------------- every finished file is made of pieces

  // How a text that ends in code mode ends after its first turn.

  lemma BlockEnds(t: string)
    requires Follows(t, Block)
    ensures t != ""
    ensures if Opens(t, '*', '/') then Follows(t[2..], Code) else Follows(t[1..], Block)
  {
    if t[0] != '\n' {
      TextTurnCases(t, Block);
    }
  }

  lemma QuoteEnds(t: string, mark: char, escaped: bool)
    requires Follows(t, Quote(mark, escaped))
    ensures t != "" && t[0] != '\n' && Follows(t[1..], InQuote(t[0], mark, escaped))
  {
    if t[0] != '\n' {
      TextTurnCases(t, Quote(mark, escaped));
    }
  }

  lemma CodeEnds(t: string)
    requires t != "" && Follows(t, Code)
    ensures Opens(t, '/', '*') ==> Follows(t[2..], Block)
    ensures Opens(t, '/', '/') ==> Follows(t[LineLength(t)..], Code)
    ensures IsMark(t[0]) ==> Follows(t[1..], Quote(t[0], false))
    ensures !Opens(t, '/', '*') && !Opens(t, '/', '/') && !IsMark(t[0]) ==> Follows(t[1..], Code)
  {
    if t[0] != '\n' {
      TextTurnCases(t, Code);
    }
  }

  lemma LongerComment(t: string, body: string, rest: string)
    requires t != "" && !Opens(t, '*', '/')
    requires t[1..] == body + "*/" + rest && Fits(Comment(body), rest)
    ensures t == [t[0]] + body + "*/" + rest && Fits(Comment([t[0]] + body), rest)
  {
    assert t == [t[0]] + t[1..];
    assert t[1] == (body + "*/" + rest)[0];
  }

  lemma {:induction false} ReadComment(t: string) returns (body: string, rest: string)
    requires Follows(t, Block)
    ensures t == body + "*/" + rest && Fits(Comment(body), rest) && Follows(rest, Code)
  {
    BlockEnds(t);
    hide Follows, Fits;
    if Opens(t, '*', '/') {
      body, rest := "", t[2..];
      assert t == "*/" + rest;
      EmptyCommentFits(rest);
    } else {
      var inner;
      inner, rest := ReadComment(t[1..]);
      body := [t[0]] + inner;
      LongerComment(t, inner, rest);
    }
  }

  lemma EmptyCommentFits(rest: string)
    ensures Fits(Comment(""), rest)
  {
  }

  /** The first unit of a literal that goes on. */
  lemma ReadUnit(t: string, mark: char) returns (u: Unit, more: string)
    requires t != "" && t[0] != mark && Follows(t, Quote(mark, false))
    ensures t == UnitText(u) + more && UnitFits(u, mark) && Follows(more, Quote(mark, false))
  {
    QuoteEnds(t, mark, false);
    hide Follows, UnitText;
    if t[0] == '\\' {
      QuoteEnds(t[1..], mark, true);
      u, more := Escape(t[1]), t[1..][1..];
      EscapeStarts(t);
    } else {
      u, more := Raw(t[0]), t[1..];
      RawStarts(t);
    }
  }

  lemma EscapeStarts(t: string)
    requires |t| > 1 && t[0] == '\\'
    ensures t == UnitText(Escape(t[1])) + t[1..][1..]
  {
  }

  lemma RawStarts(t: string)
    requires t != ""
    ensures t == UnitText(Raw(t[0])) + t[1..]
  {
  }

  lemma UnitsGoOn(u: Unit, us: seq<Unit>, mark: char, rest: string)
    ensures UnitText(u) + (UnitsText(us) + [mark] + rest) == UnitsText([u] + us) + [mark] + rest
  {
    assert ([u] + us)[1..] == us;
    assert UnitsText([u] + us) == UnitText(u) + UnitsText(us);
  }

  lemma UnitHasText(u: Unit)
    ensures UnitText(u) != ""
  {
  }

  lemma {:induction false} ReadLiteral(t: string, mark: char) returns (us: seq<Unit>, rest: string)
    requires IsMark(mark) && Follows(t, Quote(mark, false))
    ensures t == UnitsText(us) + [mark] + rest && forall u :: u in us ==> UnitFits(u, mark)
    ensures Follows(rest, Code)
    decreases |t|
  {
    QuoteEnds(t, mark, false);
    hide Follows;
    if t[0] == mark {
      us, rest := [], t[1..];
      assert t == [mark] + rest && UnitsText(us) + [mark] == [mark];
    } else {
      var u, more := ReadUnit(t, mark);
      UnitHasText(u);
      hide UnitText, UnitFits;
      us, rest := ReadLiteral(more, mark);
      UnitsGoOn(u, us, mark, rest);
      us := [u] + us;
    }
  }

  /** Anything the scan leaves in code mode reads as a sequence of pieces. */
  lemma {:induction false} ReadPieces(t: string) returns (ps: seq<Piece>)
    requires Follows(t, Code)
    ensures Lexed(ps) && Text(ps) == t
    decreases |t|
  {
    if t == "" {
      ps := [];
      return;
    }
    var p, rest := ReadPiece(t);
    ps := ReadPieces(rest);
    ps := [p] + ps;
  }

  lemma CommentStarts(t: string, body: string, rest: string)
    requires Opens(t, '/', '*') && t[2..] == body + "*/" + rest
    ensures t == PieceText(Comment(body)) + rest
  {
    assert t == "/*" + t[2..];
    assert "/*" + (body + "*/" + rest) == PieceText(Comment(body)) + rest;
  }

  lemma LiteralStarts(t: string, us: seq<Unit>, rest: string)
    requires t != "" && IsMark(t[0]) && t[1..] == UnitsText(us) + [t[0]] + rest
    requires forall u :: u in us ==> UnitFits(u, t[0])
    ensures t == PieceText(Literal(t[0], us)) + rest && Fits(Literal(t[0], us), rest)
  {
    var mark := t[0];
    assert t == [mark] + t[1..];
    assert [mark] + (UnitsText(us) + [mark] + rest) == PieceText(Literal(mark, us)) + rest;
  }

  lemma PlainStarts(t: string)
    requires t != "" && !Opens(t, '/', '*') && !Opens(t, '/', '/') && !IsMark(t[0])
    ensures PieceText(Plain(t[0])) + t[1..] == t && Fits(Plain(t[0]), t[1..])
  {
  }

  lemma ReadPiece(t: string) returns (p: Piece, rest: string)
    requires t != "" && Follows(t, Code)
    ensures t == PieceText(p) + rest && Fits(p, rest) && Follows(rest, Code)
  {
    CodeEnds(t);
    hide Follows, Fits, PieceText, UnitsText, UnitFits, LineLength;
    if Opens(t, '/', '*') {
      var body;
      body, rest := ReadComment(t[2..]);
      p := Comment(body);
      CommentStarts(t, body, rest);
    } else if Opens(t, '/', '/') {
      p, rest := ReadLineComment(t);
    } else if IsMark(t[0]) {
      var us;
      us, rest := ReadLiteral(t[1..], t[0]);
      p := Literal(t[0], us);
      LiteralStarts(t, us, rest);
    } else {
      p, rest := Plain(t[0]), t[1..];
      PlainStarts(t);
    }
  }

  lemma ReadLineComment(t: string) returns (p: Piece, rest: string)
    requires Opens(t, '/', '/')
    ensures rest == t[LineLength(t)..] && t == PieceText(p) + rest && Fits(p, rest)
  {
    var n := LineLength(t);
    OpensInLine(t, '/', '/');
    p, rest := LineComment(t[2..n]), t[n..];
    assert t == "//" + t[2..n] + rest;
    assert forall i :: 2 <= i < n ==> t[i] == t[..n][i];
  }

  predicate ReadsAs(t: string, ps: seq<Piece>) { Lexed(ps) && Text(ps) == t }

  /** A text reads as pieces exactly when the scan finishes outside everything. */
  lemma LexedIff(t: string)
    ensures Follows(t, Code) <==> exists ps :: ReadsAs(t, ps)
  {
    if Follows(t, Code) {
      var ps := ReadPieces(t);
      assert ReadsAs(t, ps);
    }
    if ps :| ReadsAs(t, ps) {
      MaskKeepsPlainText(ps);
    }
  }

  // ---------------------------------------------------------------- the C readings of a file

  predicate EndsInBackslash(line: string) { line != "" && line[|line| - 1] == '\\' }

  function Body(line: string): string
    requires EndsInBackslash(line)
  {
    line[..|line| - 1]
  }

  /** The text C reads: a line that ends in a backslash goes on in the next. */
  function JoinSpliced(lines: seq<string>): string {
    if lines == [] then ""
    else if EndsInBackslash(lines[0]) then Body(lines[0]) + JoinSpliced(lines[1..])
    else lines[0] + "\n" + JoinSpliced(lines[1..])
  }

  predicate IsReading(lines: seq<string>, ps: seq<Piece>) { ReadsAs(JoinSpliced(lines), ps) }

  /** The masked lines, joined where the lines themselves are. */
  function JoinMasked(lines: seq<string>, masked: seq<string>): string
    requires SameSizes(lines, masked)
  {
    if lines == [] then ""
    else if EndsInBackslash(lines[0]) then masked[0][..|masked[0]| - 1] + JoinMasked(lines[1..], masked[1..])
    else masked[0] + "\n" + JoinMasked(lines[1..], masked[1..])
  }

  /** No line ends inside a literal, unless it goes on in the next, and the last is left in code. */
  predicate Finished(lines: seq<string>, mode: Mode) {
    if lines == [] then mode == Code
    else
      var next := MaskLine(lines[0], mode).1;
      (next.Quote? ==> EndsInBackslash(lines[0])) && Finished(lines[1..], next)
  }

  // A line that goes on: where the mask and C, which does not see the backslash, come out the same.

  predicate Starts(t: string, chars: string) { t != "" && t[0] in chars }

  /** The scan of b is the same whether the text t or nothing follows. */
  predicate ScansAlone(b: string, mode: Mode, t: string) {
    if b == "" then true
    else
      && (mode == Code && Opens(b, '/', '/') ==> t == "" || t[0] == '\n')
      && (mode == Code && b == "/" ==> !Starts(t, "/*"))
      && (mode == Block && b == "*" ==> !Starts(t, "/"))
      && var turn := Turn(b, mode);
        ScansAlone(b[|turn.0|..], turn.1, t)
  }

  /**
   * The splice does no harm: the scan of the line up to its backslash does not depend on what follows,
   * and if it ends inside a literal, neither the mark nor another backslash follows.
   */
  predicate SpliceFits(line: string, mode: Mode, rest: string)
    requires EndsInBackslash(line)
  {
    var end := MaskLine(Body(line), mode).1;
    ScansAlone(Body(line), mode, rest) && (end.Quote? ==> !Starts(rest, [end.mark, '\\']))
  }

  /** Every splice of the file is such a one. */
  predicate Harmless(lines: seq<string>, mode: Mode) {
    if lines == [] then true
    else
      && (EndsInBackslash(lines[0]) ==> SpliceFits(lines[0], mode, JoinSpliced(lines[1..])))
      && Harmless(lines[1..], MaskLine(lines[0], mode).1)
  }

  /** Where no line is joined to the next there is nothing to ask. */
  lemma {:induction false} UnsplicedIsHarmless(lines: seq<string>, mode: Mode)
    requires forall l :: l in lines ==> !EndsInBackslash(l)
    ensures Harmless(lines, mode)
  {
    if lines != [] {
      UnsplicedIsHarmless(lines[1..], MaskLine(lines[0], mode).1);
    }
  }

  lemma TurnAlone(b: string, t: string, mode: Mode)
    requires b != "" && '\n' !in b && ScansAlone(b, mode, t)
    ensures TextTurn(b + t, mode) == Turn(b, mode)
  {
    assert (b + t)[0] == b[0] && (|b| > 1 ==> (b + t)[1] == b[1]);
    assert |b| == 1 && t != "" ==> (b + t)[1] == t[0];
    TextTurnCases(b + t, mode);
    if mode == Code && Opens(b, '/', '/') {
      CommentToEnd(b, t);
    }
  }

  lemma CommentToEnd(b: string, t: string)
    requires '\n' !in b && (t == "" || t[0] == '\n')
    ensures LineLength(b + t) == |b|
  {
    if t == "" {
      assert b + t == b;
    } else {
      assert t == "\n" + t[1..];
      assert b + t == b + "\n" + t[1..];
      FirstLine(b, t[1..]);
    }
  }

  lemma {:induction false} BodyScans(b: string, mode: Mode, t: string)
    requires '\n' !in b && ScansAlone(b, mode, t)
    ensures var (line, next) := MaskLine(b, mode);
      && MaskText(b + t, mode) == After(line, MaskText(t, next))
      && (Follows(b + t, mode) <==> Follows(t, next))
    decreases |b|
  {
    if b == "" {
      assert b + t == t && "" + MaskText(t, mode).0 == MaskText(t, mode).0;
    } else {
      TurnAlone(b, t, mode);
      hide Turn, TextTurn;
      var turn := Turn(b, mode);
      var b' := b[|turn.0|..];
      assert (b + t)[|turn.0|..] == b' + t && (b + t)[0] == b[0];
      BodyScans(b', turn.1, t);
      var (line, next) := MaskLine(b', turn.1);
      var end := MaskText(t, next);
      assert turn.0 + (line + end.0) == turn.0 + line + end.0;
    }
  }

  /** The mode after a backslash in some mode. */
  function PastBackslash(mode: Mode): Mode {
    if mode.Quote? then InQuote('\\', mode.mark, mode.escaped) else mode
  }

  lemma TurnBeforeBackslash(b: string, mode: Mode)
    requires b != "" && !(mode == Code && Opens(b, '/', '/'))
    ensures Turn(b + "\\", mode) == Turn(b, mode)
  {
    assert (b + "\\")[0] == b[0] && (|b| > 1 ==> (b + "\\")[1] == b[1]);
    assert |b| == 1 ==> (b + "\\")[1] == '\\';
  }

  /** The mask of the whole line is that of its body and one character more. */
  lemma {:induction false} BackslashScans(b: string, mode: Mode)
    ensures var (line, end) := MaskLine(b, mode);
      MaskLine(b + "\\", mode).0[..|b|] == line && MaskLine(b + "\\", mode).1 == PastBackslash(end)
    decreases |b|
  {
    var w := b + "\\";
    if b == "" {
      assert w == "\\" && w[1..] == "";
    } else if mode == Code && Opens(b, '/', '/') {
      assert Opens(w, '/', '/');
      assert Turn(w, mode) == (Spaces(|w|), Code) && w[|w|..] == "" && b[|b|..] == "";
    } else {
      TurnBeforeBackslash(b, mode);
      hide Turn;
      var turn := Turn(b, mode);
      assert w[|turn.0|..] == b[|turn.0|..] + "\\";
      BackslashScans(b[|turn.0|..], turn.1);
      var line, whole := MaskLine(b[|turn.0|..], turn.1).0, MaskLine(b[|turn.0|..] + "\\", turn.1).0;
      assert (turn.0 + whole)[..|b|] == turn.0 + whole[..|b| - |turn.0|];
    }
  }

  /** A splice in code, as in a macro of several lines: the mask keeps the backslash. */
  lemma CodeSpliceFits(line: string, mode: Mode, rest: string)
    requires EndsInBackslash(line) && EndsInBackslash(MaskLine(line, mode).0)
    requires Body(line) != "" && Body(line)[|line| - 2] == '/' ==> !Starts(rest, "/*")
    ensures SpliceFits(line, mode, rest)
  {
    assert Body(line) + "\\" == line;
    OnlyBlanks(line, mode);
    KeptBackslash(Body(line), mode, rest);
  }

  lemma {:induction false} KeptBackslash(b: string, mode: Mode, t: string)
    requires |MaskLine(b + "\\", mode).0| == |b| + 1 && MaskLine(b + "\\", mode).0[|b|] == '\\'
    requires b != "" && b[|b| - 1] == '/' ==> !Starts(t, "/*")
    ensures ScansAlone(b, mode, t) && MaskLine(b, mode).1 == Code
    decreases |b|
  {
    var w := b + "\\";
    if b == "" {
      assert w == "\\" && w[1..] == "";
    } else if mode == Code && Opens(b, '/', '/') {
      assert false;
    } else {
      TurnBeforeBackslash(b, mode);
      var turn := Turn(b, mode);
      assert mode == Block && b == "*" ==> turn == (" ", Block);
      hide Turn;
      var b' := b[|turn.0|..];
      assert w[|turn.0|..] == b' + "\\";
      assert MaskLine(w, mode).0 == turn.0 + MaskLine(b' + "\\", turn.1).0;
      assert MaskLine(b, mode).1 == MaskLine(b', turn.1).1;
      assert b' == "" ==> MaskLine(b', turn.1).1 == turn.1;
      hide MaskLine;
      KeptBackslash(b', turn.1, t);
    }
  }

  /**
   * The mode the mask is in at the start of a line, and the one C is in: the same, or inside the same
   * literal with only the escape apart and nothing it would matter to ahead.
   */
  predicate InStep(mode: Mode, cMode: Mode, rest: string) {
    mode == cMode
    || (mode.Quote? && cMode.Quote? && mode.mark == cMode.mark && !Starts(rest, [mode.mark, '\\']))
  }

  /** One character that is no mark and no backslash brings them together. */
  lemma InStepMasks(line: string, mode: Mode, cMode: Mode)
    requires line != "" && InStep(mode, cMode, line)
    ensures MaskLine(line, mode) == MaskLine(line, cMode)
    ensures forall t :: ScansAlone(line, mode, t) == ScansAlone(line, cMode, t)
  {
    if mode != cMode {
      assert Turn(line, mode) == Turn(line, cMode);
    }
  }

  /** So nothing of what is asked of the lines, or comes of them, depends on which of the two it is. */
  lemma InStepSame(lines: seq<string>, mode: Mode, cMode: Mode)
    requires lines != [] && InStep(mode, cMode, JoinSpliced(lines))
    requires if EndsInBackslash(lines[0]) then Body(lines[0]) != "" else lines[0] != ""
    ensures Harmless(lines, mode) == Harmless(lines, cMode) && Finished(lines, mode) == Finished(lines, cMode)
    ensures Masked(lines, mode) == Masked(lines, cMode)
  {
    var line := lines[0];
    assert JoinSpliced(lines)[0] == line[0];
    InStepMasks(line, mode, cMode);
    if EndsInBackslash(line) {
      assert Body(line)[0] == line[0];
      InStepMasks(Body(line), mode, cMode);
    }
    hide MaskLine, ScansAlone, InStep;
  }

  /** What is to be shown of the lines in step with C. */
  ghost predicate Agrees(lines: seq<string>, mode: Mode, cMode: Mode) {
    && (Finished(lines, mode) <==> Follows(JoinSpliced(lines), cMode))
    && (Finished(lines, mode) ==> JoinMasked(lines, Masked(lines, mode)) == MaskText(JoinSpliced(lines), cMode).0)
  }

  lemma WholeLineAgrees(lines: seq<string>, mode: Mode)
    requires lines != [] && !EndsInBackslash(lines[0]) && '\n' !in lines[0]
    requires Agrees(lines[1..], MaskLine(lines[0], mode).1, MaskLine(lines[0], mode).1)
    ensures Agrees(lines, mode, mode)
  {
    var (line, next) := MaskLine(lines[0], mode);
    LineMasks(lines[0], JoinSpliced(lines[1..]), mode);
    assert Masked(lines, mode)[1..] == Masked(lines[1..], next);
    hide MaskLine, MaskText, Follows;
  }

  lemma SplicedLine(lines: seq<string>, mode: Mode)
    requires lines != [] && EndsInBackslash(lines[0])
    ensures var (line, next) := MaskLine(lines[0], mode);
      && Finished(lines, mode) == Finished(lines[1..], next)
      && JoinMasked(lines, Masked(lines, mode)) == line[..|line| - 1] + JoinMasked(lines[1..], Masked(lines[1..], next))
  {
    var (line, next) := MaskLine(lines[0], mode);
    hide MaskLine;
    assert Masked(lines, mode) == [line] + Masked(lines[1..], next);
    assert Masked(lines, mode)[1..] == Masked(lines[1..], next);
  }

  lemma SplicedLineAgrees(lines: seq<string>, mode: Mode)
    requires lines != [] && EndsInBackslash(lines[0]) && '\n' !in lines[0]
    requires ScansAlone(Body(lines[0]), mode, JoinSpliced(lines[1..]))
    requires Agrees(lines[1..], MaskLine(lines[0], mode).1, MaskLine(Body(lines[0]), mode).1)
    ensures Agrees(lines, mode, mode)
  {
    var b, rest := Body(lines[0]), JoinSpliced(lines[1..]);
    BodyScans(b, mode, rest);
    BackslashScans(b, mode);
    assert b + "\\" == lines[0];
    SplicedLine(lines, mode);
    hide MaskLine, MaskText, Follows, ScansAlone, Masked, JoinMasked, Finished;
    assert JoinSpliced(lines) == b + rest;
  }

  lemma LoneBackslashAgrees(lines: seq<string>, mode: Mode, cMode: Mode)
    requires lines != [] && lines[0] == "\\" && mode.Quote? && cMode == Quote(mode.mark, !mode.escaped)
    requires Agrees(lines[1..], cMode, cMode)
    ensures Agrees(lines, mode, cMode)
  {
    BackslashScans("", mode);
    assert "" + "\\" == lines[0];
    assert MaskLine(lines[0], mode).1 == cMode;
    SplicedLine(lines, mode);
    hide MaskLine, MaskText, Follows, Masked, JoinMasked, Finished;
    assert JoinSpliced(lines) == "" + JoinSpliced(lines[1..]) == JoinSpliced(lines[1..]);
    assert |MaskLine(lines[0], mode).0| == 1;
  }

  lemma BrokenLiteralAgrees(lines: seq<string>, mode: Mode, cMode: Mode)
    requires lines != [] && lines[0] == "" && mode.Quote? && cMode.Quote?
    ensures Agrees(lines, mode, cMode)
  {
    assert JoinSpliced(lines)[0] == '\n';
    assert MaskLine("", mode) == ("", mode);
  }

  /** In step with C at the start of harmless lines, the mask comes out as C does. */
  lemma {:induction false} HarmlessAgrees(lines: seq<string>, mode: Mode, cMode: Mode)
    requires AreLines(lines) && Harmless(lines, mode) && InStep(mode, cMode, JoinSpliced(lines))
    ensures Agrees(lines, mode, cMode)
    decreases |lines|, if mode == cMode then 0 else 1
  {
    if lines == [] {
      return;
    }
    var rest := lines[1..];
    var next := MaskLine(lines[0], mode).1;
    hide MaskLine, Agrees, ScansAlone, Masked, JoinMasked;
    if mode == cMode {
      if EndsInBackslash(lines[0]) {
        NextInStep(lines[0], mode, JoinSpliced(rest));
        HarmlessAgrees(rest, next, MaskLine(Body(lines[0]), mode).1);
        SplicedLineAgrees(lines, mode);
      } else {
        HarmlessAgrees(rest, next, next);
        WholeLineAgrees(lines, mode);
      }
    } else if lines[0] == "" {
      BrokenLiteralAgrees(lines, mode, cMode);
    } else if lines[0] == "\\" {
      LoneBackslash(lines, mode);
      HarmlessAgrees(rest, cMode, cMode);
      LoneBackslashAgrees(lines, mode, cMode);
    } else {
      InStepSame(lines, mode, cMode);
      HarmlessAgrees(lines, cMode, cMode);
      SameAgrees(lines, mode, cMode);
    }
  }

  lemma NextInStep(line: string, mode: Mode, rest: string)
    requires EndsInBackslash(line) && SpliceFits(line, mode, rest)
    ensures InStep(MaskLine(line, mode).1, MaskLine(Body(line), mode).1, rest)
  {
    BackslashScans(Body(line), mode);
    hide MaskLine, ScansAlone;
    assert Body(line) + "\\" == line;
  }

  lemma LoneBackslash(lines: seq<string>, mode: Mode)
    requires lines != [] && lines[0] == "\\" && mode.Quote? && Harmless(lines, mode)
    ensures MaskLine(lines[0], mode).1 == Quote(mode.mark, !mode.escaped)
    ensures Harmless(lines[1..], Quote(mode.mark, !mode.escaped))
  {
    BackslashScans("", mode);
    assert "" + "\\" == lines[0];
  }

  lemma SameAgrees(lines: seq<string>, mode: Mode, cMode: Mode)
    requires Finished(lines, mode) == Finished(lines, cMode) && Masked(lines, mode) == Masked(lines, cMode)
    requires Agrees(lines, cMode, cMode)
    ensures Agrees(lines, mode, cMode)
  {
  }

  /**
   * Where every splice is harmless, the file has a C reading exactly when no line ends inside a literal
   * that does not go on and the last line is left in code.
   */
  lemma HasReadingIff(lines: seq<string>)
    requires AreLines(lines) && Harmless(lines, Code)
    ensures Finished(lines, Code) <==> exists ps :: IsReading(lines, ps)
  {
    HarmlessAgrees(lines, Code, Code);
    LexedIff(JoinSpliced(lines));
    hide ReadsAs;
    if ps :| ReadsAs(JoinSpliced(lines), ps) {
      assert IsReading(lines, ps);
    }
    if ps :| IsReading(lines, ps) {
      assert ReadsAs(JoinSpliced(lines), ps);
    }
  }

  /** And then the mask keeps the plain characters of any reading, in place, and nothing else. */
  lemma MaskFollowsReading(lines: seq<string>, ps: seq<Piece>)
    requires AreLines(lines) && Harmless(lines, Code) && IsReading(lines, ps)
    ensures JoinMasked(lines, Masked(lines, Code)) == PlainText(ps)
  {
    HarmlessAgrees(lines, Code, Code);
    MaskKeepsPlainText(ps);
  }

  // What is asked of a splice is exact: it holds when the scans agree whatever comes after the next
  // character c.

  lemma QuoteTurn(c: char, t: string, mode: Mode)
    requires mode.Quote? && c != '\n'
    ensures MaskText([c] + t, mode) == After(" ", MaskText(t, InQuote(c, mode.mark, mode.escaped)))
  {
    assert ([c] + t)[0] == c && ([c] + t)[1..] == t;
    TextTurnCases([c] + t, mode);
  }

  /** Inside a literal: neither the mark nor a backslash. */
  lemma LiteralSpliceExact(mark: char, escaped: bool, c: char)
    requires IsMark(mark) && c != '\n'
    ensures (forall t :: MaskText([c] + t, Quote(mark, !escaped)) == MaskText([c] + t, Quote(mark, escaped)))
       <==> c != mark && c != '\\'
  {
    forall t ensures
      && MaskText([c] + t, Quote(mark, !escaped)) == After(" ", MaskText(t, InQuote(c, mark, !escaped)))
      && MaskText([c] + t, Quote(mark, escaped)) == After(" ", MaskText(t, InQuote(c, mark, escaped)))
    {
      QuoteTurn(c, t, Quote(mark, !escaped));
      QuoteTurn(c, t, Quote(mark, escaped));
    }
    if c == mark || c == '\\' {
      assert MaskText([c] + "", Quote(mark, !escaped)).1 != MaskText([c] + "", Quote(mark, escaped)).1;
    }
  }

  /** After a slash in code: no second slash and no star. */
  lemma SlashSpliceExact(c: char)
    ensures (forall t :: MaskText("/" + ([c] + t), Code) == After("/", MaskText([c] + t, Code))) <==> c !in "/*"
  {
    forall t ensures c !in "/*" ==> MaskText("/" + ([c] + t), Code) == After("/", MaskText([c] + t, Code)) {
      var w := "/" + ([c] + t);
      assert w[0] == '/' && w[1] == c && w[1..] == [c] + t;
      TextTurnCases(w, Code);
    }
    if c in "/*" {
      var w := "/" + ([c] + "");
      assert w[0] == '/' && w[1] == c && |w| == 2;
      TextTurnCases(w, Code);
      assert MaskText(w, Code).0[0] == ' ' && After("/", MaskText([c] + "", Code)).0[0] == '/';
    }
  }

  /** After a star in a comment: no slash. */
  lemma StarSpliceExact(c: char)
    ensures (forall t :: MaskText("*" + ([c] + t), Block) == After(" ", MaskText([c] + t, Block))) <==> c != '/'
  {
    forall t ensures c != '/' ==> MaskText("*" + ([c] + t), Block) == After(" ", MaskText([c] + t, Block)) {
      var w := "*" + ([c] + t);
      assert w[0] == '*' && w[1] == c && w[1..] == [c] + t;
      TextTurnCases(w, Block);
    }
    if c == '/' {
      var w := "*" + ([c] + "");
      assert w[0] == '*' && w[1] == c && |w| == 2 && w[2..] == "";
      TextTurnCases(w, Block);
      var v := [c] + "";
      assert v[0] == c && |v| == 1 && v[1..] == "";
      TextTurnCases(v, Block);
      assert TextTurn(v, Block) == (" ", Block) && TextTurn(w, Block) == ("  ", Code);
      hide TextTurn;
      assert MaskText(v[1..], Block).1 == Block && MaskText(w[2..], Code).1 == Code;
      assert MaskText(w, Block).1 == Code && MaskText(v, Block).1 == Block;
    }
  }

  /** In a line comment: nothing but the end of the line. */
  lemma CommentSpliceExact(c: char)
    ensures (forall t :: MaskText("//" + ([c] + t), Code) == After("  ", MaskText([c] + t, Code))) <==> c == '\n'
  {
    forall t ensures c == '\n' ==> MaskText("//" + ([c] + t), Code) == After("  ", MaskText([c] + t, Code)) {
      var w := "//" + ([c] + t);
      if c == '\n' {
        CommentToEnd("//", [c] + t);
        assert w[0] == '/' && w[1] == '/' && w[2..] == [c] + t && Spaces(2) == "  ";
        TextTurnCases(w, Code);
        assert MaskText(w, Code) == After(Spaces(2), MaskText(w[2..], Code));
      }
    }
    if c != '\n' {
      CommentTail(c);
    }
  }

  lemma CommentTail(c: char)
    requires c != '\n'
    ensures MaskText("//" + ([c] + "x"), Code) != After("  ", MaskText([c] + "x", Code))
  {
    var w, v := "//" + ([c] + "x"), [c] + "x";
    assert w[0] == '/' && w[1] == '/' && w + "" == w;
    CommentToEnd(w, "");
    TextTurnCases(w, Code);
    hide TextTurn, LineLength;
    assert w[4..] == "" && MaskText(w, Code) == (Spaces(4) + "", Code);
    assert v[0] == c && v[1] == 'x' && v[1..] == "x" && "x"[1..] == "";
    TextTurnCases(v, Code);
    if IsMark(c) {
      TextTurnCases("x", Quote(c, false));
      assert MaskText("x", Quote(c, false)).1 == Quote(c, false);
    } else {
      TextTurnCases("x", Code);
      assert MaskText("x", Code) == ("x" + "", Code);
      assert MaskText(v, Code).0 == [c] + "x";
      assert After("  ", MaskText(v, Code)).0[3] == 'x' && (Spaces(4) + "")[3] == ' ';
    }
  }

  // ---------------------------------------------------------------- what the brace counts count

  /** `s.count(c)` for a single character. */
  function Count(c: char, s: string): nat {
    if s == "" then 0 else (if s[0] == c then 1 else 0) + Count(c, s[1..])
  }

  function CountLines(c: char, lines: seq<string>): nat {
    if lines == [] then 0 else Count(c, lines[0]) + CountLines(c, lines[1..])
  }

  function PlainCount(c: char, ps: seq<Piece>): nat {
    if ps == [] then 0 else (if ps[0] == Plain(c) then 1 else 0) + PlainCount(c, ps[1..])
  }

  lemma {:induction false} CountOfSum(c: char, a: string, b: string)
    ensures Count(c, a + b) == Count(c, a) + Count(c, b)
  {
    if a == "" {
      assert a + b == b;
    } else {
      CountOfSum(c, a[1..], b);
      assert (a + b)[1..] == a[1..] + b;
    }
  }

  lemma {:induction false} CountAbsent(c: char, s: string)
    requires c !in s
    ensures Count(c, s) == 0
  {
    if s != "" {
      CountAbsent(c, s[1..]);
    }
  }

  /** What is joined away is a backslash or a space. */
  lemma {:induction false} CountOfJoinMasked(c: char, lines: seq<string>, mode: Mode)
    requires c != '\n' && c != '\\' && c != ' '
    ensures Count(c, JoinMasked(lines, Masked(lines, mode))) == CountLines(c, Masked(lines, mode))
  {
    if lines != [] {
      var (line, next) := MaskLine(lines[0], mode);
      var rest := Masked(lines[1..], next);
      assert Masked(lines, mode) == [line] + rest && ([line] + rest)[1..] == rest;
      CountOfJoinMasked(c, lines[1..], next);
      OnlyBlanks(lines[0], mode);
      hide MaskLine, Masked;
      CountOfLine(c, lines[0], line, JoinMasked(lines[1..], rest));
    }
  }

  lemma CountOfLine(c: char, raw: string, line: string, rest: string)
    requires c != '\n' && c != '\\' && c != ' ' && |line| == |raw|
    requires forall i :: 0 <= i < |raw| ==> line[i] == raw[i] || line[i] == ' '
    ensures Count(c, line + "\n" + rest) == Count(c, line) + Count(c, rest)
    ensures EndsInBackslash(raw) ==> Count(c, line[..|line| - 1] + rest) == Count(c, line) + Count(c, rest)
  {
    CountOfSum(c, line + "\n", rest);
    CountOfSum(c, line, "\n");
    CountAbsent(c, "\n");
    if EndsInBackslash(raw) {
      var front, last := line[..|line| - 1], [line[|line| - 1]];
      assert line == front + last;
      CountOfSum(c, front, last);
      CountAbsent(c, last);
      CountOfSum(c, front, rest);
    }
  }

  lemma {:induction false} CountOfPlainText(c: char, ps: seq<Piece>)
    requires c != ' ' && c != '\n'
    ensures Count(c, PlainText(ps)) == PlainCount(c, ps)
  {
    if ps != [] {
      CountOfPlainText(c, ps[1..]);
      CountOfSum(c, PieceMask(ps[0]), PlainText(ps[1..]));
      if !ps[0].Plain? {
        CountAbsent(c, PieceMask(ps[0]));
      }
    }
  }

  /**
   * Counted over the masked lines of a finished file with harmless splices, a brace counts once for
   * each time it stands outside comments and literals, in any reading of the file, and there is one.
   */
  lemma BracesCounted(lines: seq<string>, brace: char)
    requires AreLines(lines) && Harmless(lines, Code) && Finished(lines, Code)
    requires brace == '{' || brace == '}'
    ensures exists ps :: IsReading(lines, ps)
    ensures forall ps :: IsReading(lines, ps) ==> CountLines(brace, Masked(lines, Code)) == PlainCount(brace, ps)
  {
    HasReadingIff(lines);
    forall ps | IsReading(lines, ps) ensures CountLines(brace, Masked(lines, Code)) == PlainCount(brace, ps) {
      MaskFollowsReading(lines, ps);
      CountOfJoinMasked(brace, lines, Code);
      CountOfPlainText(brace, ps);
    }
  }

  // ---------------------------------------------------------------- files the mask does not follow C on

  lemma OneMasked(c: char, mode: Mode, next: Mode)
    requires mode == Code ==> IsMark(c) && next == Quote(c, false)
    requires mode != Code ==> mode.Quote? && next == InQuote(c, mode.mark, mode.escaped)
    ensures MaskLine([c], mode) == (" ", next)
  {
    assert [c][1..] == "" && " " + "" == " ";
  }

  /** A literal entered or gone on with, two characters long. */
  lemma TwoMasked(c: char, d: char, mode: Mode, mid: Mode, next: Mode)
    requires mode == Code ==> IsMark(c) && mid == Quote(c, false)
    requires mode != Code ==> mode.Quote? && mid == InQuote(c, mode.mark, mode.escaped)
    requires mid.Quote? && next == InQuote(d, mid.mark, mid.escaped)
    ensures MaskLine([c, d], mode) == ("  ", next)
  {
    assert [c, d][1..] == [d] && " " + " " == "  ";
    OneMasked(d, mid, next);
    assert Turn([c, d], mode) == (" ", mid);
  }

  /** An apostrophe in prose, and the next one: no C reading, and the brace between them is lost. */
  lemma ApostropheHidesABrace()
    ensures Harmless(["'", "{'"], Code) && Masked(["'", "{'"], Code) == [" ", "  "]
    ensures !Finished(["'", "{'"], Code) && !exists ps :: IsReading(["'", "{'"], ps)
  {
    var first, second := "'", "{'";
    var quote := Quote('\'', false);
    OneMasked('\'', Code, quote);
    TwoMasked('{', '\'', quote, quote, Code);
    assert first == ['\''] && second == ['{', '\''];
    hide MaskLine;
    assert [first, second][1..] == [second];
    assert Masked([second], quote) == ["  "] + Masked([], Code);
    UnsplicedIsHarmless([first, second], Code);
    HasReadingIff([first, second]);
  }

  /** C joins the two lines into an empty literal and a brace; the mask takes the second quote as escaped. */
  lemma SpliceHidesABrace()
    ensures var ps := [Literal('"', []), Plain('{'), Plain('\n')];
      IsReading(["\"\\", "\"{"], ps) && PlainCount('{', ps) == 1
    ensures Masked(["\"\\", "\"{"], Code) == ["  ", "  "]
  {
    var first, second := "\"\\", "\"{";
    var quote, escape := Quote('"', false), Quote('"', true);
    TwoMasked('"', '\\', Code, quote, escape);
    TwoMasked('"', '{', escape, quote, quote);
    assert first == ['"', '\\'] && second == ['"', '{'];
    hide MaskLine;
    assert [first, second][1..] == [second];
    assert Masked([second], escape) == ["  "] + Masked([], quote);
    SplicedPair(first, second);
  }

  lemma SplicedPair(first: string, second: string)
    requires first == "\"\\" && second == "\"{"
    ensures var ps := [Literal('"', []), Plain('{'), Plain('\n')];
      IsReading([first, second], ps) && PlainCount('{', ps) == 1
  {
    var ps := [Literal('"', []), Plain('{'), Plain('\n')];
    assert ps[1..] == [Plain('{'), Plain('\n')] && ps[1..][1..] == [Plain('\n')] && ps[1..][1..][1..] == [];
    assert Text([Plain('\n')]) == "\n" && Text(ps[1..]) == "{\n" && Text(ps) == "\"\"{\n";
    assert [first, second][1..] == [second] && [second][1..] == [];
    assert JoinSpliced([second]) == "\"{\n" && JoinSpliced([first, second]) == "\"" + JoinSpliced([second]);
    assert Lexed([Plain('\n')]) && Lexed(ps[1..]);
  }
}
