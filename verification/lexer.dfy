/** The repository's own actions inside the Verilog lexer (`VerilogLexer`):
    keyword classification of identifier-shaped words, removal of the `_`
    digit separators from number tokens, unescaping of string literals, line
    counting over newlines and comments, the one-character skip on an illegal
    character, and the column of a position. Which rule matches where is
    decided by the lexer generator; here that choice is an input, a sequence
    of matched pieces. */
module Lexer {
  import opened Wrappers
  import opened Strings

  // ---------------------------------------------------------------------------
  // Keywords (`reserved`, `t_ID`)
  // ---------------------------------------------------------------------------

  /** The reserved words of the token table. */
  datatype Keyword =
    | Module | EndModule | Begin | End | Input | Inout | Output
    | Reg | Logic | Wire | Parameter | LocalParam | Assign | Always

  /** The `reserved` table, looked up by its lower-case spelling. */
  function Reserved(word: string): Option<Keyword> {
    if word == "module" then Some(Module)
    else if word == "endmodule" then Some(EndModule)
    else if word == "begin" then Some(Begin)
    else if word == "end" then Some(End)
    else if word == "input" then Some(Input)
    else if word == "inout" then Some(Inout)
    else if word == "output" then Some(Output)
    else if word == "reg" then Some(Reg)
    else if word == "logic" then Some(Logic)
    else if word == "wire" then Some(Wire)
    else if word == "parameter" then Some(Parameter)
    else if word == "localparam" then Some(LocalParam)
    else if word == "assign" then Some(Assign)
    else if word == "always" then Some(Always)
    else None
  }

  /** No upper-case letter occurs in `s`. */
  predicate NoUpper(s: string) {
    forall i :: 0 <= i < |s| ==> !('A' <= s[i] <= 'Z')
  }

  lemma LowerOfNoUpper(s: string)
    requires NoUpper(s)
    ensures Lower(s) == s
  {
  }

  /** The spelling under which a keyword is in the table; the table maps it
      back to the keyword. */
  function Spelling(k: Keyword): (r: string)
    ensures Reserved(r) == Some(k)
    ensures NoUpper(r)
  {
    match k
    case Module => "module"
    case EndModule => "endmodule"
    case Begin => "begin"
    case End => "end"
    case Input => "input"
    case Inout => "inout"
    case Output => "output"
    case Reg => "reg"
    case Logic => "logic"
    case Wire => "wire"
    case Parameter => "parameter"
    case LocalParam => "localparam"
    case Assign => "assign"
    case Always => "always"
  }

  /** Every entry of the table is the spelling of its keyword. */
  lemma ReservedSpelling(word: string)
    ensures Reserved(word).Some? ==> Spelling(Reserved(word).value) == word
  {
  }

  /** The text the identifier rule accepts: a letter, `_`, a backtick or `$`,
      then letters, digits, `_`, backticks or `$`. */
  predicate IsIdentifier(s: string) {
    |s| > 0 &&
    ('a' <= s[0] <= 'z' || 'A' <= s[0] <= 'Z' || s[0] == '_' || s[0] == '`' || s[0] == '$') &&
    forall i :: 1 <= i < |s| ==>
      'a' <= s[i] <= 'z' || 'A' <= s[i] <= 'Z' || '0' <= s[i] <= '9' ||
      s[i] == '_' || s[i] == '`' || s[i] == '$'
  }

  datatype WordKind = KeywordWord(keyword: Keyword) | IdentifierWord

  /** `t_ID`: the keyword whose spelling is the lower-cased text, or an
      identifier when there is none. */
  function ClassifyWord(text: string): (r: WordKind)
    ensures forall k :: r == KeywordWord(k) <==> Lower(text) == Spelling(k)
    ensures r.IdentifierWord? <==> Reserved(Lower(text)).None?
  {
    ReservedSpelling(Lower(text));
    match Reserved(Lower(text))
    case Some(k) => KeywordWord(k)
    case None => IdentifierWord
  }

  /** Keywords are recognised in any mix of cases. */
  lemma KeywordAnyCase(k: Keyword, text: string)
    requires Lower(text) == Spelling(k)
    ensures ClassifyWord(text) == KeywordWord(k)
    ensures ClassifyWord(Upper(Spelling(k))) == KeywordWord(k)
  {
    var s := Spelling(k);
    assert Lower(Upper(s)) == s by {
      forall i | 0 <= i < |s| ensures LowerChar(UpperChar(s[i])) == s[i] {
      }
    }
  }

  /** Classification depends on the letters only, not on their case. */
  lemma ClassifyIgnoresCase(text: string)
    ensures ClassifyWord(Lower(text)) == ClassifyWord(text)
    ensures ClassifyWord(Upper(text)) == ClassifyWord(text)
  {
    LowerIdempotent(text);
    assert Lower(Upper(text)) == Lower(text) by {
      forall i | 0 <= i < |text| ensures LowerChar(UpperChar(text[i])) == LowerChar(text[i]) {
      }
    }
  }

  // ---------------------------------------------------------------------------
  // Number tokens
  // ---------------------------------------------------------------------------

  /** The four number token kinds; each one's value is its text without
      `_` separators. */
  datatype NumberKind = DecNumber | HexNumber | OctNumber | BinNumber

  datatype NumberToken = NumberToken(kind: NumberKind, value: string)

  lemma {:induction false} ReplaceCharLength(s: string, c: char)
    ensures |ReplaceAll(s, [c], "")| == |s| - Count(s, c)
    decreases |s|
  {
    if |s| > 0 {
      ReplaceCharLength(s[1..], c);
    }
  }

  lemma {:induction false} ReplaceCharAbsent(s: string, c: char, repl: string)
    ensures c !in s ==> ReplaceAll(s, [c], repl) == s
    decreases |s|
  {
    if |s| > 0 && c !in s {
      assert s[0] != c && s[..1] == [s[0]];
      ReplaceCharAbsent(s[1..], c, repl);
      assert [s[0]] + s[1..] == s;
    }
  }

  /** The value of a number token: `text.replace('_', '')`. */
  function NumberValue(text: string): (r: string)
    ensures '_' !in r
    ensures |r| == |text| - Count(text, '_')
    ensures '_' !in text ==> r == text
  {
    ReplaceAllRemovesChar(text, '_', "");
    ReplaceCharLength(text, '_');
    ReplaceCharAbsent(text, '_', "");
    ReplaceAll(text, "_", "")
  }

  function LexNumber(kind: NumberKind, text: string): (r: NumberToken)
    ensures r.kind == kind && r.value == NumberValue(text)
  {
    NumberToken(kind, NumberValue(text))
  }

  /** Separators may sit anywhere: the value is the same without them. */
  lemma SeparatorIgnored(a: string, b: string)
    ensures NumberValue(a + "_" + b) == NumberValue(a + b)
  {
    ReplaceCharAppend(a + "_", b, '_', "");
    ReplaceCharAppend(a, "_", '_', "");
    ReplaceCharAppend(a, b, '_', "");
    assert ReplaceAll("_", "_", "") == "";
    assert ReplaceAll(a, "_", "") + "" == ReplaceAll(a, "_", "");
  }

  /** Stripping the separators twice removes no more than once. */
  lemma NumberValueIdempotent(text: string)
    ensures NumberValue(NumberValue(text)) == NumberValue(text)
  {
  }

  // ---------------------------------------------------------------------------
  // String literals (`t_STRING_LITERAL`)
  // ---------------------------------------------------------------------------

  /** The literal's text without its quotes. */
  function Inner(text: string): (r: string)
    requires |text| >= 2
    ensures |r| == |text| - 2
  {
    text[1..|text| - 1]
  }

  /** As written: four whole-text replacements one after the other, so the
      output of one can feed the next. */
  function StringValueAsWritten(text: string): (r: string)
    requires |text| >= 2
    ensures '\\' !in Inner(text) ==> r == Inner(text)
  {
    var v := Inner(text);
    NoBackslashNoEscape(v, '"', "\"");
    NoBackslashNoEscape(v, '\\', "\\");
    NoBackslashNoEscape(v, 'n', "\n");
    NoBackslashNoEscape(v, 't', "\t");
    var a := ReplaceAll(v, "\\\"", "\"");
    var b := ReplaceAll(a, "\\\\", "\\");
    var c := ReplaceAll(b, "\\n", "\n");
    ReplaceAll(c, "\\t", "\t")
  }

  lemma NoBackslashNoEscape(s: string, x: char, repl: string)
    ensures '\\' !in s ==> ReplaceAll(s, ['\\', x], repl) == s
  {
    if '\\' !in s {
      forall k ensures !OccursAt(s, k, ['\\', x]) {
        if 0 <= k && k + 2 <= |s| {
          assert s[k..k + 2][0] == s[k];
        }
      }
      ReplaceAllAbsent(s, ['\\', x], repl);
    }
  }

  /** The character an escape stands for, for the four escapes the lexer
      knows. */
  function EscapedChar(c: char): Option<char> {
    if c == '"' then Some('"')
    else if c == '\\' then Some('\\')
    else if c == 'n' then Some('\n')
    else if c == 't' then Some('\t')
    else None
  }

  /** The intended reading: one pass from left to right, each backslash
      taking the character after it, unknown escapes kept as they are. */
  function Unescape(s: string): (r: string)
    ensures |r| <= |s|
    ensures '\\' !in s ==> r == s
    decreases |s|
  {
    if |s| == 0 then ""
    else if s[0] == '\\' && |s| >= 2 && EscapedChar(s[1]).Some? then
      [EscapedChar(s[1]).value] + Unescape(s[2..])
    else
      [s[0]] + Unescape(s[1..])
  }

  function StringValue(text: string): (r: string)
    requires |text| >= 2
    ensures |r| <= |text| - 2
    ensures '\\' !in Inner(text) ==> r == Inner(text)
  {
    Unescape(Inner(text))
  }

  /** How a character is written inside a literal. */
  function EscapeChar(c: char): (r: string)
    ensures 1 <= |r| <= 2
  {
    if c == '"' then "\\\""
    else if c == '\\' then "\\\\"
    else if c == '\n' then "\\n"
    else if c == '\t' then "\\t"
    else [c]
  }

  function Escape(s: string): (r: string)
    ensures |r| >= |s|
    decreases |s|
  {
    if |s| == 0 then "" else EscapeChar(s[0]) + Escape(s[1..])
  }

  /** The body the literal rule accepts: characters other than a quote or a
      backslash, and backslashes each followed by a character other than a
      newline. */
  predicate LiteralBody(v: string)
    decreases |v|
  {
    |v| == 0 ||
    (v[0] != '"' && v[0] != '\\' && LiteralBody(v[1..])) ||
    (|v| >= 2 && v[0] == '\\' && v[1] != '\n' && LiteralBody(v[2..]))
  }

  /** Escaping gives a body the literal rule accepts. */
  lemma {:induction false} EscapeIsLiteralBody(s: string)
    ensures LiteralBody(Escape(s))
    decreases |s|
  {
    if |s| > 0 {
      EscapeIsLiteralBody(s[1..]);
      var e := EscapeChar(s[0]);
      var rest := Escape(s[1..]);
      assert (e + rest)[|e|..] == rest;
    }
  }

  /** Unescaping undoes escaping. */
  lemma {:induction false} UnescapeEscape(s: string)
    ensures Unescape(Escape(s)) == s
    decreases |s|
  {
    if |s| > 0 {
      var rest := Escape(s[1..]);
      assert Escape(s) == EscapeChar(s[0]) + rest;
      UnescapeEscape(s[1..]);
      UnescapeEscapeChar(s[0], rest);
      assert [s[0]] + s[1..] == s;
    }
  }

  /** Unescaping reads one escaped character back and goes on after it. */
  lemma UnescapeEscapeChar(c: char, rest: string)
    ensures Unescape(EscapeChar(c) + rest) == [c] + Unescape(rest)
  {
    var e := EscapeChar(c);
    var t := e + rest;
    if |e| == 2 {
      assert t[0] == '\\' && EscapedChar(t[1]) == Some(c);
      assert t[2..] == rest;
    } else {
      assert t[0] == c && c != '\\';
      assert t[1..] == rest;
    }
  }

  /** A literal written by escaping `s` reads back as `s`. */
  lemma StringLiteralRoundTrip(s: string)
    ensures StringValue("\"" + Escape(s) + "\"") == s
  {
    var lit := "\"" + Escape(s) + "\"";
    assert Inner(lit) == Escape(s);
    UnescapeEscape(s);
  }

  /** The literal `"\\n"` denotes a backslash followed by `n`; the sequential
      replacements turn it into a newline. */
  lemma EscapedBackslashBecomesNewline()
    ensures StringValue("\"\\\\n\"") == "\\n"
    ensures StringValueAsWritten("\"\\\\n\"") == "\n"
  {
    var lit := "\"\\\\n\"";
    var v := Inner(lit);
    assert v == "\\\\n";
    assert Unescape(v) == "\\" + Unescape("n");
    assert Unescape("n") == "n" + Unescape("");
    var a := ReplaceAll(v, "\\\"", "\"");
    assert ReplaceAll("n", "\\\"", "\"") == "n";
    assert v[1..] == "\\n" && v[1..][..2] != "\\\"" && v[1..][1..] == "n";
    assert ReplaceAll(v[1..], "\\\"", "\"") == v[1..];
    assert v[..2] != "\\\"";
    assert a == v;
    var b := ReplaceAll(a, "\\\\", "\\");
    assert v[..2] == "\\\\" && v[2..] == "n";
    assert ReplaceAll("n", "\\\\", "\\") == "n";
    assert b == "\\n";
    var c := ReplaceAll(b, "\\n", "\n");
    assert b[..2] == "\\n" && b[2..] == "";
    assert c == "\n";
    var d := ReplaceAll(c, "\\t", "\t");
    assert d == "\n";
  }

  // ---------------------------------------------------------------------------
  // Line counting, the illegal-character skip and columns
  // ---------------------------------------------------------------------------

  /** What the lexer generator matched at a position: a token, a run of
      newlines, a line or block comment, an ignored space or tab, or a
      character no rule accepts. */
  datatype Piece =
    | Tok(text: string)
    | NewlineRun(text: string)
    | LineComment(text: string)
    | BlockComment(text: string)
    | Blank(ch: char)
    | Illegal(ch: char)

  function PieceText(p: Piece): string {
    match p
    case Tok(t) => t
    case NewlineRun(t) => t
    case LineComment(t) => t
    case BlockComment(t) => t
    case Blank(c) => [c]
    case Illegal(c) => [c]
  }

  /** The shapes the rules give each piece. A token is taken to hold no
      newline. */
  predicate WellFormed(p: Piece) {
    match p
    case Tok(t) => |t| > 0 && '\n' !in t
    case NewlineRun(t) => |t| > 0 && forall i :: 0 <= i < |t| ==> t[i] == '\n'
    case LineComment(t) => StartsWith(t, "//") && '\n' !in t
    case BlockComment(t) => |t| >= 4 && StartsWith(t, "/*") && EndsWith(t, "*/")
    case Blank(c) => c == ' ' || c == '\t'
    case Illegal(c) => c != '\n'
  }

  /** How far a piece moves the line number: a newline run by its length, a
      block comment by the newlines inside it, anything else not at all. */
  function LineAdvance(p: Piece): nat {
    match p
    case NewlineRun(t) => |t|
    case BlockComment(t) => Count(t, '\n')
    case _ => 0
  }

  lemma {:induction false} CountAllNewlines(t: string)
    requires forall i :: 0 <= i < |t| ==> t[i] == '\n'
    ensures Count(t, '\n') == |t|
    decreases |t|
  {
    if |t| > 0 {
      CountAllNewlines(t[1..]);
    }
  }

  /** The advance of every piece is the number of newlines it covers. */
  lemma AdvanceCountsNewlines(p: Piece)
    requires WellFormed(p)
    ensures LineAdvance(p) == Count(PieceText(p), '\n')
  {
    match p
    case NewlineRun(t) => CountAllNewlines(t);
    case BlockComment(t) =>
    case Tok(t) => CountZeroIffAbsent(t, '\n');
    case LineComment(t) => CountZeroIffAbsent(t, '\n');
    case Blank(c) => assert [c][1..] == [];
    case Illegal(c) => assert [c][1..] == [];
  }

  function Concat(ps: seq<Piece>): string
    decreases |ps|
  {
    if |ps| == 0 then "" else PieceText(ps[0]) + Concat(ps[1..])
  }

  /** What the lexer reports: a token, or an illegal character, each with
      its line and its offset in the input. */
  datatype Event = TokenAt(text: string, line: nat, pos: nat) | ErrorAt(ch: char, line: nat, pos: nat)

  /** What a single piece reports when read at `pos` on line `line`. */
  function Report(p: Piece, pos: nat, line: nat): (r: seq<Event>)
    ensures |r| <= 1
    ensures |r| == 1 <==> p.Tok? || p.Illegal?
    ensures forall i :: 0 <= i < |r| ==> r[i].pos == pos && r[i].line == line
  {
    match p
    case Tok(t) => [TokenAt(t, line, pos)]
    case Illegal(c) => [ErrorAt(c, line, pos)]
    case _ => []
  }

  /** The lexer over matched pieces, from offset `pos` on line `line`:
      tokens are reported, newlines and comments move the line number and
      report nothing, an illegal character is reported and skipped alone. */
  function Run(ps: seq<Piece>, pos: nat, line: nat): (r: seq<Event>)
    ensures forall i :: 0 <= i < |r| ==> r[i].pos >= pos
    decreases |ps|
  {
    if |ps| == 0 then []
    else
      var p := ps[0];
      Report(p, pos, line) + Run(ps[1..], pos + |PieceText(p)|, line + LineAdvance(p))
  }

  /** An illegal character is reported and lexing goes on one character
      further. */
  lemma IllegalSkipsOne(c: char, ps: seq<Piece>, pos: nat, line: nat)
    ensures Run([Illegal(c)] + ps, pos, line) == [ErrorAt(c, line, pos)] + Run(ps, pos + 1, line)
  {
    assert ([Illegal(c)] + ps)[1..] == ps;
  }

  function TokenTexts(evs: seq<Event>): seq<string>
    decreases |evs|
  {
    if |evs| == 0 then []
    else if evs[0].TokenAt? then [evs[0].text] + TokenTexts(evs[1..])
    else TokenTexts(evs[1..])
  }

  function TokPieces(ps: seq<Piece>): seq<string>
    decreases |ps|
  {
    if |ps| == 0 then []
    else if ps[0].Tok? then [ps[0].text] + TokPieces(ps[1..])
    else TokPieces(ps[1..])
  }

  /** The tokens reported are the token pieces, in order: comments, newlines,
      blanks and illegal characters give none. */
  lemma {:induction false} TokensArePieces(ps: seq<Piece>, pos: nat, line: nat)
    ensures TokenTexts(Run(ps, pos, line)) == TokPieces(ps)
    decreases |ps|
  {
    if |ps| > 0 {
      var p := ps[0];
      var rest := Run(ps[1..], pos + |PieceText(p)|, line + LineAdvance(p));
      TokensArePieces(ps[1..], pos + |PieceText(p)|, line + LineAdvance(p));
      var head := Report(p, pos, line);
      RunCons(ps, pos, line);
      TokenTextsShort(head, rest);
      ReportTokens(p, pos, line);
    }
  }

  lemma TokenTextsShort(head: seq<Event>, rest: seq<Event>)
    requires |head| <= 1
    ensures TokenTexts(head + rest) == TokenTexts(head) + TokenTexts(rest)
  {
    if |head| == 0 {
      assert head + rest == rest;
    } else {
      assert (head + rest)[0] == head[0] && (head + rest)[1..] == rest;
    }
  }

  lemma ReportTokens(p: Piece, pos: nat, line: nat)
    ensures TokenTexts(Report(p, pos, line)) == if p.Tok? then [p.text] else []
  {
  }

  /** The number of the line holding offset `pos`: one more than the
      newlines before it. */
  function LineOf(input: string, pos: nat): nat
    requires pos <= |input|
  {
    1 + Count(input[..pos], '\n')
  }

  /** One step of the line invariant: a well-formed piece read at `pos`
      brings the line number to the line of the offset after it. */
  lemma LineStep(input: string, p: Piece, pos: nat, line: nat)
    requires WellFormed(p)
    requires pos + |PieceText(p)| <= |input| && input[pos..pos + |PieceText(p)|] == PieceText(p)
    requires line == LineOf(input, pos)
    ensures line + LineAdvance(p) == LineOf(input, pos + |PieceText(p)|)
  {
    var t := PieceText(p);
    assert input[..pos + |t|] == input[..pos] + t;
    CountAppend(input[..pos], t, '\n');
    AdvanceCountsNewlines(p);
  }

  /** The input at `pos` begins with the first piece, and the rest of it
      is the other pieces. */
  lemma PieceSplit(input: string, ps: seq<Piece>, pos: nat)
    requires |ps| > 0 && pos <= |input| && input[pos..] == Concat(ps)
    ensures pos + |PieceText(ps[0])| <= |input|
    ensures input[pos..pos + |PieceText(ps[0])|] == PieceText(ps[0])
    ensures input[pos + |PieceText(ps[0])|..] == Concat(ps[1..])
  {
    var t := PieceText(ps[0]);
    assert Concat(ps) == t + Concat(ps[1..]);
    assert input[pos..][..|t|] == t;
  }

  /** A report carries the line its offset is on, counted from 1, and an
      illegal character is reported with the character at its offset. */
  predicate EventOk(input: string, e: Event) {
    e.pos < |input| && e.line == LineOf(input, e.pos) && (e.ErrorAt? ==> input[e.pos] == e.ch)
  }

  /** Every report of the lexer is as `EventOk` says. */
  lemma {:induction false} EventLines(input: string, ps: seq<Piece>, pos: nat, line: nat, i: nat)
    requires forall k :: 0 <= k < |ps| ==> WellFormed(ps[k])
    requires pos <= |input| && input[pos..] == Concat(ps)
    requires line == LineOf(input, pos)
    requires i < |Run(ps, pos, line)|
    ensures EventOk(input, Run(ps, pos, line)[i])
    decreases |ps|, 1
  {
    var p := ps[0];
    var head := Report(p, pos, line);
    if i < |head| {
      PieceSplit(input, ps, pos);
      RunCons(ps, pos, line);
      HeadEvent(input, p, pos, line);
      EventOkAt(input, Run(ps, pos, line), head, Run(ps[1..], pos + |PieceText(p)|, line + LineAdvance(p)), i);
    } else {
      EventLinesAfterHead(input, ps, pos, line, i);
    }
  }

  /** The reports after the first piece's are those of the other pieces. */
  lemma {:induction false} EventLinesAfterHead(input: string, ps: seq<Piece>, pos: nat, line: nat, i: nat)
    requires forall k :: 0 <= k < |ps| ==> WellFormed(ps[k])
    requires pos <= |input| && input[pos..] == Concat(ps)
    requires line == LineOf(input, pos)
    requires i < |Run(ps, pos, line)| && |ps| > 0 && i >= |Report(ps[0], pos, line)|
    ensures EventOk(input, Run(ps, pos, line)[i])
    decreases |ps|, 0
  {
    var p := ps[0];
    var next := pos + |PieceText(p)|;
    var line' := line + LineAdvance(p);
    var head := Report(p, pos, line);
    var rest := Run(ps[1..], next, line');
    PieceSplit(input, ps, pos);
    RunCons(ps, pos, line);
    LineStep(input, p, pos, line);
    EventLines(input, ps[1..], next, line', i - |head|);
    EventOkAt(input, Run(ps, pos, line), head, rest, i);
  }

  lemma RunCons(ps: seq<Piece>, pos: nat, line: nat)
    requires |ps| > 0
    ensures Run(ps, pos, line) == Report(ps[0], pos, line) + Run(ps[1..], pos + |PieceText(ps[0])|, line + LineAdvance(ps[0]))
  {
  }

  lemma EventOkAt(input: string, evs: seq<Event>, head: seq<Event>, rest: seq<Event>, i: nat)
    requires evs == head + rest && i < |evs|
    requires i < |head| ==> EventOk(input, head[i])
    requires i >= |head| ==> EventOk(input, rest[i - |head|])
    ensures EventOk(input, evs[i])
  {
  }

  /** What a piece reports is on the line of its offset, and an illegal
      character is reported with the character found there. */
  lemma HeadEvent(input: string, p: Piece, pos: nat, line: nat)
    requires WellFormed(p)
    requires pos + |PieceText(p)| <= |input| && input[pos..pos + |PieceText(p)|] == PieceText(p)
    requires line == LineOf(input, pos)
    requires |Report(p, pos, line)| > 0
    ensures EventOk(input, Report(p, pos, line)[0])
  {
    var t := PieceText(p);
    assert |t| > 0 && input[pos] == t[0];
  }

  /** `find_column`'s line start: the offset after the last newline before
      `pos`, or 0 when there is none. */
  function LineStart(input: string, pos: nat): (r: nat)
    requires pos <= |input|
    ensures r <= pos
    ensures r == 0 || input[r - 1] == '\n'
    ensures forall k :: r <= k < pos ==> input[k] != '\n'
    decreases pos
  {
    if pos == 0 then 0
    else if input[pos - 1] == '\n' then pos
    else LineStart(input, pos - 1)
  }

  /** `find_column`: the offset within its line, counted from 1. */
  function FindColumn(input: string, pos: nat): (r: nat)
    requires pos <= |input|
    ensures 1 <= r <= pos + 1
    ensures r == 1 <==> pos == 0 || input[pos - 1] == '\n'
  {
    pos - LineStart(input, pos) + 1
  }

  /** After a newline, the column is one more than the characters since. */
  lemma {:induction false} ColumnAfterNewline(a: string, b: string)
    requires '\n' !in b
    ensures FindColumn(a + "\n" + b, |a| + 1 + |b|) == |b| + 1
    decreases |b|
  {
    var s := a + "\n" + b;
    if |b| > 0 {
      var b' := b[..|b| - 1];
      assert s == (a + "\n" + b') + [b[|b| - 1]];
      assert s[..|a| + 1 + |b'|] == a + "\n" + b';
      ColumnAfterNewline(a, b');
      LineStartPrefix(s, a + "\n" + b', |a| + 1 + |b'|);
      assert s[|a| + |b|] == b[|b| - 1];
    }
  }

  /** The line start depends on the text before the offset only. */
  lemma {:induction false} LineStartPrefix(s: string, t: string, pos: nat)
    requires pos <= |t| <= |s| && s[..|t|] == t
    ensures LineStart(s, pos) == LineStart(t, pos)
    decreases pos
  {
    if pos > 0 {
      assert s[pos - 1] == t[pos - 1];
      LineStartPrefix(s, t, pos - 1);
    }
  }

  /** The message for an illegal character: its line, its column and the
      character itself. */
  datatype ErrorReport = ErrorReport(line: nat, column: nat, ch: char)

  function ReportError(input: string, e: Event): (r: ErrorReport)
    requires e.ErrorAt? && e.pos <= |input|
    ensures r.line == e.line && r.ch == e.ch && 1 <= r.column <= e.pos + 1
  {
    ErrorReport(e.line, FindColumn(input, e.pos), e.ch)
  }
}
