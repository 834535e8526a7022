/** The semantic actions of the Verilog parser (`VerilogParser`): expressions
    flattened back to text, the packed dimension as a pair of bound texts,
    port and parameter declarations in the module header and in the body,
    and the preprocessing step with its fallback to the original text. The
    grammar automaton is not modelled: a parsed expression is given as a
    tree, and a declaration as the tokens of its production. */
module Parser {
  import opened Wrappers
  import opened Strings
  import Lexer
  import Signature
  import Preprocess

  // ---------------------------------------------------------------------------
  // Expressions
  // ---------------------------------------------------------------------------

  datatype UnaryOp = UPlus | UMinus | BitNot | LogicNot

  function UnarySymbol(op: UnaryOp): string {
    match op
    case UPlus => "+"
    case UMinus => "-"
    case BitNot => "~"
    case LogicNot => "!"
  }

  /** The binary operator tokens; the exclusive-nor token has two
      spellings, and its text is what is rendered. */
  datatype BinaryOp =
    | Add | Sub | Mul | Div | Mod | Pow
    | Lt | Gt | Le | Ge | Eq | Ne
    | LogicAnd | LogicOr | BitAnd | BitOr | BitXor | XnorCaretTilde | XnorTildeCaret
    | Shl | Shr

  function BinarySymbol(op: BinaryOp): string {
    match op
    case Add => "+"
    case Sub => "-"
    case Mul => "*"
    case Div => "/"
    case Mod => "%"
    case Pow => "**"
    case Lt => "<"
    case Gt => ">"
    case Le => "<="
    case Ge => ">="
    case Eq => "=="
    case Ne => "!="
    case LogicAnd => "&&"
    case LogicOr => "||"
    case BitAnd => "&"
    case BitOr => "|"
    case BitXor => "^"
    case XnorCaretTilde => "^~"
    case XnorTildeCaret => "~^"
    case Shl => "<<"
    case Shr => ">>"
  }

  /** An expression as the productions build it. A number holds its token
      value, a string literal its unescaped value; the argument list of a call
      and the items of a concatenation are non-empty in the grammar. */
  datatype Expr =
    | Number(text: string)
    | Ident(name: string)
    | StringLit(value: string)
    | SignedNumber(negative: bool, digits: string)
    | BitSelect(id: string, index: Expr)
    | PartSelect(id: string, msb: Expr, lsb: Expr)
    | Call(callee: string, args: seq<Expr>)
    | Unary(uop: UnaryOp, operand: Expr)
    | Binary(left: Expr, bop: BinaryOp, right: Expr)
    | Conditional(cond: Expr, yes: Expr, no: Expr)
    | Paren(inner: Expr)
    | Concat(items: seq<Expr>)

  /** As written, a string primary is put back between quotes with its
      value as it is. */
  function StringPrimaryAsWritten(v: string): string {
    "\"" + v + "\""
  }

  /** Corrected: the value is escaped again before it is put back between
      quotes, so the text is a literal that reads back as the value. */
  function StringPrimary(v: string): (r: string)
    ensures |r| >= 2 && Lexer.Inner(r) == Lexer.Escape(v)
  {
    var r := "\"" + Lexer.Escape(v) + "\"";
    assert r[1..|r| - 1] == Lexer.Escape(v);
    r
  }

  /** The text each production builds. A string literal is put back as a
      literal the lexer accepts and reads back as the same value. */
  function Render(e: Expr): (r: string)
    ensures e.StringLit? ==> |r| >= 2 && Lexer.LiteralBody(Lexer.Inner(r)) && Lexer.StringValue(r) == e.value
    decreases e, 1
  {
    match e
    case Number(t) => t
    case Ident(n) => n
    case StringLit(v) => StringPrimaryReadsBack(v); StringPrimary(v)
    case SignedNumber(neg, t) => (if neg then "-" else "+") + t
    case BitSelect(id, i) => id + "[" + Render(i) + "]"
    case PartSelect(id, m, l) => id + "[" + Render(m) + ":" + Render(l) + "]"
    case Call(f, args) => f + "(" + RenderList(args, e) + ")"
    case Unary(op, x) => UnarySymbol(op) + Render(x)
    case Binary(l, op, r) => Render(l) + BinarySymbol(op) + Render(r)
    case Conditional(c, a, b) => "(" + Render(c) + " ? " + Render(a) + " : " + Render(b) + ")"
    case Paren(x) => Render(x)
    case Concat(items) => "{" + RenderList(items, e) + "}"
  }

  /** `expression_list`: the items joined by a comma and a space. */
  function RenderList(es: seq<Expr>, ghost parent: Expr): string
    requires forall i :: 0 <= i < |es| ==> es[i] < parent
    decreases parent, 0, |es|
  {
    if |es| == 0 then ""
    else if |es| == 1 then Render(es[0])
    else Render(es[0]) + ", " + RenderList(es[1..], parent)
  }

  /** The list text is the item texts separated by a comma and a space. */
  lemma {:induction false} RenderListIsJoin(es: seq<Expr>, parent: Expr)
    requires forall i :: 0 <= i < |es| ==> es[i] < parent
    ensures RenderList(es, parent) == Join(seq(|es|, i requires 0 <= i < |es| => Render(es[i])), ", ")
    decreases |es|
  {
    var texts := seq(|es|, i requires 0 <= i < |es| => Render(es[i]));
    if |es| > 1 {
      RenderListIsJoin(es[1..], parent);
      assert texts[1..] == seq(|es[1..]|, i requires 0 <= i < |es[1..]| => Render(es[1..][i]));
    }
  }

  /** Parentheses are dropped, so the grouping they expressed is lost:
      `(A+B)*2` and `A+B*2` give the same text. */
  lemma GroupingLost()
    ensures Render(Binary(Paren(Binary(Ident("A"), Add, Ident("B"))), Mul, Number("2"))) ==
            Render(Binary(Ident("A"), Add, Binary(Ident("B"), Mul, Number("2"))))
    ensures Render(Binary(Ident("A"), Add, Binary(Ident("B"), Mul, Number("2")))) == "A+B*2"
  {
  }

  /** The corrected string primary is a literal the lexer accepts, and it
      reads back as the value. */
  lemma StringPrimaryReadsBack(v: string)
    ensures Lexer.LiteralBody(Lexer.Inner(StringPrimary(v)))
    ensures Lexer.StringValue(StringPrimary(v)) == v
  {
    Lexer.EscapeIsLiteralBody(v);
    Lexer.UnescapeEscape(v);
  }

  /** Values without a quote, a backslash, a newline or a tab are written
      alike by the source and by the corrected primary. */
  lemma StringPrimaryAgrees(v: string)
    requires forall i :: 0 <= i < |v| ==> v[i] !in "\"\\\n\t"
    ensures StringPrimaryAsWritten(v) == StringPrimary(v)
  {
    EscapePlain(v);
  }

  lemma {:induction false} EscapePlain(v: string)
    requires forall i :: 0 <= i < |v| ==> v[i] !in "\"\\\n\t"
    ensures Lexer.Escape(v) == v
    decreases |v|
  {
    if |v| > 0 {
      EscapePlain(v[1..]);
      assert [v[0]] + v[1..] == v;
    }
  }

  /** As written, the value `a"b` is rendered `"a"b"`, which is not a
      literal: the quote in the middle would end it. */
  lemma StringPrimaryAsWrittenBreaks()
    ensures StringPrimaryAsWritten("a\"b") == "\"a\"b\""
    ensures !Lexer.LiteralBody(Lexer.Inner(StringPrimaryAsWritten("a\"b")))
  {
    var inner := Lexer.Inner(StringPrimaryAsWritten("a\"b"));
    assert inner == "a\"b";
    assert inner[1..] == "\"b";
    assert !Lexer.LiteralBody("\"b");
  }

  // ---------------------------------------------------------------------------
  // Bracket balance of the rendered text
  // ---------------------------------------------------------------------------

  predicate NoBrackets(s: string) {
    forall i :: 0 <= i < |s| ==> s[i] !in "()[]{}"
  }

  /** No name, number or string value in the expression holds a bracket. */
  predicate LeavesFree(e: Expr)
    decreases e
  {
    match e
    case Number(t) => NoBrackets(t)
    case Ident(n) => NoBrackets(n)
    case StringLit(v) => NoBrackets(v)
    case SignedNumber(_, t) => NoBrackets(t)
    case BitSelect(id, i) => NoBrackets(id) && LeavesFree(i)
    case PartSelect(id, m, l) => NoBrackets(id) && LeavesFree(m) && LeavesFree(l)
    case Call(f, args) => NoBrackets(f) && forall i :: 0 <= i < |args| ==> LeavesFree(args[i])
    case Unary(_, x) => LeavesFree(x)
    case Binary(l, _, r) => LeavesFree(l) && LeavesFree(r)
    case Conditional(c, a, b) => LeavesFree(c) && LeavesFree(a) && LeavesFree(b)
    case Paren(x) => LeavesFree(x)
    case Concat(items) => forall i :: 0 <= i < |items| ==> LeavesFree(items[i])
  }

  /** The opening minus the closing brackets of one kind. */
  function Bal(s: string, o: char, c: char): int {
    Count(s, o) - Count(s, c)
  }

  /** As many opening as closing brackets of each of the three kinds. */
  predicate Balanced(s: string) {
    forall o, c {:trigger Bal(s, o, c)} :: BracketPair(o, c) ==> Bal(s, o, c) == 0
  }

  lemma BalAppend(a: string, b: string, o: char, c: char)
    ensures Bal(a + b, o, c) == Bal(a, o, c) + Bal(b, o, c)
  {
    CountAppend(a, b, o);
    CountAppend(a, b, c);
  }

  predicate BracketPair(o: char, c: char) {
    (o == '(' && c == ')') || (o == '[' && c == ']') || (o == '{' && c == '}')
  }

  lemma {:induction false} BracketFreeBalanced(s: string, o: char, c: char)
    requires NoBrackets(s) && BracketPair(o, c)
    ensures Bal(s, o, c) == 0
    decreases |s|
  {
    if |s| > 0 {
      assert s[0] != o && s[0] != c;
      BracketFreeBalanced(s[1..], o, c);
    }
  }

  /** A text without brackets is balanced. */
  lemma FreeBalanced(s: string)
    ensures NoBrackets(s) ==> Balanced(s)
  {
    if NoBrackets(s) {
      forall o, c | BracketPair(o, c) ensures Bal(s, o, c) == 0 {
        BracketFreeBalanced(s, o, c);
      }
    }
  }

  /** Two balanced texts side by side. */
  lemma Juxtaposed(a: string, b: string)
    ensures Balanced(a) && Balanced(b) ==> Balanced(a + b)
  {
    forall o, c | BracketPair(o, c) ensures Bal(a + b, o, c) == Bal(a, o, c) + Bal(b, o, c) {
      BalAppend(a, b, o, c);
    }
  }

  /** A bracket-free separator between two balanced texts. */
  lemma Joined(a: string, sep: string, b: string)
    ensures Balanced(a) && NoBrackets(sep) && Balanced(b) ==> Balanced(a + sep + b)
  {
    FreeBalanced(sep);
    Juxtaposed(a, sep);
    Juxtaposed(a + sep, b);
  }

  /** A balanced text between an opening and the matching closing bracket,
      after a balanced prefix. */
  lemma Wrapped(pre: string, open: char, x: string, close: char)
    requires BracketPair(open, close)
    ensures Balanced(pre) && Balanced(x) ==> Balanced(pre + [open] + x + [close])
  {
    forall o, c | BracketPair(o, c)
      ensures Bal(pre + [open] + x + [close], o, c) == Bal(pre, o, c) + Bal(x, o, c)
    {
      Enclosed(pre, open, x, close, o, c);
    }
  }

  lemma Enclosed(pre: string, open: char, x: string, close: char, o: char, c: char)
    requires BracketPair(o, c) && BracketPair(open, close)
    ensures Bal(pre + [open] + x + [close], o, c) == Bal(pre, o, c) + Bal(x, o, c)
  {
    assert [open][1..] == [] && [close][1..] == [];
    assert Count([open], o) == (if open == o then 1 else 0);
    assert Count([open], c) == (if open == c then 1 else 0);
    assert Count([close], o) == (if close == o then 1 else 0);
    assert Count([close], c) == (if close == c then 1 else 0);
    BalAppend(pre, [open], o, c);
    BalAppend(pre + [open], x, o, c);
    BalAppend(pre + [open] + x, [close], o, c);
  }

  lemma {:induction false} EscapeNoBrackets(v: string)
    requires NoBrackets(v)
    ensures NoBrackets(Lexer.Escape(v))
    decreases |v|
  {
    if |v| > 0 {
      EscapeNoBrackets(v[1..]);
      var e := Lexer.EscapeChar(v[0]);
      var rest := Lexer.Escape(v[1..]);
      assert forall i :: 0 <= i < |e| ==> e[i] !in "()[]{}";
      assert forall i :: |e| <= i < |e + rest| ==> (e + rest)[i] == rest[i - |e|];
    }
  }

  /** Escaping adds no bracket, so a bracket-free string value renders
      balanced. */
  lemma StringBalanced(v: string)
    ensures NoBrackets(v) ==> Balanced(StringPrimary(v))
  {
    if NoBrackets(v) {
      EscapeNoBrackets(v);
      FreeBalanced("\"");
      FreeBalanced(Lexer.Escape(v));
      Juxtaposed("\"", Lexer.Escape(v));
      Juxtaposed("\"" + Lexer.Escape(v), "\"");
    }
  }

  /** Each construct opens as many brackets of each kind as it closes, so a
      bound's text never cuts a range short. */
  lemma {:induction false} RenderBalanced(e: Expr)
    requires LeavesFree(e)
    ensures Balanced(Render(e))
    decreases e, 1
  {
    match e
    case Number(t) => FreeBalanced(t);
    case Ident(n) => FreeBalanced(n);
    case StringLit(v) => StringBalanced(v);
    case SignedNumber(neg, t) =>
      FreeBalanced(if neg then "-" else "+");
      FreeBalanced(t);
      Juxtaposed(if neg then "-" else "+", t);
    case BitSelect(id, i) =>
      RenderBalanced(i);
      SelectBalanced(id, Render(i));
    case PartSelect(id, m, l) =>
      RenderBalanced(m);
      RenderBalanced(l);
      RangeBalanced(id, Render(m), Render(l));
    case Call(f, args) =>
      ListBalanced(args, e);
      CallBalanced(f, RenderList(args, e));
    case Unary(op, x) =>
      RenderBalanced(x);
      UnarySymbolFree(op);
      FreeBalanced(UnarySymbol(op));
      Juxtaposed(UnarySymbol(op), Render(x));
    case Binary(l, op, r) =>
      RenderBalanced(l);
      RenderBalanced(r);
      BinarySymbolFree(op);
      Joined(Render(l), BinarySymbol(op), Render(r));
    case Conditional(x, a, b) =>
      RenderBalanced(x);
      RenderBalanced(a);
      RenderBalanced(b);
      ConditionalBalanced(Render(x), Render(a), Render(b));
    case Paren(x) => RenderBalanced(x);
    case Concat(items) =>
      ListBalanced(items, e);
      BracedBalanced(RenderList(items, e));
  }

  lemma {:induction false} ListBalanced(es: seq<Expr>, parent: Expr)
    requires forall i :: 0 <= i < |es| ==> es[i] < parent && LeavesFree(es[i])
    ensures Balanced(RenderList(es, parent))
    decreases parent, 0, |es|
  {
    if |es| == 0 {
      FreeBalanced("");
    } else if |es| == 1 {
      RenderBalanced(es[0]);
    } else {
      RenderBalanced(es[0]);
      ListBalanced(es[1..], parent);
      SeparatorsFree();
      Joined(Render(es[0]), ", ", RenderList(es[1..], parent));
    }
  }

  lemma SelectBalanced(id: string, x: string)
    ensures NoBrackets(id) && Balanced(x) ==> Balanced(id + "[" + x + "]")
  {
    FreeBalanced(id);
    Wrapped(id, '[', x, ']');
  }

  lemma RangeBalanced(id: string, x: string, y: string)
    ensures NoBrackets(id) && Balanced(x) && Balanced(y) ==> Balanced(id + "[" + x + ":" + y + "]")
  {
    SeparatorsFree();
    Joined(x, ":", y);
    FreeBalanced(id);
    Wrapped(id, '[', x + ":" + y, ']');
    assert id + "[" + x + ":" + y + "]" == id + ['['] + (x + ":" + y) + [']'];
  }

  lemma CallBalanced(f: string, x: string)
    ensures NoBrackets(f) && Balanced(x) ==> Balanced(f + "(" + x + ")")
  {
    FreeBalanced(f);
    Wrapped(f, '(', x, ')');
  }

  lemma ConditionalBalanced(x: string, y: string, z: string)
    ensures Balanced(x) && Balanced(y) && Balanced(z) ==> Balanced("(" + x + " ? " + y + " : " + z + ")")
  {
    SeparatorsFree();
    Joined(x, " ? ", y);
    Joined(x + " ? " + y, " : ", z);
    var t := x + " ? " + y + " : " + z;
    FreeBalanced("");
    Wrapped("", '(', t, ')');
    assert "" + ['('] + t + [')'] == "(" + x + " ? " + y + " : " + z + ")";
  }

  lemma BracedBalanced(x: string)
    ensures Balanced(x) ==> Balanced("{" + x + "}")
  {
    FreeBalanced("");
    Wrapped("", '{', x, '}');
    assert "" + ['{'] + x + ['}'] == "{" + x + "}";
  }

  lemma UnarySymbolFree(op: UnaryOp)
    ensures NoBrackets(UnarySymbol(op))
  {
  }

  lemma SeparatorsFree()
    ensures NoBrackets(":") && NoBrackets(" ? ") && NoBrackets(" : ") && NoBrackets(", ")
  {
  }

  lemma BinarySymbolFree(op: BinaryOp)
    ensures NoBrackets(BinarySymbol(op))
  {
  }

  // ---------------------------------------------------------------------------
  // Packed dimension
  // ---------------------------------------------------------------------------

  /** `opt_packed_dimension`: the texts of the two bounds. Put back between
      brackets around a colon they make a balanced range, so the range text a
      port keeps is never cut short inside a bound. */
  function PackedDimension(msb: Expr, lsb: Expr): (r: (string, string))
    ensures LeavesFree(msb) && LeavesFree(lsb) ==> Balanced("[" + r.0 + ":" + r.1 + "]")
  {
    BoundsBalanced(msb, lsb);
    (Render(msb), Render(lsb))
  }

  lemma BoundsBalanced(msb: Expr, lsb: Expr)
    ensures LeavesFree(msb) && LeavesFree(lsb) ==> Balanced("[" + Render(msb) + ":" + Render(lsb) + "]")
  {
    var x, y := Render(msb), Render(lsb);
    if LeavesFree(msb) && LeavesFree(lsb) {
      RenderBalanced(msb);
      RenderBalanced(lsb);
    }
    RangeBalanced("", x, y);
    assert "" + "[" + x + ":" + y + "]" == "[" + x + ":" + y + "]";
  }

  /** `[N-1:0]` over a name `N` has the width `N`. */
  lemma PackedNameMinusOne(n: string)
    requires Signature.IsIdentifier(n)
    ensures PackedDimension(Binary(Ident(n), Sub, Number("1")), Number("0")).0 == n + "-1"
    ensures Signature.WidthExpr(PackedDimension(Binary(Ident(n), Sub, Number("1")), Number("0")).0, "0") == n
  {
    assert Render(Binary(Ident(n), Sub, Number("1"))) == n + "-1";
    Signature.NameMinusOneWidth(n, n + "-1");
  }

  /** `[(A+B)*2-1:0]` loses its parentheses, so the width derived from the
      bound text is `A+B*2` rather than `(A+B)*2`. */
  lemma GroupedBoundWidth()
    ensures PackedDimension(Binary(Binary(Paren(Binary(Ident("A"), Add, Ident("B"))), Mul, Number("2")), Sub, Number("1")),
                            Number("0")).0 == "A+B*2-1"
  {
    var sum := Binary(Ident("A"), Add, Ident("B"));
    assert Render(sum) == "A+B";
    assert Render(Paren(sum)) == "A+B";
    assert Render(Binary(Paren(sum), Mul, Number("2"))) == "A+B*2";
  }

  // ---------------------------------------------------------------------------
  // Declarations
  // ---------------------------------------------------------------------------

  /** `opt_port_direction` and `opt_net_or_reg_type`: the keyword's text,
      lower-cased. */
  function KeywordText(t: string): (r: string)
    ensures forall k :: Lexer.ClassifyWord(t) == Lexer.KeywordWord(k) ==> r == Lexer.Spelling(k)
    ensures Lower(r) == r
  {
    LowerIdempotent(t);
    Lower(t)
  }

  /** The net type given, or `wire` when none is given. */
  function NetTypeOrWire(netType: Option<string>): (r: string)
    ensures r != ""
    ensures netType.None? ==> r == "wire"
    ensures netType.Some? && netType.value != "" ==> r == netType.value
  {
    if netType.Some? && netType.value != "" then netType.value else "wire"
  }

  /** What a port declaration registers with the module. */
  datatype PortRecord = PortRecord(name: string, direction: Option<string>, netType: string,
                                   msb: Option<string>, lsb: Option<string>)

  /** What a header port declaration returns: its net type left unset when
      none was written. */
  datatype HeaderPort = HeaderPort(name: string, direction: Option<string>, netType: Option<string>,
                                   msb: Option<string>, lsb: Option<string>)

  function MapOpt(t: Option<string>): Option<string> {
    if t.Some? then Some(KeywordText(t.value)) else None
  }

  /** `port_declaration` in the header: the record returned and the port
      registered, which defaults the net type to `wire`. */
  function HeaderPortDeclaration(dirText: Option<string>, netText: Option<string>,
                                 dim: Option<(Expr, Expr)>, name: string): (r: (HeaderPort, PortRecord))
    ensures r.0.name == name && r.1.name == name
    ensures r.1.direction == r.0.direction && r.1.msb == r.0.msb && r.1.lsb == r.0.lsb
    ensures r.0.direction.Some? <==> dirText.Some?
    ensures r.0.direction.Some? ==> Lower(r.0.direction.value) == r.0.direction.value
    ensures r.1.netType == NetTypeOrWire(r.0.netType)
    ensures netText.None? ==> r.1.netType == "wire"
    ensures r.0.msb.Some? <==> dim.Some?
  {
    var direction := MapOpt(dirText);
    var netType := MapOpt(netText);
    var msb := if dim.Some? then Some(PackedDimension(dim.value.0, dim.value.1).0) else None;
    var lsb := if dim.Some? then Some(PackedDimension(dim.value.0, dim.value.1).1) else None;
    (HeaderPort(name, direction, netType, msb, lsb),
     PortRecord(name, direction, NetTypeOrWire(netType), msb, lsb))
  }

  /** What a parameter declaration creates. */
  datatype ParamRecord = ParamRecord(name: string, paramType: string, defaultValue: string)

  /** `parameter_declaration` in the header. */
  function HeaderParameter(kwText: string, name: string, value: Expr): (r: ParamRecord)
    ensures r.name == name && r.defaultValue == Render(value)
    ensures forall k :: Lexer.ClassifyWord(kwText) == Lexer.KeywordWord(k) ==> r.paramType == Lexer.Spelling(k)
  {
    ParamRecord(name, KeywordText(kwText), Render(value))
  }

  /** A declaration in the module body, by production: a port, a net or
      variable, or a list of parameter assignments. Each holds the text of
      its leading keyword token. */
  datatype BodyDecl =
    | PortBody(keyword: string, netText: Option<string>, dim: Option<(Expr, Expr)>, name: string)
    | NetBody(keyword: string, dim: Option<(Expr, Expr)>, name: string)
    | ParamBody(keyword: string, assignments: seq<(string, Expr)>)

  datatype BodyAction = RegisterPort(port: PortRecord) | AddParameters(params: seq<ParamRecord>) | NoAction

  function PortBodyRecord(d: BodyDecl): (r: PortRecord)
    requires d.PortBody?
  {
    var msb := if d.dim.Some? then Some(PackedDimension(d.dim.value.0, d.dim.value.1).0) else None;
    var lsb := if d.dim.Some? then Some(PackedDimension(d.dim.value.0, d.dim.value.1).1) else None;
    PortRecord(d.name, Some(KeywordText(d.keyword)), NetTypeOrWire(MapOpt(d.netText)), msb, lsb)
  }

  function ParamBodyRecords(d: BodyDecl): (r: seq<ParamRecord>)
    requires d.ParamBody?
    ensures |r| == |d.assignments|
    ensures forall i :: 0 <= i < |r| ==>
      r[i] == HeaderParameter(d.keyword, d.assignments[i].0, d.assignments[i].1)
  {
    seq(|d.assignments|, i requires 0 <= i < |d.assignments| =>
      ParamRecord(d.assignments[i].0, KeywordText(d.keyword), Render(d.assignments[i].1)))
  }

  /** As written: the keyword's raw text is looked up among lower-case
      spellings, so a keyword the lexer accepted in another case does
      nothing. */
  function BodyDeclarationAsWritten(d: BodyDecl): (r: BodyAction)
    ensures r.RegisterPort? <==> d.PortBody? && d.keyword in ["input", "output", "inout"]
    ensures r.AddParameters? <==> d.ParamBody? && d.keyword in ["parameter", "localparam"]
    ensures r.RegisterPort? ==> r.port == PortBodyRecord(d)
    ensures r.AddParameters? ==> r.params == ParamBodyRecords(d)
  {
    var kw := d.keyword;
    if kw in ["input", "output", "inout"] then
      if d.PortBody? then RegisterPort(PortBodyRecord(d)) else NoAction
    else if kw in ["wire", "reg", "logic"] then NoAction
    else if kw in ["parameter", "localparam"] then
      if d.ParamBody? then AddParameters(ParamBodyRecords(d)) else NoAction
    else NoAction
  }

  /** Corrected: the keyword is compared in lower case, as the lexer
      recognised it. */
  function BodyDeclaration(d: BodyDecl): (r: BodyAction)
    ensures d.NetBody? ==> r == NoAction
    ensures r.RegisterPort? <==> d.PortBody? && Lower(d.keyword) in ["input", "output", "inout"]
    ensures r.AddParameters? <==> d.ParamBody? && Lower(d.keyword) in ["parameter", "localparam"]
    ensures d.PortBody? && Lower(d.keyword) in ["input", "output", "inout"] ==>
      r == RegisterPort(PortBodyRecord(d))
    ensures d.ParamBody? && Lower(d.keyword) in ["parameter", "localparam"] ==>
      r == AddParameters(ParamBodyRecords(d))
  {
    var kw := Lower(d.keyword);
    if kw in ["input", "output", "inout"] then
      if d.PortBody? then RegisterPort(PortBodyRecord(d)) else NoAction
    else if kw in ["wire", "reg", "logic"] then NoAction
    else if kw in ["parameter", "localparam"] then
      if d.ParamBody? then AddParameters(ParamBodyRecords(d)) else NoAction
    else NoAction
  }

  predicate PortKeyword(k: Lexer.Keyword) {
    k == Lexer.Input || k == Lexer.Output || k == Lexer.Inout
  }

  /** A port declared in the body registers what the same declaration in
      the header registers, whatever the case of its keyword. */
  lemma BodyAgreesWithHeader(kw: string, netText: Option<string>, dim: Option<(Expr, Expr)>, name: string, k: Lexer.Keyword)
    requires Lexer.ClassifyWord(kw) == Lexer.KeywordWord(k) && PortKeyword(k)
    ensures BodyDeclaration(PortBody(kw, netText, dim, name)) ==
            RegisterPort(HeaderPortDeclaration(Some(kw), netText, dim, name).1)
  {
    assert Lower(kw) == Lexer.Spelling(k);
  }

  /** A body parameter list creates what header declarations of the same
      parameters create, whatever the case of its keyword. */
  lemma BodyParametersAgree(kw: string, assignments: seq<(string, Expr)>)
    requires Lexer.ClassifyWord(kw) == Lexer.KeywordWord(Lexer.Parameter) ||
             Lexer.ClassifyWord(kw) == Lexer.KeywordWord(Lexer.LocalParam)
    ensures BodyDeclaration(ParamBody(kw, assignments)).AddParameters?
    ensures forall i :: 0 <= i < |assignments| ==>
      BodyDeclaration(ParamBody(kw, assignments)).params[i] == HeaderParameter(kw, assignments[i].0, assignments[i].1)
  {
  }

  /** On keywords written in lower case the two readings agree. */
  lemma LowerCaseKeywordsAgree(d: BodyDecl)
    requires Lexer.NoUpper(d.keyword)
    ensures BodyDeclarationAsWritten(d) == BodyDeclaration(d)
  {
    Lexer.LowerOfNoUpper(d.keyword);
  }

  /** `INPUT a;` in the body: the lexer reads the keyword `input`, but the
      declaration as written registers nothing; corrected, it registers an
      input wire `a`. */
  lemma UpperCaseBodyPortIgnored()
    ensures Lexer.ClassifyWord("INPUT") == Lexer.KeywordWord(Lexer.Input)
    ensures BodyDeclarationAsWritten(PortBody("INPUT", None, None, "a")) == NoAction
    ensures BodyDeclaration(PortBody("INPUT", None, None, "a")) ==
            RegisterPort(PortRecord("a", Some("input"), "wire", None, None))
  {
    assert Lower("INPUT") == "input";
    assert "INPUT" != "input" && "INPUT" != "output" && "INPUT" != "inout";
  }

  // ---------------------------------------------------------------------------
  // Preprocessing with fallback (`_preprocess_code`)
  // ---------------------------------------------------------------------------

  /** `_preprocess_code`: the preprocessed text, or the original text when
      the preprocessor cannot be set up because the macros are malformed. */
  function PreprocessCode(macros: Preprocess.MacroSpec, code: string): (r: string)
    ensures Preprocess.ParseMacros(macros).Failure? ==> r == code
    ensures Preprocess.ParseMacros(macros).Success? ==> EndsWith(r, "\nendmodule")
  {
    match Preprocess.ParseMacros(macros)
    case Failure(_) => code
    case Success(m) => Preprocess.PreprocessString(m, code)
  }

  /** With well-formed macros the text handed to the lexer does not depend
      on what precedes the module. */
  lemma PreprocessCodeIgnoresPreamble(macros: Preprocess.MacroSpec, code: string)
    requires Preprocess.ParseMacros(macros).Success?
    ensures PreprocessCode(macros, code) ==
      Preprocess.ProcessConditional(Preprocess.ParseMacros(macros).value, Preprocess.ExtractPortsSection(code).0) + "\nendmodule"
  {
    Preprocess.PreprocessIgnoresPreamble(Preprocess.ParseMacros(macros).value, code);
  }
}
