/** The signature view of a parsed module (`VerilogAst.py`): bit ranges with
    their symbolic and numeric widths, the port and parameter records, the
    conversion of declarations into those records, and the queries the
    generators run against the first module of a design. */
module Signature {
  import opened Wrappers
  import opened Strings
  import opened WidthFormat

  // ---------------------------------------------------------------------------
  // Integer literals
  // ---------------------------------------------------------------------------

  /** Value of an alphanumeric character as a digit of `int(text, base)`;
      36 for anything else. */
  function BaseDigitValue(c: char): nat {
    if IsDigit(c) then DigitValue(c)
    else if 'a' <= c <= 'z' then c as int - 'a' as int + 10
    else if 'A' <= c <= 'Z' then c as int - 'A' as int + 10
    else 36
  }

  predicate InBase(s: string, base: nat) {
    forall i :: 0 <= i < |s| ==> BaseDigitValue(s[i]) < base
  }

  /** Value of a digit string in `base`, most significant digit first. */
  function BaseValue(s: string, base: nat): nat
    requires InBase(s, base)
  {
    if |s| == 0 then 0 else BaseValue(s[..|s| - 1], base) * base + BaseDigitValue(s[|s| - 1])
  }

  /** The optional `0x` / `0o` / `0b` prefix `int()` accepts for bases 16, 8, 2. */
  function DropBasePrefix(s: string, base: nat): string {
    var letter := if base == 16 then 'x' else if base == 8 then 'o' else if base == 2 then 'b' else '?';
    if letter != '?' && |s| >= 2 && s[0] == '0' && LowerChar(s[1]) == letter then s[2..] else s
  }

  /** The digit text `int()` reads after the sign: the base prefix dropped,
      and with it one `_` that may follow the prefix. */
  function DigitPart(u: string, base: nat): string {
    var d := DropBasePrefix(u, base);
    if |d| < |u| && |d| > 0 && d[0] == '_' then d[1..] else d
  }

  /** Digits of `base` with single `_` separators between them, as PEP 515
      allows in `int()`: no leading, trailing or doubled `_`. */
  predicate SeparatedDigits(s: string, base: nat) {
    |s| > 0 && s[0] != '_' && s[|s| - 1] != '_' &&
    (forall i :: 0 <= i < |s| ==> s[i] == '_' || BaseDigitValue(s[i]) < base) &&
    !ContainsSub(s, "__")
  }

  /** Python's `int(text, base)` on ASCII text: surrounding blanks, a sign, the
      base prefix, then at least one digit, with PEP 515 underscores between
      digits and after the prefix; `None` where Python raises `ValueError`. */
  function PyInt(s: string, base: nat): Option<int> {
    var t := Strip(s);
    var signed := |t| > 0 && (t[0] == '-' || t[0] == '+');
    var u := if signed then t[1..] else t;
    var d := DigitPart(u, base);
    if SeparatedDigits(d, base) then
      SeparatedInBase(d, base);
      var v := BaseValue(ReplaceAll(d, "_", ""), base);
      Some(if signed && t[0] == '-' then -(v as int) else v)
    else None
  }

  /** With the separators removed, separated digits are plain digits. */
  lemma {:induction false} SeparatedInBase(s: string, base: nat)
    requires forall i :: 0 <= i < |s| ==> s[i] == '_' || BaseDigitValue(s[i]) < base
    ensures InBase(ReplaceAll(s, "_", ""), base)
    decreases |s|
  {
    if |s| > 0 {
      SeparatedInBase(s[1..], base);
      if s[0] != '_' {
        assert ReplaceAll(s, "_", "") == [s[0]] + ReplaceAll(s[1..], "_", "");
      } else {
        assert ReplaceAll(s, "_", "") == ReplaceAll(s[1..], "_", "");
      }
    }
  }

  /** Plain digits of a base up to 36 hold no `_`, so `int()` reads them
      unchanged. */
  lemma PlainDigitsSeparated(d: string, base: nat)
    requires |d| > 0 && InBase(d, base) && base <= 36
    ensures SeparatedDigits(d, base) && ReplaceAll(d, "_", "") == d
  {
    assert '_' !in d by {
      forall i | 0 <= i < |d| ensures d[i] != '_' {
        assert BaseDigitValue(d[i]) < base;
      }
    }
    forall k | 0 <= k <= |d| ensures !OccursAt(d, k, "__") {
      if k + 2 <= |d| {
        assert d[k..k + 2][0] == d[k] != '_';
      }
    }
    ReplaceAllAbsent(d, "_", "");
  }

  /** PEP 515: digits with single `_` separators between them read as the
      same digits without the separators. */
  lemma SeparatorsIgnored(s: string, base: nat)
    requires 2 <= base <= 36 && SeparatedDigits(s, base)
    ensures InBase(ReplaceAll(s, "_", ""), base)
    ensures PyInt(s, base) == Some(BaseValue(ReplaceAll(s, "_", ""), base))
    ensures PyInt(s, base) == PyInt(ReplaceAll(s, "_", ""), base)
  {
    SeparatedInBase(s, base);
    SeparatedRead(s, base);
    var r := ReplaceAll(s, "_", "");
    SeparatorsDroppedEnds(s);
    PlainDigitsRead(r, base);
  }

  lemma SeparatedRead(s: string, base: nat)
    requires 2 <= base <= 36 && SeparatedDigits(s, base)
    ensures InBase(ReplaceAll(s, "_", ""), base)
    ensures PyInt(s, base) == Some(BaseValue(ReplaceAll(s, "_", ""), base))
  {
    SeparatedInBase(s, base);
    assert BaseDigitValue(s[0]) < base && BaseDigitValue(s[|s| - 1]) < base;
    StripUntrimmed(s);
    if |s| >= 2 {
      assert BaseDigitValue(s[1]) < base || s[1] == '_';
    }
    assert DropBasePrefix(s, base) == s;
  }

  /** Dropping the separators keeps the first and the last digit. */
  lemma SeparatorsDroppedEnds(s: string)
    requires |s| > 0 && s[0] != '_' && s[|s| - 1] != '_'
    ensures var r := ReplaceAll(s, "_", ""); |r| > 0 && r[0] == s[0] && r[|r| - 1] == s[|s| - 1]
  {
    DropSeparatorCons(s[0], s[1..]);
    assert [s[0]] + s[1..] == s;
    var init := s[..|s| - 1];
    ReplaceCharAppend(init, [s[|s| - 1]], '_', "");
    assert init + [s[|s| - 1]] == s;
    DropSeparatorCons(s[|s| - 1], "");
    assert [s[|s| - 1]] + "" == [s[|s| - 1]];
  }

  /** Plain digits with no sign or prefix read as their value. */
  lemma PlainDigitsRead(r: string, base: nat)
    requires 2 <= base <= 36 && |r| > 0 && InBase(r, base)
    ensures PyInt(r, base) == Some(BaseValue(r, base))
  {
    PlainDigitsSeparated(r, base);
    SeparatedRead(r, base);
  }

  /** Removing separators character by character. */
  lemma DropSeparatorCons(c: char, s: string)
    ensures ReplaceAll([c] + s, "_", "") == (if c == '_' then "" else [c]) + ReplaceAll(s, "_", "")
  {
    var t := [c] + s;
    assert t[..1] == [c] && t[1..] == s;
  }

  /** Where the separators may stand: between digits and after a prefix,
      never first, last or doubled. */
  lemma SeparatorPlacement()
    ensures PyInt("0x_1f", 16) == Some(31)
    ensures PyInt("_1", 10).None? && PyInt("1_", 10).None? && PyInt("1__2", 10).None?
  {
    SeparatorAfterPrefix("0x_1f");
    MisplacedSeparator("_1");
    MisplacedSeparator("1_");
    MisplacedSeparator("1__2");
  }

  lemma SeparatorAfterPrefix(h: string)
    requires h == "0x_1f"
    ensures PyInt(h, 16) == Some(31)
  {
    StripUntrimmed(h);
    assert DropBasePrefix(h, 16) == "_1f";
    assert DigitPart(h, 16) == "1f";
    PlainDigitsSeparated("1f", 16);
    assert BaseValue("1f", 16) == 31 by {
      assert "1f"[..1] == "1";
    }
  }

  lemma {:induction false} MisplacedSeparator(e: string)
    requires e == "_1" || e == "1_" || e == "1__2"
    ensures PyInt(e, 10).None?
  {
    StripUntrimmed(e);
    assert DropBasePrefix(e, 10) == e;
    assert DigitPart(e, 10) == e;
    assert !SeparatedDigits(e, 10) by {
      if e == "1__2" {
        assert e[1..3] == "__" && OccursAt(e, 1, "__");
      }
    }
  }

  /** The last piece of `s.split(c)`. */
  function LastPiece(s: string, c: char): string {
    var parts := Split(s, c);
    parts[|parts| - 1]
  }

  /** `ExpressionSimplifier.parse_expression` as written: a plain decimal, or,
      for a text holding an apostrophe, the text after the last `d`, `h`, `b`
      or `o` read in base 10, 16, 2 or 8. The letter chosen is the first of
      the four, in that order, that occurs anywhere in the text, not the one
      after the apostrophe. */
  function ParseExpressionAsWritten(expr: string): (r: Option<int>)
    ensures IsDigits(Strip(expr)) ==> r == Some(DecimalValue(Strip(expr)))
    ensures !IsDigits(Strip(expr)) && '\'' !in Strip(expr) ==> r.None?
    ensures var t := Strip(expr); !IsDigits(t) && '\'' in t ==>
      ('d' in t ==> r == PyInt(LastPiece(t, 'd'), 10)) &&
      ('d' !in t && 'h' in t ==> r == PyInt(LastPiece(t, 'h'), 16)) &&
      ('d' !in t && 'h' !in t && 'b' in t ==> r == PyInt(LastPiece(t, 'b'), 2)) &&
      ('d' !in t && 'h' !in t && 'b' !in t && 'o' in t ==> r == PyInt(LastPiece(t, 'o'), 8)) &&
      ('d' !in t && 'h' !in t && 'b' !in t && 'o' !in t ==> r.None?)
  {
    var t := Strip(expr);
    if IsDigits(t) then Some(DecimalValue(t))
    else if '\'' in t then LetterReadingAsWritten(t)
    else None
  }

  /** The base-letter branch of the as-written reading: the first of `d`,
      `h`, `b`, `o` found anywhere in `t` picks the base, and the text after
      that letter's last occurrence is read in it. */
  function LetterReadingAsWritten(t: string): (r: Option<int>)
    ensures 'd' in t ==> r == PyInt(LastPiece(t, 'd'), 10)
    ensures 'd' !in t && 'h' in t ==> r == PyInt(LastPiece(t, 'h'), 16)
    ensures 'd' !in t && 'h' !in t && 'b' in t ==> r == PyInt(LastPiece(t, 'b'), 2)
    ensures 'd' !in t && 'h' !in t && 'b' !in t && 'o' in t ==> r == PyInt(LastPiece(t, 'o'), 8)
    ensures 'd' !in t && 'h' !in t && 'b' !in t && 'o' !in t ==> r.None?
  {
    if 'd' in t then PyInt(LastPiece(t, 'd'), 10)
    else if 'h' in t then PyInt(LastPiece(t, 'h'), 16)
    else if 'b' in t then PyInt(LastPiece(t, 'b'), 2)
    else if 'o' in t then PyInt(LastPiece(t, 'o'), 8)
    else None
  }

  /** The base a based-literal letter selects (section 3.5.1 of IEEE
      1364-2005); 0 for a letter that is none of `d`, `h`, `b`, `o`. */
  function LetterBase(c: char): nat {
    if c == 'd' then 10 else if c == 'h' then 16 else if c == 'b' then 2 else if c == 'o' then 8 else 0
  }

  /** `parse_expression` with the base taken from the letter that follows the
      apostrophe (after an optional signedness mark), so that digits of a
      hexadecimal value are never mistaken for a base letter. */
  function ParseExpression(expr: string): (r: Option<int>)
    ensures IsDigits(Strip(expr)) ==> r == Some(DecimalValue(Strip(expr)))
    ensures '\'' !in Strip(expr) && !IsDigits(Strip(expr)) ==> r.None?
  {
    var t := Strip(expr);
    if IsDigits(t) then Some(DecimalValue(t))
    else if '\'' in t then BasedValue(t[IndexOf(t, '\'') + 1..])
    else None
  }

  /** The value of the text after the apostrophe: an optional signedness mark,
      the base letter, then the digits. */
  function BasedValue(rest: string): Option<int> {
    var spec := if |rest| > 0 && (rest[0] == 's' || rest[0] == 'S') then rest[1..] else rest;
    if |spec| > 0 && LetterBase(spec[0]) != 0 then PyInt(spec[1..], LetterBase(spec[0]))
    else None
  }

  /** Lower-case digit character of a value below 36. */
  function BaseDigitChar(d: nat): (c: char)
    requires d < 36
    ensures BaseDigitValue(c) == d && IsWordChar(c)
  {
    if d < 10 then DigitChar(d) else ('a' as int + d - 10) as char
  }

  /** The canonical digits of `v` in `base`. */
  function ToBase(v: nat, base: nat): (r: string)
    requires 2 <= base <= 16
    ensures |r| > 0 && InBase(r, base)
  {
    if v < base then [BaseDigitChar(v)]
    else
      DivStep(v, base);
      var p := ToBase(v / base, base);
      var c := BaseDigitChar(v % base);
      assert BaseDigitValue(c) < base;
      assert forall i :: 0 <= i < |p| ==> (p + [c])[i] == p[i];
      assert (p + [c])[|p|] == c;
      p + [c]
  }

  lemma DivStep(v: nat, base: nat)
    requires 2 <= base <= v
    ensures 1 <= v / base < v && (v / base) * base + v % base == v && v % base < base
  {
  }

  /** Canonical digits read back as the value they were written from. */
  lemma {:induction false} ToBaseValue(v: nat, base: nat)
    requires 2 <= base <= 16
    ensures BaseValue(ToBase(v, base), base) == v
  {
    if v < base {
      var c := BaseDigitChar(v);
      assert ToBase(v, base) == [c];
      BaseValueAppend("", c, base);
      assert "" + [c] == [c];
    } else {
      var q := v / base;
      var m := v % base;
      DivStep(v, base);
      var p := ToBase(q, base);
      var c := BaseDigitChar(m);
      assert ToBase(v, base) == p + [c];
      ToBaseValue(q, base);
      BaseValueAppend(p, c, base);
    }
  }

  /** Canonical digits are alphanumeric and have no leading zero. */
  lemma {:induction false} ToBaseShape(v: nat, base: nat)
    requires 2 <= base <= 16
    ensures forall i :: 0 <= i < |ToBase(v, base)| ==> IsWordChar(ToBase(v, base)[i])
    ensures |ToBase(v, base)| > 1 ==> ToBase(v, base)[0] != '0'
  {
    if v >= base {
      var q := v / base;
      DivStep(v, base);
      ToBaseShape(q, base);
      var p := ToBase(q, base);
      var r := p + [BaseDigitChar(v % base)];
      assert ToBase(v, base) == r;
      assert forall i :: 0 <= i < |p| ==> r[i] == p[i];
      if |p| == 1 {
        assert q >= 1 && q < base;
        assert p == [BaseDigitChar(q)];
        assert BaseDigitValue(p[0]) == q;
      }
    }
  }

  lemma BaseValueAppend(p: string, c: char, base: nat)
    requires InBase(p, base) && BaseDigitValue(c) < base
    ensures InBase(p + [c], base)
    ensures BaseValue(p + [c], base) == BaseValue(p, base) * base + BaseDigitValue(c)
  {
    assert (p + [c])[..|p|] == p;
  }

  // ---------------------------------------------------------------------------
  // Ranges
  // ---------------------------------------------------------------------------

  /** The plain numeric `Range` record. */
  datatype Range = Range(msb: int, lsb: int) {
    /** Number of bits from `lsb` to `msb`, in either order. */
    function Width(): (w: int)
      ensures w >= 1 && (w - 1 == msb - lsb || w - 1 == lsb - msb)
    {
      if msb >= lsb then msb - lsb + 1 else lsb - msb + 1
    }
  }

  /** `RangeExpression`: the bound texts, their values when known, and the
      derived width text and width value. */
  datatype RangeExpr = RangeExpr(
    msbExpr: string, lsbExpr: string,
    msbValue: Option<int>, lsbValue: Option<int>,
    widthExpr: string, widthValue: Option<int>)
  {
    /** `is_single_bit`. */
    predicate IsSingleBit() {
      msbExpr == lsbExpr || (msbValue.Some? && lsbValue.Some? && msbValue.value == lsbValue.value)
    }

    /** `is_parametric`: some bound is not a plain decimal. */
    predicate IsParametric() {
      !(IsDigits(msbExpr) && IsDigits(lsbExpr))
    }
  }

  /** A letter or underscore, then letters, digits and underscores only. */
  predicate IsIdentifier(s: string) {
    |s| > 0 && (IsLetter(s[0]) || s[0] == '_') && forall i :: 0 <= i < |s| ==> IsWordChar(s[i])
  }

  /** `_simplify_plus_one_expression`: for `B - 1` the width is `B`, with one
      pair of enclosing parentheses dropped. */
  function SimplifyPlusOne(expr: string): Option<string> {
    match OpOneBase(Strip(expr), '-')
    case None => None
    case Some(g) =>
      var b := Strip(g);
      if IsIdentifier(b) then Some(b) else Some(DropParens(b))
  }

  /** One pair of enclosing parentheses removed, if there is one. */
  function DropParens(b: string): (r: string)
    ensures StartsWith(b, "(") && EndsWith(b, ")") ==> "(" + r + ")" == b
    ensures !(StartsWith(b, "(") && EndsWith(b, ")")) ==> r == b
  {
    if StartsWith(b, "(") && EndsWith(b, ")") then
      assert b[0] == '(' && b[|b| - 1] == ')';
      b[1..|b| - 1]
    else b
  }

  /** `_calculate_width_expression`: the width text of `[msb:lsb]`. */
  function WidthExpr(msb: string, lsb: string): (r: string)
    ensures msb == lsb ==> r == "1"
    ensures IsDigits(msb) && IsDigits(lsb) ==>
      IsDigits(r) && DecimalValue(r) == Range(DecimalValue(msb), DecimalValue(lsb)).Width()
  {
    if msb == lsb then "1"
    else if lsb == "0" then
      if IsDigits(msb) then NatToString(DecimalValue(msb) + 1)
      else
        match SimplifyPlusOne(msb)
        case Some(b) => if b != "" then b else msb + "+1"
        case None => msb + "+1"
    else if IsDigits(msb) && IsDigits(lsb) then
      NatToString(Range(DecimalValue(msb), DecimalValue(lsb)).Width())
    else "(" + msb + "-" + lsb + "+1)"
  }

  /** `RangeExpression(...)` with `__post_init__`: a width text that is not
      supplied is derived from the bound texts, and a width value that is not
      supplied is the bit count of the two bound values when both are known. */
  function NewRange(msbExpr: string, lsbExpr: string, msbValue: Option<int>, lsbValue: Option<int>,
                    widthExpr: Option<string>, widthValue: Option<int>): (r: RangeExpr)
    ensures r.msbExpr == msbExpr && r.lsbExpr == lsbExpr
    ensures r.msbValue == msbValue && r.lsbValue == lsbValue
    ensures widthExpr.Some? ==> r.widthExpr == widthExpr.value
    ensures widthExpr.None? ==> r.widthExpr == WidthExpr(msbExpr, lsbExpr)
    ensures r.widthValue.Some? <==> widthValue.Some? || (msbValue.Some? && lsbValue.Some?)
    ensures widthValue.Some? ==> r.widthValue == widthValue
    ensures widthValue.None? && msbValue.Some? && lsbValue.Some? ==>
      r.widthValue == Some(Range(msbValue.value, lsbValue.value).Width())
  {
    var we := if widthExpr.Some? then widthExpr.value else WidthExpr(msbExpr, lsbExpr);
    var wv := if widthValue.None? && msbValue.Some? && lsbValue.Some? then
      Some(Range(msbValue.value, lsbValue.value).Width()) else widthValue;
    RangeExpr(msbExpr, lsbExpr, msbValue, lsbValue, we, wv)
  }

  /** Python's `eval` of an arithmetic text as `(str(result), int(result))`,
      or `None` when it raises. */
  type Arith = string -> Option<(string, int)>

  // A non-empty text of digits, the four arithmetic operators,
  // parentheses and blanks only.
  predicate ArithText(s: string) {
    |s| > 0 && forall i :: 0 <= i < |s| ==> IsDigit(s[i]) || s[i] in "+-*/()" || IsSpace(s[i])
  }

  /** `simplify_numeric_parts`: the stripped text and its value when it is a
      literal, else the folded arithmetic when the text is purely arithmetic. */
  function SimplifyNumeric(expr: string, arith: Arith): (r: (string, Option<int>))
    ensures ParseExpression(expr).Some? ==> r == (Strip(expr), ParseExpression(expr))
    ensures ParseExpression(expr).None? && !ArithText(Strip(expr)) ==> r == (Strip(expr), None)
  {
    var t := Strip(expr);
    var v := ParseExpression(expr);
    if v.Some? then (t, v)
    else if ArithText(t) && arith(t).Some? then (arith(t).value.0, Some(arith(t).value.1))
    else (t, None)
  }

  /** `create_range_expression`: each bound keeps its stripped text and the
      value the number reader gives it, a bound that is neither a literal nor
      arithmetic has no value, and the width value is the bit count of the
      two bound values exactly when both are known. */
  function CreateRange(msb: string, lsb: string, arith: Arith): (r: RangeExpr)
    ensures ParseExpression(msb).Some? ==> r.msbExpr == Strip(msb) && r.msbValue == ParseExpression(msb)
    ensures ParseExpression(lsb).Some? ==> r.lsbExpr == Strip(lsb) && r.lsbValue == ParseExpression(lsb)
    ensures ParseExpression(msb).None? && !ArithText(Strip(msb)) ==> r.msbExpr == Strip(msb) && r.msbValue.None?
    ensures ParseExpression(lsb).None? && !ArithText(Strip(lsb)) ==> r.lsbExpr == Strip(lsb) && r.lsbValue.None?
    ensures r.widthExpr == WidthExpr(r.msbExpr, r.lsbExpr)
    ensures r.widthValue.Some? <==> r.msbValue.Some? && r.lsbValue.Some?
    ensures r.widthValue.Some? ==> r.widthValue.value == Range(r.msbValue.value, r.lsbValue.value).Width()
  {
    var m := SimplifyNumeric(msb, arith);
    var l := SimplifyNumeric(lsb, arith);
    NewRange(m.0, l.0, m.1, l.1, None, None)
  }

  lemma StripIdempotent(s: string)
    ensures Strip(Strip(s)) == Strip(s)
  {
    StripCharacterization(s);
    StripUntrimmed(Strip(s));
  }

  // ---------------------------------------------------------------------------
  // Records
  // ---------------------------------------------------------------------------

  /** `PortInfo`. */
  datatype PortInfo = PortInfo(name: string, direction: string, netType: string, range: Option<RangeExpr>) {
    /** `width`: nothing without a range, else the numeric width when known,
        else the width text. */
    function Width(): Width {
      match range
      case None => NoWidth
      case Some(re) => if re.widthValue.Some? then IntW(re.widthValue.value) else StrW(re.widthExpr)
    }

    /** `msb` / `lsb`: the bound value when known, else its text (the same
        `None | int | str` shape as a width). */
    function Msb(): Width {
      match range
      case None => NoWidth
      case Some(re) => if re.msbValue.Some? then IntW(re.msbValue.value) else StrW(re.msbExpr)
    }

    function Lsb(): Width {
      match range
      case None => NoWidth
      case Some(re) => if re.lsbValue.Some? then IntW(re.lsbValue.value) else StrW(re.lsbExpr)
    }

    predicate IsVector() {
      range.Some? && !range.value.IsSingleBit()
    }

    predicate IsParametric() {
      range.Some? && range.value.IsParametric()
    }

    /** `get_width_description`. */
    function WidthDescription(): string {
      if !IsVector() then "1 bit"
      else if range.value.widthValue.Some? then IntToString(range.value.widthValue.value) + " bits"
      else range.value.widthExpr + " bits"
    }

    /** `get_range_description`. */
    function RangeDescription(): string {
      if !IsVector() then "single bit"
      else "[" + range.value.msbExpr + ":" + range.value.lsbExpr + "]"
    }
  }

  /** `ParameterInfo`. */
  datatype ParameterInfo = ParameterInfo(name: string, paramType: string, defaultValue: string, dataType: Option<string>) {
    predicate IsLocalparam() {
      paramType == "localparam"
    }
  }

  /** `ModuleInfo`. */
  datatype ModuleInfo = ModuleInfo(name: string, parameters: seq<ParameterInfo>, ports: seq<PortInfo>, bodyIgnored: bool)

  /** The declaration nodes the parser builds, reduced to their data. */
  datatype ParamDecl = ParamDecl(identifier: string, parameterType: string, defaultValue: string, dataType: Option<string>)
  datatype PortDecl = PortDecl(identifier: string, direction: string, netType: string, range: Option<RangeExpr>)
  datatype ModuleDecl = ModuleDecl(name: string, parameters: seq<ParamDecl>, ports: seq<PortDecl>)

  function ParamToInfo(p: ParamDecl): ParameterInfo {
    ParameterInfo(p.identifier, p.parameterType, p.defaultValue, p.dataType)
  }

  function PortToInfo(p: PortDecl): PortInfo {
    PortInfo(p.identifier, p.direction, p.netType, p.range)
  }

  /** `ModuleDeclaration.to_info`: the records keep the declarations' order
      and data, and the body is always reported as ignored. */
  function ModuleToInfo(m: ModuleDecl): (info: ModuleInfo)
    ensures info.name == m.name && info.bodyIgnored
    ensures |info.ports| == |m.ports| && |info.parameters| == |m.parameters|
    ensures forall i :: 0 <= i < |m.ports| ==>
      info.ports[i].name == m.ports[i].identifier && info.ports[i].direction == m.ports[i].direction &&
      info.ports[i].netType == m.ports[i].netType && info.ports[i].range == m.ports[i].range
    ensures forall i :: 0 <= i < |m.parameters| ==>
      info.parameters[i].name == m.parameters[i].identifier &&
      info.parameters[i].paramType == m.parameters[i].parameterType &&
      info.parameters[i].defaultValue == m.parameters[i].defaultValue &&
      info.parameters[i].dataType == m.parameters[i].dataType
  {
    ModuleInfo(m.name,
      seq(|m.parameters|, i requires 0 <= i < |m.parameters| => ParamToInfo(m.parameters[i])),
      seq(|m.ports|, i requires 0 <= i < |m.ports| => PortToInfo(m.ports[i])),
      true)
  }

  /** `ModuleInfoExtractor.extract_module_info`: the visitor records the first
      module of the design unit and ignores the rest. */
  function ExtractInfo(modules: seq<ModuleDecl>): (r: Option<ModuleInfo>)
    ensures r.None? <==> |modules| == 0
    ensures r.Some? ==> r.value.name == modules[0].name
  {
    if |modules| == 0 then None else Some(ModuleToInfo(modules[0]))
  }

  // ---------------------------------------------------------------------------
  // Queries (`VerilogAST`)
  // ---------------------------------------------------------------------------

  function ModulePorts(info: Option<ModuleInfo>): seq<PortInfo> {
    if info.Some? then info.value.ports else []
  }

  function ModuleParameters(info: Option<ModuleInfo>): seq<ParameterInfo> {
    if info.Some? then info.value.parameters else []
  }

  function ModuleName(info: Option<ModuleInfo>): Option<string> {
    if info.Some? then Some(info.value.name) else None
  }

  function HasParameters(info: Option<ModuleInfo>): bool {
    |ModuleParameters(info)| > 0
  }

  function IsBodyIgnored(info: Option<ModuleInfo>): bool {
    if info.Some? then info.value.bodyIgnored else true
  }

  /** `a` is `b` with some elements left out, order kept. */
  predicate IsSubsequence<T(==)>(a: seq<T>, b: seq<T>)
    decreases |b|
  {
    if |a| == 0 then true
    else if |b| == 0 then false
    else if a[0] == b[0] then IsSubsequence(a[1..], b[1..])
    else IsSubsequence(a, b[1..])
  }

  /** `get_input_ports` / `get_output_ports` / `get_inout_ports`: the ports of
      one direction, in declaration order. */
  function PortsWithDirection(ports: seq<PortInfo>, d: string): (r: seq<PortInfo>)
    ensures IsSubsequence(r, ports)
    ensures forall i :: 0 <= i < |r| ==> r[i].direction == d
    ensures forall i :: 0 <= i < |ports| && ports[i].direction == d ==> ports[i] in r
  {
    if |ports| == 0 then []
    else
      var rest := PortsWithDirection(ports[1..], d);
      assert forall i :: 1 <= i < |ports| ==> ports[i] == ports[1..][i - 1];
      if ports[0].direction == d then [ports[0]] + rest else rest
  }

  /** Every port of the direction is kept as many times as it occurs, and no
      other port is kept. */
  lemma {:induction false} PortsWithDirectionCount(ports: seq<PortInfo>, d: string)
    ensures forall p :: multiset(PortsWithDirection(ports, d))[p] == (if p.direction == d then multiset(ports)[p] else 0)
  {
    if |ports| > 0 {
      PortsWithDirectionCount(ports[1..], d);
      assert ports == [ports[0]] + ports[1..];
    }
  }

  function InputPorts(info: Option<ModuleInfo>): seq<PortInfo> {
    PortsWithDirection(ModulePorts(info), "input")
  }

  function OutputPorts(info: Option<ModuleInfo>): seq<PortInfo> {
    PortsWithDirection(ModulePorts(info), "output")
  }

  function InoutPorts(info: Option<ModuleInfo>): seq<PortInfo> {
    PortsWithDirection(ModulePorts(info), "inout")
  }

  /** `find_port_by_name`: the first port with that name. */
  function FindPort(ports: seq<PortInfo>, name: string): (r: Option<PortInfo>)
    ensures r.None? <==> forall i :: 0 <= i < |ports| ==> ports[i].name != name
    ensures r.Some? ==>
      exists i :: 0 <= i < |ports| && ports[i] == r.value && r.value.name == name &&
                  (forall j :: 0 <= j < i ==> ports[j].name != name)
  {
    if |ports| == 0 then None
    else if ports[0].name == name then Some(ports[0])
    else
      var r := FindPort(ports[1..], name);
      assert forall i :: 1 <= i < |ports| ==> ports[i] == ports[1..][i - 1];
      if r.Some? then
        var i :| 0 <= i < |ports[1..]| && ports[1..][i] == r.value && r.value.name == name &&
          (forall j :: 0 <= j < i ==> ports[1..][j].name != name);
        assert ports[i + 1] == r.value;
        r
      else r
  }

  /** `find_parameter_by_name`: the first parameter with that name. */
  function FindParameter(params: seq<ParameterInfo>, name: string): (r: Option<ParameterInfo>)
    ensures r.None? <==> forall i :: 0 <= i < |params| ==> params[i].name != name
    ensures r.Some? ==>
      exists i :: 0 <= i < |params| && params[i] == r.value && r.value.name == name &&
                  (forall j :: 0 <= j < i ==> params[j].name != name)
  {
    if |params| == 0 then None
    else if params[0].name == name then Some(params[0])
    else
      var r := FindParameter(params[1..], name);
      assert forall i :: 1 <= i < |params| ==> params[i] == params[1..][i - 1];
      if r.Some? then
        var i :| 0 <= i < |params[1..]| && params[1..][i] == r.value && r.value.name == name &&
          (forall j :: 0 <= j < i ==> params[1..][j].name != name);
        assert params[i + 1] == r.value;
        r
      else r
  }

  datatype PortCount = PortCount(total: nat, input: nat, output: nat, inout: nat)

  /** `get_port_count`. */
  function CountPorts(ports: seq<PortInfo>): PortCount {
    PortCount(|ports|, |PortsWithDirection(ports, "input")|,
      |PortsWithDirection(ports, "output")|, |PortsWithDirection(ports, "inout")|)
  }

  // ---------------------------------------------------------------------------
  // Properties
  // ---------------------------------------------------------------------------

  /** When every port has one of the three directions, the total is the sum of
      the per-direction counts. */
  lemma {:induction false} PortCountSum(ports: seq<PortInfo>)
    requires forall i :: 0 <= i < |ports| ==> ports[i].direction in ["input", "output", "inout"]
    ensures CountPorts(ports).total ==
      CountPorts(ports).input + CountPorts(ports).output + CountPorts(ports).inout
  {
    if |ports| > 0 {
      assert forall i :: 0 <= i < |ports[1..]| ==> ports[1..][i] == ports[i + 1];
      PortCountSum(ports[1..]);
    }
  }

  /** Modules after the first never change the extracted information. */
  lemma FirstModuleWins(first: ModuleDecl, later: seq<ModuleDecl>)
    ensures ExtractInfo([first] + later) == Some(ModuleToInfo(first))
    ensures forall more :: ExtractInfo([first] + later + more) == ExtractInfo([first] + later)
  {
  }

  /** The width text of a range with bound values reads back as the width
      value: for a range built from two decimal bounds the symbolic and the
      numeric width agree, and the range is single-bit exactly when the width
      is one. */
  lemma NumericRangeAgrees(msb: string, lsb: string, arith: Arith)
    requires IsDigits(Strip(msb)) && IsDigits(Strip(lsb))
    ensures var r := CreateRange(msb, lsb, arith);
      !r.IsParametric() && r.widthValue.Some? &&
      IsDigits(r.widthExpr) && DecimalValue(r.widthExpr) == r.widthValue.value &&
      (r.IsSingleBit() <==> r.widthValue == Some(1))
  {
    var r := CreateRange(msb, lsb, arith);
    var m := DecimalValue(Strip(msb));
    var l := DecimalValue(Strip(lsb));
    assert r.msbValue == Some(m) && r.lsbValue == Some(l);
    if Strip(msb) == Strip(lsb) {
      assert m == l;
    }
  }

  /** `get_width_description` says "1 bit" exactly for ports that are not
      vectors, and `get_range_description` says "single bit" for the same ports. */
  lemma DescriptionsAgree(p: PortInfo)
    ensures p.WidthDescription() == "1 bit" <==> !p.IsVector()
    ensures p.RangeDescription() == "single bit" <==> !p.IsVector()
  {
    if p.IsVector() {
      var d := p.WidthDescription();
      assert d[|d| - 4..] == "bits";
      assert p.RangeDescription()[0] == '[';
    }
  }

  /** `int()` reads the canonical digits of a value back as that value. */
  lemma {:induction false} PyIntCanonical(v: nat, base: nat)
    requires 2 <= base <= 16
    ensures PyInt(ToBase(v, base), base) == Some(v)
  {
    var d := ToBase(v, base);
    ToBaseShape(v, base);
    ToBaseValue(v, base);
    assert IsWordChar(d[0]) && IsWordChar(d[|d| - 1]);
    StripUntrimmed(d);
    assert DropBasePrefix(d, base) == d;
    PlainDigitsSeparated(d, base);
  }

  /** The apostrophe of `size'` + rest is found right after the size. */
  lemma ApostropheAfterSize(sz: string, rest: string)
    requires IsDigits(sz)
    ensures '\'' in sz + "'" + rest && IndexOf(sz + "'" + rest, '\'') == |sz|
  {
    var t := sz + "'" + rest;
    assert t[|sz|] == '\'';
    forall j | 0 <= j < |sz| ensures t[j] != '\'' {
      assert t[j] == sz[j];
    }
  }

  /** On a trimmed `size'<letter><digits>` text the base letter is the one
      after the apostrophe. */
  lemma BasedLiteralDispatch(sz: string, letter: char, d: string)
    requires IsDigits(sz) && LetterBase(letter) != 0
    requires |d| > 0 && !IsSpace(d[|d| - 1])
    ensures ParseExpression(sz + "'" + [letter] + d) == PyInt(d, LetterBase(letter))
  {
    var rest := [letter] + d;
    var t := sz + "'" + rest;
    assert t == sz + "'" + [letter] + d;
    assert t[0] == sz[0] && t[|t| - 1] == d[|d| - 1];
    StripUntrimmed(t);
    assert !IsDigits(t) by { assert t[|sz|] == '\''; }
    ApostropheAfterSize(sz, rest);
    assert t[|sz| + 1..] == rest;
    BasedValueOf(rest);
    assert rest[0] == letter && rest[1..] == d;
  }

  lemma BasedValueOf(rest: string)
    requires |rest| > 0 && LetterBase(rest[0]) != 0
    ensures BasedValue(rest) == PyInt(rest[1..], LetterBase(rest[0]))
  {
    var c := rest[0];
    assert c != 's' && c != 'S';
    assert !(|rest| > 0 && (c == 's' || c == 'S'));
  }

  /** A based literal written with the canonical digits of a value reads back
      as that value (section 3.5.1 of IEEE 1364-2005). */
  lemma BasedLiteralRoundTrip(size: nat, letter: char, v: nat)
    requires LetterBase(letter) != 0
    ensures ParseExpression(NatToString(size) + "'" + [letter] + ToBase(v, LetterBase(letter))) == Some(v)
  {
    var base := LetterBase(letter);
    var sz := NatToString(size);
    var d := ToBase(v, base);
    ToBaseShape(v, base);
    assert IsWordChar(d[|d| - 1]);
    BasedLiteralDispatch(sz, letter, d);
    PyIntCanonical(v, base);
  }

  /** On a sized literal whose digits hold none of the four base letters the
      source's reading and the corrected one agree: the only base letter in
      the text is the one after the apostrophe, and the text after it is the
      digits. They differ only where a digit is itself a base letter, as in
      `8'hd0`. */
  lemma {:induction false} AsWrittenAgrees(sz: string, letter: char, d: string)
    requires IsDigits(sz) && LetterBase(letter) != 0
    requires |d| > 0 && !IsSpace(d[|d| - 1])
    requires forall i :: 0 <= i < |d| ==> LetterBase(d[i]) == 0
    ensures ParseExpressionAsWritten(sz + "'" + [letter] + d) == PyInt(d, LetterBase(letter))
    ensures ParseExpression(sz + "'" + [letter] + d) == PyInt(d, LetterBase(letter))
  {
    BasedLiteralDispatch(sz, letter, d);
    var t := sz + "'" + [letter] + d;
    assert ParseExpressionAsWritten(t) == LetterReadingAsWritten(t) by {
      LiteralText(sz, letter, d);
    }
    assert LetterReadingAsWritten(t) == PyInt(d, LetterBase(letter)) by {
      OnlyBaseLetter(sz, letter, d);
      LastPieceAfterLetter(sz, letter, d);
      AsWrittenPicksLetter(t, letter, d);
    }
  }

  /** When `letter` is the only base letter in `t`, the as-written letter
      branch reads the text after its last occurrence in its base. */
  lemma AsWrittenPicksLetter(t: string, letter: char, d: string)
    requires LetterBase(letter) != 0 && letter in t
    requires ('d' == letter || 'd' !in t) && ('h' == letter || 'h' !in t)
    requires ('b' == letter || 'b' !in t) && ('o' == letter || 'o' !in t)
    requires LastPiece(t, letter) == d
    ensures LetterReadingAsWritten(t) == PyInt(d, LetterBase(letter))
  {
  }

  lemma LiteralText(sz: string, letter: char, d: string)
    requires IsDigits(sz) && |d| > 0 && !IsSpace(d[|d| - 1])
    ensures var t := sz + "'" + [letter] + d;
      Strip(t) == t && !IsDigits(t) && '\'' in t
  {
    var t := sz + "'" + [letter] + d;
    assert t[0] == sz[0] && t[|t| - 1] == d[|d| - 1];
    StripUntrimmed(t);
    assert t[|sz|] == '\'';
  }

  /** The letter after the apostrophe is the only base letter in the text. */
  lemma OnlyBaseLetter(sz: string, letter: char, d: string)
    requires IsDigits(sz) && forall i :: 0 <= i < |d| ==> LetterBase(d[i]) == 0
    ensures var t := sz + "'" + [letter] + d;
      && letter in t && ('d' == letter || 'd' !in t) && ('h' == letter || 'h' !in t)
      && ('b' == letter || 'b' !in t) && ('o' == letter || 'o' !in t)
  {
    var t := sz + "'" + [letter] + d;
    assert t[|sz| + 1] == letter;
    forall k | 0 <= k < |t| ensures LetterBase(t[k]) == 0 || t[k] == letter {
      if k < |sz| {
        assert t[k] == sz[k];
      } else if k > |sz| + 1 {
        assert t[k] == d[k - |sz| - 2];
      }
    }
  }

  lemma LastPieceAfterLetter(sz: string, letter: char, d: string)
    requires IsDigits(sz) && LetterBase(letter) != 0
    requires forall i :: 0 <= i < |d| ==> LetterBase(d[i]) == 0
    ensures LastPiece(sz + "'" + [letter] + d, letter) == d
  {
    var a := sz + "'";
    forall k | 0 <= k < |a| ensures a[k] != letter {
      if k < |sz| {
        assert a[k] == sz[k];
      }
    }
    assert letter !in d;
    SplitJoin([a, d], letter);
    assert Join([a, d], [letter]) == sz + "'" + [letter] + d;
  }

  // The range text of a port's width inverts the width derivation for the
  // common bound shapes: a decimal upper bound, a name, or a name minus one,
  // over a zero lower bound, is shown back as `[msb:0]`.

  /** A canonical decimal upper bound other than 0 is shown back. */
  lemma DecimalRoundTrip(msb: string)
    requires IsDigits(msb) && msb == NatToString(DecimalValue(msb)) && msb != "0"
    ensures FormatWidth(StrW(WidthExpr(msb, "0"))) == "[" + msb + ":0]"
  {
    var n := DecimalValue(msb);
    assert n != 0;
    var w := NatToString(n + 1);
    assert WidthExpr(msb, "0") == w;
    assert IsDigit(w[0]) && IsDigit(w[|w| - 1]);
    StripUntrimmed(w);
    assert FormatWidth(StrW(w)) == CountRange(n + 1);
  }

  /** A name as upper bound is shown back. */
  lemma NameRoundTrip(msb: string)
    requires IsIdentifier(msb)
    ensures FormatWidth(StrW(WidthExpr(msb, "0"))) == "[" + msb + ":0]"
  {
    IdentifierShape(msb);
    StripUntrimmed(msb);
    NoOperatorNoBase(msb, '-');
    assert msb != "0";
    assert WidthExpr(msb, "0") == msb + "+1";
    assert !IsDigits(msb + "+1") by { assert (msb + "+1")[|msb|] == '+'; }
    PlusOneWidth(msb);
  }

  /** A name minus one as upper bound is shown back. */
  lemma NameMinusOneRoundTrip(x: string, msb: string)
    requires IsIdentifier(x) && msb == x + "-1"
    ensures FormatWidth(StrW(WidthExpr(msb, "0"))) == "[" + msb + ":0]"
  {
    NameMinusOneWidth(x, msb);
    IdentifierShape(x);
    StripUntrimmed(x);
    NoOperatorNoBase(x, '+');
    assert FormatWidth(StrW(x)) == RangeText(x + "-1");
    assert x + "-1" == msb;
  }

  /** The width of `[N-1:0]` for a name `N` is `N`. */
  lemma NameMinusOneWidth(x: string, msb: string)
    requires IsIdentifier(x) && msb == x + "-1"
    ensures WidthExpr(msb, "0") == x
  {
    NameMinusOneSimplifies(x, msb);
    NameMinusOneNotDigits(x, msb);
  }

  lemma NameMinusOneSimplifies(x: string, msb: string)
    requires IsIdentifier(x) && msb == x + "-1"
    ensures SimplifyPlusOne(msb) == Some(x) && x != ""
  {
    assert msb == x + ['-'] + "1";
    IdentifierShape(x);
    assert msb[0] == x[0];
    StripUntrimmed(msb);
    OpOneBaseOf(x, '-');
    StripUntrimmed(x);
  }

  lemma NameMinusOneNotDigits(x: string, msb: string)
    requires msb == x + "-1"
    ensures !IsDigits(msb) && msb != "0"
  {
    assert msb[|msb| - 2] == '-';
  }

  /** An identifier holds no blank, newline or operator character. */
  lemma IdentifierShape(x: string)
    requires IsIdentifier(x)
    ensures !IsSpace(x[0]) && !IsSpace(x[|x| - 1]) && '\n' !in x
    ensures !HasAnyOf(x, "+-*/()") && !HasAnyOf(x, "+-*/ ") && !IsDigits(x)
  {
    assert IsWordChar(x[|x| - 1]);
  }

  /** The closed-form regex finds no group in a text without the operator. */
  lemma NoOperatorNoBase(x: string, op: char)
    requires op !in x
    ensures OpOneBase(x, op).None?
  {
    if |x| >= 3 && x[|x| - 1] == '1' {
      var q := RStrip(x[..|x| - 1]);
      if |q| >= 1 {
        assert q[|q| - 1] == x[|q| - 1];
      }
    }
  }

  // ---------------------------------------------------------------------------
  // The letter dispatch of `parse_expression`
  // ---------------------------------------------------------------------------

  /** As written, the letters are looked up anywhere in the text and `d` is
      tried first, so a hexadecimal value with the digit `d` is read as a
      decimal: `8'hd0` gives 0, where the literal denotes 208. */
  lemma HexDigitReadAsDecimalBase(t: string)
    requires t == "8'hd0"
    ensures ParseExpressionAsWritten(t) == Some(0)
    ensures ParseExpression(t) == Some(208)
  {
    AsWrittenHexD();
    CorrectedHexD(t);
  }

  lemma LastPieceHexD()
    ensures LastPiece("8'hd0", 'd') == "0"
  {
    SplitJoin(["8'h", "0"], 'd');
    assert Join(["8'h", "0"], ['d']) == "8'hd0";
  }

  lemma PyIntZero(z: string)
    requires z == "0"
    ensures PyInt(z, 10) == Some(0)
  {
    StripUntrimmed(z);
    assert DropBasePrefix(z, 10) == z;
    assert InBase(z, 10) && BaseValue(z, 10) == 0;
    PlainDigitsSeparated(z, 10);
  }

  /** The as-written dispatch reaches the `d` branch for any based text
      holding a `d`, wherever it stands. */
  lemma AsWrittenDecimalBranch(t: string)
    requires Strip(t) == t && !IsDigits(t) && '\'' in t && 'd' in t
    ensures ParseExpressionAsWritten(t) == PyInt(LastPiece(t, 'd'), 10)
  {
  }

  lemma HexDShape()
    ensures Strip("8'hd0") == "8'hd0" && !IsDigits("8'hd0")
    ensures '\'' in "8'hd0" && 'd' in "8'hd0"
  {
    HexDStrip();
    var t := "8'hd0";
    assert !IsDigit(t[1]) && t[1] == '\'' && t[3] == 'd';
  }

  lemma HexDStrip()
    ensures Strip("8'hd0") == "8'hd0"
  {
    var t := "8'hd0";
    assert !IsSpace(t[0]) && !IsSpace(t[4]);
    StripUntrimmed(t);
  }

  lemma AsWrittenHexD()
    ensures ParseExpressionAsWritten("8'hd0") == Some(0)
  {
    HexDShape();
    AsWrittenDecimalBranch("8'hd0");
    LastPieceHexD();
    PyIntZero("0");
  }

  lemma HexD0(v: nat)
    requires v == 208
    ensures ToBase(v, 16) == "d0"
  {
    DivStep(v, 16);
    assert v / 16 == 13 && v % 16 == 0;
    assert ToBase(13, 16) == [BaseDigitChar(13)] == "d";
    assert ToBase(v, 16) == ToBase(13, 16) + [BaseDigitChar(0)];
  }

  lemma CorrectedHexD(t: string)
    requires t == "8'hd0"
    ensures ParseExpression(t) == Some(208)
  {
    assert NatToString(8) + "'" + ['h'] + ToBase(208, LetterBase('h')) == t by {
      HexD0(208);
      assert NatToString(8) == "8";
    }
    BasedLiteralRoundTrip(8, 'h', 208);
  }
}
