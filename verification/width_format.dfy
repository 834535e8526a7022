/** The width-to-range formatter shared by the instance comments
    (`_format_port_width_comment`) and the wire declarations
    (`_format_wire_width`): the two are the same text function, so it is
    defined once here. A width is what `PortInfo.width` or a wire rule hands
    over: nothing, a Python `int`, or a `str`. */
module WidthFormat {
  import opened Wrappers
  import opened Strings

  datatype Width = NoWidth | IntW(n: int) | StrW(s: string)

  /** Python truthiness of the width value (`if not width`). */
  predicate Truthy(w: Width) {
    match w
    case NoWidth => false
    case IntW(n) => n != 0
    case StrW(s) => s != ""
  }

  /** Some character of `s` is one of `ops`. */
  predicate HasAnyOf(s: string, ops: string) {
    exists i :: 0 <= i < |s| && s[i] in ops
  }

  // ---------------------------------------------------------------------------
  // The regular expression `^(.+?)\s*OP\s*1$` in closed form
  // ---------------------------------------------------------------------------

  /** `t` reads as `\s*OP\s*1`. */
  predicate OpOneTail(t: string, op: char) {
    |t| >= 2 && t[|t| - 1] == '1' &&
    exists p | 0 <= p < |t| - 1 :: t[p] == op && IsBlank(t[..p]) && IsBlank(t[p + 1..|t| - 1])
  }

  /** The lazy group `(.+?)` may end at `k`: it is non-empty, has no newline
      (the regex dot), and the rest of the text is the `\s*OP\s*1` tail. */
  predicate LazyCut(e: string, op: char, k: int) {
    1 <= k <= |e| && '\n' !in e[..k] && OpOneTail(e[k..], op)
  }

  /** The base of a text ending in `OP 1`: the operator is the last
      non-blank character before the final `1`, and the base stops at the
      blank run in front of it (but takes at least one character). */
  function OpOneBase(e: string, op: char): Option<string> {
    if |e| < 3 || e[|e| - 1] != '1' then None
    else
      var q := RStrip(e[..|e| - 1]);
      if |q| < 2 || q[|q| - 1] != op then None
      else
        var b := RStrip(q[..|q| - 1]);
        var k := if |b| == 0 then 1 else |b|;
        if '\n' in e[..k] then None else Some(e[..k])
  }

  /** A suffix of `s` is blank exactly when it starts at or after the end of
      `RStrip(s)`. */
  lemma BlankSuffixIff(s: string, k: nat)
    requires k <= |s|
    ensures IsBlank(s[k..]) <==> k >= |RStrip(s)|
  {
    var r := RStrip(s);
    if k >= |r| {
      forall i | 0 <= i < |s[k..]| ensures IsSpace(s[k..][i]) {
        assert s[k..][i] == s[|r|..][i + k - |r|];
      }
    } else {
      assert s[k..][|r| - 1 - k] == r[|r| - 1];
    }
  }

  /** The tail reading is unique: it pins the operator to the position
      `|RStrip(e[..|e|-1])| - 1`. */
  lemma TailAt(e: string, op: char, k: nat)
    requires !IsSpace(op) && k <= |e| && |e| >= 1 && e[|e| - 1] == '1'
    ensures OpOneTail(e[k..], op) <==>
      var q := RStrip(e[..|e| - 1]);
      k < |q| && q[|q| - 1] == op && IsBlank(e[k..|q| - 1])
  {
    if OpOneTail(e[k..], op) {
      TailPinned(e, op, k);
    }
    var q := RStrip(e[..|e| - 1]);
    if k < |q| && q[|q| - 1] == op && IsBlank(e[k..|q| - 1]) {
      TailFromPin(e, op, k);
    }
  }

  lemma TailPinned(e: string, op: char, k: nat)
    requires !IsSpace(op) && k <= |e| && |e| >= 1 && e[|e| - 1] == '1'
    requires OpOneTail(e[k..], op)
    ensures var q := RStrip(e[..|e| - 1]);
      k < |q| && q[|q| - 1] == op && IsBlank(e[k..|q| - 1])
  {
    var s := e[..|e| - 1];
    var t := e[k..];
    var p := TailOperator(t, op);
    var m := k + p;
    TailSlices(e, k, p);
    PinAt(s, m, op);
  }

  /** Where the operator of a `\s*OP\s*1` tail stands. */
  lemma TailOperator(t: string, op: char) returns (p: nat)
    requires OpOneTail(t, op)
    ensures p < |t| - 1 && t[p] == op && IsBlank(t[..p]) && IsBlank(t[p + 1..|t| - 1])
  {
    p :| 0 <= p < |t| - 1 && t[p] == op && IsBlank(t[..p]) && IsBlank(t[p + 1..|t| - 1]);
  }

  /** The pieces of the tail `e[k..]` around its `p`-th character, as slices of `e`. */
  lemma TailSlices(e: string, k: nat, p: nat)
    requires k + p + 1 < |e|
    ensures e[k..][p] == e[..|e| - 1][k + p]
    ensures e[k..][p + 1..|e[k..]| - 1] == e[..|e| - 1][k + p + 1..]
    ensures e[k..][..p] == e[k..k + p]
  {
  }

  /** A non-blank character followed only by blanks is where right-stripping
      stops. */
  lemma PinAt(s: string, m: nat, op: char)
    requires m < |s| && s[m] == op && !IsSpace(op) && IsBlank(s[m + 1..])
    ensures |RStrip(s)| == m + 1 && RStrip(s)[m] == op
  {
    BlankSuffixIff(s, m + 1);
    BlankSuffixIff(s, m);
    assert s[m..][0] == op;
  }

  lemma TailFromPin(e: string, op: char, k: nat)
    requires !IsSpace(op) && k <= |e| && |e| >= 1 && e[|e| - 1] == '1'
    requires var q := RStrip(e[..|e| - 1]);
      k < |q| && q[|q| - 1] == op && IsBlank(e[k..|q| - 1])
    ensures OpOneTail(e[k..], op)
  {
    var s := e[..|e| - 1];
    var q := RStrip(s);
    var t := e[k..];
    var p := |q| - 1 - k;
    BlankSuffixIff(s, |q|);
    assert t[p] == q[|q| - 1];
    assert t[..p] == e[k..|q| - 1];
    assert t[p + 1..|t| - 1] == s[|q|..];
  }

  /** Where the lazy group may end, in terms of the two right-strips the
      closed form computes. */
  lemma LazyCutIff(e: string, op: char, k: nat)
    requires !IsSpace(op) && 1 <= k <= |e| && e[|e| - 1] == '1'
    ensures LazyCut(e, op, k) <==>
      var q := RStrip(e[..|e| - 1]);
      |q| >= 1 && q[|q| - 1] == op && k < |q| &&
      k >= |RStrip(q[..|q| - 1])| && '\n' !in e[..k]
  {
    TailAt(e, op, k);
    var q := RStrip(e[..|e| - 1]);
    if |q| >= 1 && k < |q| {
      assert q == e[..|e| - 1][..|q|];
      assert q[..|q| - 1] == e[..|q| - 1];
      assert e[k..|q| - 1] == q[..|q| - 1][k..];
      BlankSuffixIff(q[..|q| - 1], k);
    }
  }

  /** `OpOneBase` is the regex: it returns the shortest admissible group, and
      nothing when no cut is admissible. Stated for texts that do not end in a
      newline, where `$` means the end of the text. */
  lemma OpOneBaseIsLazyMatch(e: string, op: char)
    requires !IsSpace(op)
    requires |e| == 0 || e[|e| - 1] != '\n'
    ensures OpOneBase(e, op).Some? ==>
      var g := OpOneBase(e, op).value;
      g == e[..|g|] && LazyCut(e, op, |g|) && forall k | 1 <= k < |g| :: !LazyCut(e, op, k)
    ensures OpOneBase(e, op).None? ==> forall k | 1 <= k <= |e| :: !LazyCut(e, op, k)
  {
    if |e| >= 1 && e[|e| - 1] == '1' {
      forall k | 1 <= k <= |e| ensures LazyCut(e, op, k) <==>
        var q := RStrip(e[..|e| - 1]);
        |q| >= 1 && q[|q| - 1] == op && k < |q| &&
        k >= |RStrip(q[..|q| - 1])| && '\n' !in e[..k]
      {
        LazyCutIff(e, op, k);
      }
      var q := RStrip(e[..|e| - 1]);
      if |q| >= 2 && q[|q| - 1] == op {
        var b := RStrip(q[..|q| - 1]);
        var k0 := if |b| == 0 then 1 else |b|;
        forall k | k0 <= k <= |e| ensures '\n' in e[..k0] ==> '\n' in e[..k] {
          assert e[..k][..k0] == e[..k0];
        }
      }
    } else {
      forall k | 1 <= k <= |e| ensures !LazyCut(e, op, k) {
        if |e[k..]| >= 1 {
          assert e[k..][|e[k..]| - 1] == e[|e| - 1];
        }
      }
    }
  }

  // ---------------------------------------------------------------------------
  // The formatter
  // ---------------------------------------------------------------------------

  /** `[msb:0]`. */
  function RangeText(msb: string): (r: string)
    ensures StartsWith(r, "[") && EndsWith(r, ":0]")
  {
    "[" + msb + ":0]"
  }

  /** `[n-1:0]` for a bit count above one, nothing for a single bit. */
  function CountRange(n: int): string {
    if n <= 1 then "" else RangeText(IntToString(n - 1))
  }

  /** Range text of a `X+1` width: `X` itself, parenthesised when it holds an
      operator or a space, unless it looks like a system-function call. */
  function PlusOneRange(b: string): string {
    if StartsWith(b, "$") && '(' in b then RangeText(b)
    else if HasAnyOf(b, "+-*/ ") then RangeText("(" + b + ")")
    else RangeText(b)
  }

  /** `_format_port_width_comment` / `_format_wire_width`. */
  function FormatWidth(w: Width): (r: string)
    ensures !Truthy(w) ==> r == ""
    ensures r == "" || (StartsWith(r, "[") && EndsWith(r, ":0]"))
  {
    if !Truthy(w) then ""
    else
      match w
      case IntW(n) => CountRange(n)
      case StrW(s) =>
        var t := Strip(s);
        if t == "" then ""
        else if IsDigits(t) then CountRange(DecimalValue(t))
        else
          match OpOneBase(t, '+')
          case Some(g) => PlusOneRange(Strip(g))
          case None =>
            if HasAnyOf(t, "+-*/()") then RangeText("(" + t + ")-1") else RangeText(t + "-1")
  }

  // ---------------------------------------------------------------------------
  // Properties
  // ---------------------------------------------------------------------------

  /** A text with no blank character at either end is its own strip. */
  lemma StripUntrimmed(s: string)
    requires |s| > 0 ==> !IsSpace(s[0]) && !IsSpace(s[|s| - 1])
    ensures Strip(s) == s
  {
  }

  /** A bit count prints as a range whose upper bound reads back as the count
      less one, so the range spans exactly that many bits; one bit or fewer
      prints no range at all. */
  lemma CountRangeSpans(n: int)
    ensures n <= 1 <==> CountRange(n) == ""
    ensures n > 1 ==> exists m :: CountRange(n) == "[" + m + ":0]" && IsDigits(m) && DecimalValue(m) + 1 == n
  {
    if n > 1 {
      var m := NatToString(n - 1);
      assert CountRange(n) == "[" + m + ":0]";
    }
  }

  /** An `int` width and the decimal text of the same width format alike,
      surrounding blanks in the text notwithstanding. */
  lemma IntAndTextAgree(n: nat, pad: string)
    requires IsBlank(pad)
    ensures FormatWidth(IntW(n)) == FormatWidth(StrW(pad + NatToString(n) + pad))
  {
    var d := NatToString(n);
    var s := pad + d + pad;
    StripPadded(pad, d);
    assert |s| >= |d| > 0;
    DigitsWidth(s, n);
    CountWidth(n);
  }

  lemma DigitsWidth(s: string, n: nat)
    requires s != "" && Strip(s) == NatToString(n)
    ensures FormatWidth(StrW(s)) == CountRange(n)
  {
    var t := Strip(s);
    assert t != "" && IsDigits(t) && DecimalValue(t) == n;
  }

  lemma CountWidth(n: nat)
    ensures FormatWidth(IntW(n)) == CountRange(n)
  {
    if n == 0 {
      assert CountRange(n) == "";
    }
  }

  /** A prefix of `s` is blank exactly when it ends at or before the start of
      `LStrip(s)`. */
  lemma BlankPrefixIff(s: string, k: nat)
    requires k <= |s|
    ensures IsBlank(s[..k]) <==> k <= |s| - |LStrip(s)|
  {
    var l := LStrip(s);
    var c := |s| - |l|;
    if k <= c {
      forall i | 0 <= i < k ensures IsSpace(s[..k][i]) {
        assert s[..k][i] == s[..c][i];
      }
    } else {
      assert s[..k][c] == l[0];
    }
  }

  /** Left-stripping removes a blank prefix in front of a text that does not
      start with a blank. */
  lemma {:induction false} LStripPadded(pad: string, x: string)
    requires IsBlank(pad) && |x| > 0 && !IsSpace(x[0])
    ensures LStrip(pad + x) == x
    decreases |pad|
  {
    if |pad| > 0 {
      assert (pad + x)[1..] == pad[1..] + x;
      assert (pad + x)[0] == pad[0];
      LStripPadded(pad[1..], x);
    } else {
      assert pad + x == x;
    }
  }

  /** Right-stripping removes a blank suffix after a text that does not end
      with a blank. */
  lemma {:induction false} RStripPadded(x: string, pad: string)
    requires IsBlank(pad) && |x| > 0 && !IsSpace(x[|x| - 1])
    ensures RStrip(x + pad) == x
    decreases |pad|
  {
    if |pad| > 0 {
      assert (x + pad)[..|x + pad| - 1] == x + pad[..|pad| - 1];
      assert (x + pad)[|x + pad| - 1] == pad[|pad| - 1];
      RStripPadded(x, pad[..|pad| - 1]);
    } else {
      assert x + pad == x;
    }
  }

  /** Stripping removes blank padding around a text that does not itself start
      or end with a blank. */
  lemma StripPadded(pad: string, d: string)
    requires IsBlank(pad) && |d| > 0 && !IsSpace(d[0]) && !IsSpace(d[|d| - 1])
    ensures Strip(pad + d + pad) == d
  {
    assert pad + d + pad == pad + (d + pad);
    LStripPadded(pad, d + pad);
    RStripPadded(d, pad);
  }

  /** The closed form on `X OP 1`: the group is `X`. */
  lemma OpOneBaseOf(x: string, op: char)
    requires |x| > 0 && !IsSpace(x[|x| - 1]) && !IsSpace(op) && '\n' !in x
    ensures OpOneBase(x + [op] + "1", op) == Some(x)
  {
    var e := x + [op] + "1";
    assert e[..|e| - 1] == x + [op];
    RStripPadded(x + [op], "");
    assert x + [op] + "" == x + [op];
    assert (x + [op])[..|x|] == x;
    RStripPadded(x, "");
    assert x + "" == x;
    assert e[..|x|] == x;
  }

  /** The `X+1` reading: an operand without blanks or operators followed by
      `+1` prints as the range `[X:0]`. */
  lemma PlusOneWidth(x: string)
    requires |x| > 0 && !IsSpace(x[0]) && !IsSpace(x[|x| - 1]) && !HasAnyOf(x, "+-*/ ")
    requires '\n' !in x && !IsDigits(x + "+1")
    ensures FormatWidth(StrW(x + "+1")) == "[" + x + ":0]"
  {
    var e := x + "+1";
    assert e == x + ['+'] + "1";
    assert e[0] == x[0];
    StripUntrimmed(e);
    OpOneBaseOf(x, '+');
    StripUntrimmed(x);
    assert PlusOneRange(x) == RangeText(x);
  }

  /** A symbolic width that is not of the form `X+1` prints with an explicit
      `-1`, parenthesised when it holds an operator. */
  lemma SymbolicWidth(t: string)
    requires |t| > 0 && !IsSpace(t[0]) && !IsSpace(t[|t| - 1])
    requires !IsDigits(t) && !HasAnyOf(t, "+-*/()")
    ensures FormatWidth(StrW(t)) == "[" + t + "-1:0]"
  {
    StripUntrimmed(t);
  }
}
