/** The file processor (`vcg_file_processor.py`): generator blocks between
    `//VCG_BEGIN` and `//VCG_END` lines are extracted, their commented-out
    script is cleaned and re-indented, and what each block generates is
    written back between `//VCG_GEN_BEGIN_k` and `//VCG_GEN_END_k` lines.
    Markers are recognised anywhere in a line, as substrings. */
module Blocks {
  import opened Wrappers
  import opened Strings

  const BeginTag := "//VCG_BEGIN"
  const EndTag := "//VCG_END"
  const GenBeginTag := "//VCG_GEN_BEGIN"
  const GenEndTag := "//VCG_GEN_END"

  // ---------------------------------------------------------------------------
  // Extraction (`_extract_vcg_blocks_with_position`)
  // ---------------------------------------------------------------------------

  /** A block: its script, the indices of its marker lines, its number. */
  datatype Block = Block(code: string, startLine: int, endLine: int, id: nat)

  /** A line with its two markers looked up once. */
  datatype LineView = LineView(text: string, isBegin: bool, isEnd: bool)

  function Views(lines: seq<string>): (r: seq<LineView>)
    ensures |r| == |lines|
    ensures forall i :: 0 <= i < |r| ==> r[i].text == lines[i]
    ensures forall i :: 0 <= i < |r| ==>
      (r[i].isBegin <==> ContainsSub(lines[i], BeginTag)) && (r[i].isEnd <==> ContainsSub(lines[i], EndTag))
  {
    seq(|lines|, i requires 0 <= i < |lines| =>
      LineView(lines[i], ContainsSub(lines[i], BeginTag), ContainsSub(lines[i], EndTag)))
  }

  predicate IsMarker(l: LineView) {
    l.isBegin || l.isEnd
  }

  /** The last line before `n` holding either marker. */
  function LastMarker(ls: seq<LineView>, n: nat): (r: Option<nat>)
    requires n <= |ls|
    ensures r.Some? ==> r.value < n && IsMarker(ls[r.value])
    ensures r.Some? ==> forall j :: r.value < j < n ==> !IsMarker(ls[j])
    ensures r.None? ==> forall j :: 0 <= j < n ==> !IsMarker(ls[j])
  {
    if n == 0 then None
    else if IsMarker(ls[n - 1]) then Some(n - 1)
    else LastMarker(ls, n - 1)
  }

  /** Line `e` closes a block: it holds the end marker and not the begin
      marker (which is checked first), and the last marker line before it is
      a begin line. */
  predicate ClosesBlock(ls: seq<LineView>, e: nat)
    requires e < |ls|
  {
    ls[e].isEnd && !ls[e].isBegin && LastMarker(ls, e).Some? && ls[LastMarker(ls, e).value].isBegin
  }

  /** The texts of the lines `a` up to `b`. */
  function Texts(ls: seq<LineView>, a: nat, b: nat): (r: seq<string>)
    requires a <= b <= |ls|
    ensures |r| == b - a && forall i :: 0 <= i < |r| ==> r[i] == ls[a + i].text
  {
    seq(b - a, i requires 0 <= i < b - a => ls[a + i].text)
  }

  /** The loop state: inside a block or not, the lines collected, where the
      open block began, the next block number, the blocks so far. */
  datatype ExtractState = ExtractState(open: bool, collected: seq<string>, start: int, nextId: nat, blocks: seq<Block>)

  function ExtractStep(st: ExtractState, ls: seq<LineView>, n: nat): ExtractState
    requires n < |ls|
  {
    var l := ls[n];
    if l.isBegin then st.(open := true, start := n, collected := [])
    else if l.isEnd then
      if st.open then
        st.(blocks := st.blocks + [Block(Join(st.collected, "\n"), st.start, n, st.nextId)],
            nextId := st.nextId + 1, open := false)
      else st.(open := false)
    else if st.open then st.(collected := st.collected + [l.text])
    else st
  }

  function ExtractFrom(ls: seq<LineView>, n: nat, st: ExtractState): ExtractState
    requires n <= |ls|
    decreases |ls| - n
  {
    if n == |ls| then st else ExtractFrom(ls, n + 1, ExtractStep(st, ls, n))
  }

  const Initial := ExtractState(false, [], -1, 0, [])

  function ExtractLines(ls: seq<LineView>): seq<Block> {
    ExtractFrom(ls, 0, Initial).blocks
  }

  /** `_extract_vcg_blocks_with_position`: the blocks of a file, numbered in
      the order their end lines appear, one for each line that closes a block. */
  function ExtractBlocks(content: string): (r: seq<Block>)
    ensures Extracted(Views(Split(content, '\n')), r)
  {
    ExtractCharacterization(Views(Split(content, '\n')));
    ExtractLines(Views(Split(content, '\n')))
  }

  /** `bs` are the blocks of the lines `ls`: numbered 0, 1, 2, ... in the
      order of their end lines; each runs from the last marker line before
      its end line, which is a begin line, and holds the lines strictly
      between; and a block ends at exactly the lines that close one. */
  predicate Extracted(ls: seq<LineView>, bs: seq<Block>) {
    (forall i :: 0 <= i < |bs| ==> bs[i].id == i && BlockAt(ls, bs[i])) &&
    (forall i, j :: 0 <= i < j < |bs| ==> bs[i].endLine < bs[j].endLine) &&
    (forall e :: 0 <= e < |ls| ==> (ClosesBlock(ls, e) <==> exists i :: 0 <= i < |bs| && bs[i].endLine == e))
  }

  /** What a block closed at line `e` holds. */
  predicate BlockAt(ls: seq<LineView>, b: Block)
  {
    0 <= b.endLine < |ls| && ClosesBlock(ls, b.endLine) &&
    b.startLine == LastMarker(ls, b.endLine).value &&
    b.code == Join(Texts(ls, b.startLine + 1, b.endLine), "\n")
  }

  /** The open block, if any, is the one the last marker line opened. */
  predicate OpenOk(ls: seq<LineView>, n: nat, st: ExtractState)
    requires n <= |ls|
  {
    (st.open <==> LastMarker(ls, n).Some? && ls[LastMarker(ls, n).value].isBegin) &&
    (st.open ==> st.start == LastMarker(ls, n).value && st.collected == Texts(ls, st.start + 1, n))
  }

  /** The blocks so far are numbered in order and each is a block of the
      lines read. */
  predicate BlocksOk(ls: seq<LineView>, n: nat, st: ExtractState)
    requires n <= |ls|
  {
    st.nextId == |st.blocks| &&
    (forall i :: 0 <= i < |st.blocks| ==> st.blocks[i].id == i && st.blocks[i].endLine < n && BlockAt(ls, st.blocks[i])) &&
    (forall i, j :: 0 <= i < j < |st.blocks| ==> st.blocks[i].endLine < st.blocks[j].endLine)
  }

  /** Every line read that closes a block has given one. */
  predicate CompleteOk(ls: seq<LineView>, n: nat, st: ExtractState)
    requires n <= |ls|
  {
    forall e :: 0 <= e < n && ClosesBlock(ls, e) ==> exists i :: 0 <= i < |st.blocks| && st.blocks[i].endLine == e
  }

  predicate ExtractInv(ls: seq<LineView>, n: nat, st: ExtractState)
    requires n <= |ls|
  {
    OpenOk(ls, n, st) && BlocksOk(ls, n, st) && CompleteOk(ls, n, st)
  }

  lemma OpenStep(ls: seq<LineView>, n: nat, st: ExtractState)
    requires n < |ls| && OpenOk(ls, n, st)
    ensures OpenOk(ls, n + 1, ExtractStep(st, ls, n))
  {
    var l := ls[n];
    if !IsMarker(l) && st.open {
      var t := Texts(ls, st.start + 1, n + 1);
      assert t == st.collected + [l.text];
    }
  }

  lemma BlocksStep(ls: seq<LineView>, n: nat, st: ExtractState)
    requires n < |ls| && OpenOk(ls, n, st) && BlocksOk(ls, n, st)
    ensures BlocksOk(ls, n + 1, ExtractStep(st, ls, n))
  {
    var l := ls[n];
    if !l.isBegin && l.isEnd && st.open {
      var b := Block(Join(st.collected, "\n"), st.start, n, st.nextId);
      assert BlockAt(ls, b);
      var s2 := ExtractStep(st, ls, n);
      assert s2.blocks == st.blocks + [b];
      assert forall i :: 0 <= i < |st.blocks| ==> s2.blocks[i] == st.blocks[i];
    }
  }

  lemma CompleteStep(ls: seq<LineView>, n: nat, st: ExtractState)
    requires n < |ls| && OpenOk(ls, n, st) && CompleteOk(ls, n, st)
    ensures CompleteOk(ls, n + 1, ExtractStep(st, ls, n))
  {
    var s2 := ExtractStep(st, ls, n);
    assert forall i :: 0 <= i < |st.blocks| ==> s2.blocks[i] == st.blocks[i];
    forall e | 0 <= e < n + 1 && ClosesBlock(ls, e)
      ensures exists i :: 0 <= i < |s2.blocks| && s2.blocks[i].endLine == e
    {
      if e < n {
        var i :| 0 <= i < |st.blocks| && st.blocks[i].endLine == e;
        assert s2.blocks[i].endLine == e;
      } else {
        assert s2.blocks[|st.blocks|].endLine == e;
      }
    }
  }

  lemma {:induction false} ExtractFromInv(ls: seq<LineView>, n: nat, st: ExtractState)
    requires n <= |ls| && ExtractInv(ls, n, st)
    ensures ExtractInv(ls, |ls|, ExtractFrom(ls, n, st))
    decreases |ls| - n
  {
    if n < |ls| {
      OpenStep(ls, n, st);
      BlocksStep(ls, n, st);
      CompleteStep(ls, n, st);
      ExtractFromInv(ls, n + 1, ExtractStep(st, ls, n));
    }
  }

  /** The blocks are numbered 0, 1, 2, ... in the order of their end lines;
      each runs from the last marker line before its end line, which is a
      begin line, and holds the lines strictly between; and a block ends at
      exactly the lines that close one. */
  lemma ExtractCharacterization(ls: seq<LineView>)
    ensures Extracted(ls, ExtractLines(ls))
  {
    ExtractFromInv(ls, 0, Initial);
  }

  /** A begin line inside an open block discards what was collected: the
      block runs from the second begin line. */
  lemma SecondBeginRestarts(a: string, b: string)
    ensures var ls := [LineView("//VCG_BEGIN", true, false), LineView(a, false, false),
                       LineView("//VCG_BEGIN", true, false), LineView(b, false, false),
                       LineView("//VCG_END", false, true)];
      ExtractLines(ls) == [Block(b, 2, 4, 0)]
  {
    var ls := [LineView("//VCG_BEGIN", true, false), LineView(a, false, false),
               LineView("//VCG_BEGIN", true, false), LineView(b, false, false),
               LineView("//VCG_END", false, true)];
    var s1 := ExtractStep(Initial, ls, 0);
    var s2 := ExtractStep(s1, ls, 1);
    var s3 := ExtractStep(s2, ls, 2);
    var s4 := ExtractStep(s3, ls, 3);
    var s5 := ExtractStep(s4, ls, 4);
    assert s3.collected == [] && s3.start == 2;
    assert s4.collected == [b];
    assert s5.blocks == [Block(b, 2, 4, 0)];
    assert ExtractFrom(ls, 4, s4) == ExtractFrom(ls, 5, s5) == s5;
    assert ExtractFrom(ls, 2, s2) == ExtractFrom(ls, 3, s3) == ExtractFrom(ls, 4, s4);
    assert ExtractFrom(ls, 0, Initial) == ExtractFrom(ls, 1, s1) == ExtractFrom(ls, 2, s2);
  }

  /** An end line with no open block gives no block. */
  lemma StrayEndIgnored(a: string)
    ensures ExtractLines([LineView(a, false, false), LineView("//VCG_END", false, true)]) == []
  {
    var ls := [LineView(a, false, false), LineView("//VCG_END", false, true)];
    var s1 := ExtractStep(Initial, ls, 0);
    assert s1 == Initial;
    var s2 := ExtractStep(s1, ls, 1);
    assert s2.blocks == [];
    assert ExtractFrom(ls, 0, Initial) == ExtractFrom(ls, 1, s1) == ExtractFrom(ls, 2, s2) == s2;
  }

  // ---------------------------------------------------------------------------
  // Script cleanup (`_preprocess_vcg_code`)
  // ---------------------------------------------------------------------------

  // The substitution of the pattern "leading whitespace, then //" by
  // nothing: when the line, past its leading whitespace, starts with `//`,
  // that whitespace and the `//` go.
  function Uncomment(line: string): (r: string)
    ensures |r| <= |line| && r == line[|line| - |r|..]
    ensures |r| < |line| <==> StartsWith(LStrip(line), "//")
    ensures |r| < |line| ==>
      |line| - |r| >= 2 && IsBlank(line[..|line| - |r| - 2]) && line[|line| - |r| - 2..|line| - |r|] == "//"
  {
    var t := LStrip(line);
    if StartsWith(t, "//") then
      var d := |line| - |t|;
      assert line[d..] == t;
      assert line[d..d + 2] == t[..2];
      t[2..]
    else line
  }

  /** Whitespace that leaves a text starting with a non-space is what
      left-stripping removes. */
  lemma {:induction false} LStripBlankPrefix(ws: string, t: string)
    requires IsBlank(ws) && (|t| == 0 || !IsSpace(t[0]))
    ensures LStrip(ws + t) == t
    decreases |ws|
  {
    if |ws| > 0 {
      assert (ws + t)[0] == ws[0];
      assert (ws + t)[1..] == ws[1..] + t;
      LStripBlankPrefix(ws[1..], t);
    } else {
      assert ws + t == t;
    }
  }

  /** A commented line loses its leading whitespace and its `//`. */
  lemma UncommentRemovesMarker(ws: string, body: string)
    requires IsBlank(ws)
    ensures Uncomment(ws + "//" + body) == body
  {
    assert ws + "//" + body == ws + ("//" + body);
    LStripBlankPrefix(ws, "//" + body);
    assert ("//" + body)[..2] == "//";
  }

  /** The script lines kept: each line uncommented, and the blank ones dropped. */
  function CleanLines(lines: seq<string>): (r: seq<string>)
    ensures |r| <= |lines|
    ensures forall i :: 0 <= i < |r| ==> !IsBlank(r[i])
    decreases |lines|
  {
    if |lines| == 0 then []
    else
      var u := Uncomment(lines[0]);
      (if IsBlank(u) then [] else [u]) + CleanLines(lines[1..])
  }

  /** One step of `CleanLines`. */
  lemma CleanLinesCons(lines: seq<string>)
    requires |lines| > 0
    ensures CleanLines(lines) == (if IsBlank(Uncomment(lines[0])) then [] else [Uncomment(lines[0])]) + CleanLines(lines[1..])
  {
  }

  lemma InSuffix<T>(x: T, pre: seq<T>, rest: seq<T>)
    requires x in rest
    ensures x in pre + rest
  {
    var k :| 0 <= k < |rest| && rest[k] == x;
    assert (pre + rest)[|pre| + k] == x;
  }

  lemma InConsUnit<T>(x: T, pre: seq<T>, y: T, rest: seq<T>)
    requires x in pre + rest && (pre == [] || pre == [y]) && x != y
    ensures x in rest
  {
    var k :| 0 <= k < |pre + rest| && (pre + rest)[k] == x;
    assert k >= |pre|;
    assert rest[k - |pre|] == x;
  }

  /** Every input line whose uncommented text is not blank is kept. */
  lemma {:induction false} CleanLinesKeep(lines: seq<string>, i: nat)
    requires i < |lines| && !IsBlank(Uncomment(lines[i]))
    ensures Uncomment(lines[i]) in CleanLines(lines)
    decreases i
  {
    var u := Uncomment(lines[0]);
    var pre: seq<string> := if IsBlank(u) then [] else [u];
    CleanLinesCons(lines);
    if i > 0 {
      assert lines[1..][i - 1] == lines[i];
      CleanLinesKeep(lines[1..], i - 1);
      InSuffix(Uncomment(lines[i]), pre, CleanLines(lines[1..]));
    } else {
      assert (pre + CleanLines(lines[1..]))[0] == u;
    }
  }

  /** Every kept line is one of the input lines uncommented. */
  lemma {:induction false} CleanLinesFrom(lines: seq<string>, x: string)
    requires x in CleanLines(lines)
    ensures exists i :: 0 <= i < |lines| && x == Uncomment(lines[i])
    decreases |lines|
  {
    var u := Uncomment(lines[0]);
    var pre: seq<string> := if IsBlank(u) then [] else [u];
    CleanLinesCons(lines);
    if x != u {
      InConsUnit(x, pre, u, CleanLines(lines[1..]));
      CleanLinesFrom(lines[1..], x);
      var i :| 0 <= i < |lines[1..]| && x == Uncomment(lines[1..][i]);
      TailLine(lines, i);
    }
  }

  lemma TailLine(lines: seq<string>, i: nat)
    requires i + 1 < |lines|
    ensures lines[1..][i] == lines[i + 1]
  {
  }

  /** A script that is already clean passes unchanged. */
  lemma {:induction false} CleanScriptUnchanged(lines: seq<string>)
    requires forall i :: 0 <= i < |lines| ==> !IsBlank(lines[i]) && !StartsWith(LStrip(lines[i]), "//")
    ensures CleanLines(lines) == lines
    decreases |lines|
  {
    if |lines| > 0 {
      CleanScriptUnchanged(lines[1..]);
      assert [lines[0]] + lines[1..] == lines;
    }
  }

  /** A suffix of a text with no newline has none. */
  lemma SuffixNoNewline(s: string, t: string)
    requires '\n' !in s && |t| <= |s| && t == s[|s| - |t|..]
    ensures '\n' !in t
  {
    assert forall k :: 0 <= k < |t| ==> t[k] == s[|s| - |t| + k];
  }

  lemma NoNewlineCons(u: seq<string>, rest: seq<string>)
    requires forall i :: 0 <= i < |u| ==> '\n' !in u[i]
    requires forall i :: 0 <= i < |rest| ==> '\n' !in rest[i]
    ensures forall i :: 0 <= i < |u + rest| ==> '\n' !in (u + rest)[i]
  {
  }

  lemma {:induction false} CleanLinesNoNewline(lines: seq<string>)
    requires forall i :: 0 <= i < |lines| ==> '\n' !in lines[i]
    ensures forall i :: 0 <= i < |CleanLines(lines)| ==> '\n' !in CleanLines(lines)[i]
    decreases |lines|
  {
    if |lines| > 0 {
      CleanLinesNoNewline(lines[1..]);
      var u := Uncomment(lines[0]);
      SuffixNoNewline(lines[0], u);
      var pre: seq<string> := if IsBlank(u) then [] else [u];
      CleanLinesCons(lines);
      NoNewlineCons(pre, CleanLines(lines[1..]));
    }
  }

  /** `_preprocess_vcg_code`: the cleaned lines joined, with their common
      indentation removed. A block with no line left is the empty script;
      otherwise the script has one line per kept line, each with its text
      and shifted left by the smallest indentation among them. */
  function PreprocessScript(raw: string): (r: string)
    ensures CleanLines(Split(raw, '\n')) == [] ==> r == ""
    ensures CleanLines(Split(raw, '\n')) != [] ==>
      MinIndent(CleanLines(Split(raw, '\n'))).Some? &&
      Reindented(CleanLines(Split(raw, '\n')), Split(r, '\n'), MinIndent(CleanLines(Split(raw, '\n'))).value)
  {
    CleanedScriptLines(raw);
    FixIndentation(Join(CleanLines(Split(raw, '\n')), "\n"))
  }

  /** The kept lines joined split back into themselves, and they are not
      all blank unless there are none. */
  lemma CleanedScriptLines(raw: string)
    ensures var kept := CleanLines(Split(raw, '\n'));
      (kept == [] ==> FixIndentation(Join(kept, "\n")) == "") &&
      (kept != [] ==> Split(Join(kept, "\n"), '\n') == kept && MinIndent(kept).Some?)
  {
    var kept := CleanLines(Split(raw, '\n'));
    if kept == [] {
      assert Split("", '\n') == [""];
      assert MinIndent([""]) == None by {
        assert IsBlank([""][0]);
      }
    } else {
      CleanLinesNoNewline(Split(raw, '\n'));
      SplitJoin(kept, '\n');
      assert !AllBlank(kept) by {
        assert !IsBlank(kept[0]);
      }
    }
  }

  // ---------------------------------------------------------------------------
  // Indentation (`_fix_indentation`)
  // ---------------------------------------------------------------------------

  /** The indentation of a line: how many whitespace characters lead it. */
  function Indent(s: string): nat {
    |s| - |LStrip(s)|
  }

  lemma IndentBelowLength(s: string)
    requires !IsBlank(s)
    ensures Indent(s) < |s|
  {
    LStripEmptyIffBlank(s);
  }

  predicate AllBlank(lines: seq<string>) {
    forall i :: 0 <= i < |lines| ==> IsBlank(lines[i])
  }

  /** Some non-blank line is indented by exactly `v`. */
  predicate HasIndent(lines: seq<string>, v: nat) {
    exists i :: 0 <= i < |lines| && !IsBlank(lines[i]) && Indent(lines[i]) == v
  }

  /** No non-blank line is indented by less than `v`. */
  predicate IndentBound(lines: seq<string>, v: nat) {
    forall i :: 0 <= i < |lines| && !IsBlank(lines[i]) ==> v <= Indent(lines[i])
  }

  /** How the three predicates above split over the first line and the rest. */
  lemma AllBlankCons(lines: seq<string>)
    requires |lines| > 0
    ensures AllBlank(lines) <==> IsBlank(lines[0]) && AllBlank(lines[1..])
  {
    assert forall i :: 1 <= i < |lines| ==> lines[i] == lines[1..][i - 1];
  }

  lemma HasIndentCons(lines: seq<string>, v: nat)
    requires |lines| > 0
    ensures HasIndent(lines[1..], v) ==> HasIndent(lines, v)
    ensures !IsBlank(lines[0]) ==> HasIndent(lines, Indent(lines[0]))
  {
    if HasIndent(lines[1..], v) {
      var j :| 0 <= j < |lines[1..]| && !IsBlank(lines[1..][j]) && Indent(lines[1..][j]) == v;
      TailLine(lines, j);
    }
  }

  lemma IndentBoundCons(lines: seq<string>, v: nat)
    requires |lines| > 0
    ensures IndentBound(lines, v) <==> (IsBlank(lines[0]) || v <= Indent(lines[0])) && IndentBound(lines[1..], v)
  {
    assert forall i :: 1 <= i < |lines| ==> lines[i] == lines[1..][i - 1];
  }

  lemma IndentBoundLower(lines: seq<string>, v: nat, w: nat)
    requires IndentBound(lines, v) && w <= v
    ensures IndentBound(lines, w)
  {
  }

  /** The smallest indentation among the non-blank lines. */
  function MinIndent(lines: seq<string>): (r: Option<nat>)
    ensures r.None? <==> AllBlank(lines)
    ensures r.Some? ==> HasIndent(lines, r.value) && IndentBound(lines, r.value)
    decreases |lines|
  {
    if |lines| == 0 then None
    else
      var rest := MinIndent(lines[1..]);
      var v := if rest.Some? then rest.value else 0;
      AllBlankCons(lines);
      HasIndentCons(lines, v);
      IndentBoundCons(lines, v);
      IndentBoundCons(lines, Indent(lines[0]));
      if IsBlank(lines[0]) then rest
      else if rest.None? || Indent(lines[0]) <= rest.value then
        if rest.Some? then IndentBoundLower(lines[1..], v, Indent(lines[0])); Some(Indent(lines[0]))
        else Some(Indent(lines[0]))
      else rest
  }

  function FixLine(line: string, m: nat): string {
    if !IsBlank(line) then (if |line| > m then line[m..] else line) else ""
  }

  function FixLines(lines: seq<string>, m: nat): (r: seq<string>)
    ensures |r| == |lines| && forall i :: 0 <= i < |r| ==> r[i] == FixLine(lines[i], m)
  {
    seq(|lines|, i requires 0 <= i < |lines| => FixLine(lines[i], m))
  }

  /** `_fix_indentation`: text with no non-blank line is returned as it is.
      Otherwise the fixed text has as many lines as the input; blank lines
      become empty; every other line loses the same indentation, the
      smallest, and keeps its text; so some non-blank line starts in the
      first column. */
  function FixIndentation(code: string): (r: string)
    ensures MinIndent(Split(code, '\n')).None? ==> r == code
    ensures MinIndent(Split(code, '\n')).Some? ==>
      Reindented(Split(code, '\n'), Split(r, '\n'), MinIndent(Split(code, '\n')).value) &&
      HasIndent(Split(r, '\n'), 0)
  {
    var lines := Split(code, '\n');
    match MinIndent(lines)
    case None => code
    case Some(m) =>
      FixLinesReindent(lines, m);
      ReindentedHasColumnZero(lines, FixLines(lines, m), m);
      Join(FixLines(lines, m), "\n")
  }

  /** The line indented by the minimum ends up in the first column. */
  lemma ReindentedHasColumnZero(lines: seq<string>, out: seq<string>, m: nat)
    requires Reindented(lines, out, m) && HasIndent(lines, m)
    ensures HasIndent(out, 0)
  {
    var j :| 0 <= j < |lines| && !IsBlank(lines[j]) && Indent(lines[j]) == m;
    assert !IsBlank(out[j]) && Indent(out[j]) == 0;
  }

  /** Dropping part of the leading whitespace leaves the same stripped text. */
  lemma {:induction false} LStripDrop(s: string, m: nat)
    requires m <= Indent(s)
    ensures LStrip(s[m..]) == LStrip(s)
    decreases m
  {
    if m > 0 {
      var d := |s| - |LStrip(s)|;
      assert s[0] == s[..d][0];
      assert s[1..][m - 1..] == s[m..];
      LStripDrop(s[1..], m - 1);
    }
  }

  /** What happens to one line: a blank line becomes empty, a non-blank line
      loses `m` columns of indentation and keeps its text. */
  lemma FixLineShape(line: string, m: nat)
    requires !IsBlank(line) ==> m <= Indent(line)
    ensures IsBlank(line) ==> FixLine(line, m) == ""
    ensures !IsBlank(line) ==> FixLine(line, m) == line[m..] && LStrip(FixLine(line, m)) == LStrip(line)
    ensures !IsBlank(line) ==> Indent(FixLine(line, m)) == Indent(line) - m && !IsBlank(FixLine(line, m))
  {
    if !IsBlank(line) {
      IndentBelowLength(line);
      LStripDrop(line, m);
      LStripEmptyIffBlank(line);
      LStripEmptyIffBlank(line[m..]);
    }
  }

  lemma FixLineNoNewline(line: string, m: nat)
    requires '\n' !in line
    ensures '\n' !in FixLine(line, m)
  {
    var f := FixLine(line, m);
    if f != "" && f != line {
      assert forall k :: 0 <= k < |f| ==> f[k] == line[m + k];
    }
  }

  /** `out` is `lines` re-indented by `m` columns: blank lines emptied,
      other lines shifted left with their text kept. */
  predicate Reindented(lines: seq<string>, out: seq<string>, m: nat) {
    |out| == |lines| &&
    (forall i :: 0 <= i < |lines| && IsBlank(lines[i]) ==> out[i] == "") &&
    (forall i :: 0 <= i < |lines| && !IsBlank(lines[i]) ==>
       !IsBlank(out[i]) && LStrip(out[i]) == LStrip(lines[i]) && Indent(out[i]) == Indent(lines[i]) - m)
  }

  lemma FixLinesReindent(lines: seq<string>, m: nat)
    requires forall i :: 0 <= i < |lines| && !IsBlank(lines[i]) ==> m <= Indent(lines[i])
    requires |lines| >= 1 && forall i :: 0 <= i < |lines| ==> '\n' !in lines[i]
    ensures Reindented(lines, FixLines(lines, m), m)
    ensures Split(Join(FixLines(lines, m), "\n"), '\n') == FixLines(lines, m)
  {
    var fixed := FixLines(lines, m);
    forall i | 0 <= i < |lines| ensures '\n' !in fixed[i] {
      FixLineNoNewline(lines[i], m);
    }
    forall i | 0 <= i < |lines|
      ensures IsBlank(lines[i]) ==> fixed[i] == ""
      ensures !IsBlank(lines[i]) ==> !IsBlank(fixed[i]) && LStrip(fixed[i]) == LStrip(lines[i]) && Indent(fixed[i]) == Indent(lines[i]) - m
    {
      FixLineShape(lines[i], m);
    }
    SplitJoin(fixed, '\n');
  }

  /** Once re-indented, the smallest indentation is zero and a second
      re-indentation changes no line. */
  lemma ReindentedAgain(lines: seq<string>, out: seq<string>, m: nat, j: nat)
    requires Reindented(lines, out, m)
    requires j < |lines| && !IsBlank(lines[j]) && Indent(lines[j]) == m
    ensures MinIndent(out) == Some(0)
    ensures FixLines(out, 0) == out
  {
    ReindentedMinimum(lines, out, m, j);
    ReindentedFixed(lines, out, m);
  }

  lemma ReindentedMinimum(lines: seq<string>, out: seq<string>, m: nat, j: nat)
    requires Reindented(lines, out, m)
    requires j < |lines| && !IsBlank(lines[j]) && Indent(lines[j]) == m
    ensures MinIndent(out) == Some(0)
  {
    assert !IsBlank(out[j]) && Indent(out[j]) == 0;
    MinIndentZero(out, j);
  }

  /** A non-blank line in the first column makes the smallest indentation zero. */
  lemma MinIndentZero(out: seq<string>, j: nat)
    requires j < |out| && !IsBlank(out[j]) && Indent(out[j]) == 0
    ensures MinIndent(out) == Some(0)
  {
    var r := MinIndent(out);
    assert r.Some? by {
      assert !AllBlank(out);
    }
    var v := r.value;
    assert v == 0 by {
      assert IndentBound(out, v);
      assert v <= Indent(out[j]);
    }
  }

  lemma ReindentedFixed(lines: seq<string>, out: seq<string>, m: nat)
    requires Reindented(lines, out, m)
    ensures FixLines(out, 0) == out
  {
    forall i | 0 <= i < |out| ensures FixLine(out[i], 0) == out[i] {
      if !IsBlank(lines[i]) {
        IndentBelowLength(out[i]);
      }
    }
  }

  /** Fixing the indentation twice is fixing it once. */
  lemma FixIndentationIdempotent(code: string)
    ensures FixIndentation(FixIndentation(code)) == FixIndentation(code)
  {
    var lines := Split(code, '\n');
    if MinIndent(lines).Some? {
      var m := MinIndent(lines).value;
      var fixed := FixLines(lines, m);
      FixLinesReindent(lines, m);
      assert Split(FixIndentation(code), '\n') == fixed;
      var j :| 0 <= j < |lines| && !IsBlank(lines[j]) && Indent(lines[j]) == m;
      ReindentedAgain(lines, fixed, m, j);
    }
  }

  // ---------------------------------------------------------------------------
  // Injection (`_inject_generated_content_for_blocks`)
  // ---------------------------------------------------------------------------

  function GenBeginLine(k: nat): string {
    GenBeginTag + "_" + NatToString(k)
  }

  function GenEndLine(k: nat): string {
    GenEndTag + "_" + NatToString(k)
  }

  /** The text the number of an existing generated region follows. */
  const GenIdTag := "VCG_GEN_BEGIN_"

  /** The longest prefix made of decimal digits. */
  function DigitRun(s: string): (r: string)
    ensures |r| <= |s| && AllDigits(r) && r == s[..|r|]
    ensures |r| < |s| ==> !IsDigit(s[|r|])
    decreases |s|
  {
    if |s| > 0 && IsDigit(s[0]) then
      var rest := DigitRun(s[1..]);
      assert s[1..][..|rest|] == s[1..|rest| + 1];
      [s[0]] + rest
    else ""
  }

  lemma {:induction false} DigitRunAll(d: string)
    requires AllDigits(d)
    ensures DigitRun(d) == d
    decreases |d|
  {
    if |d| > 0 {
      DigitRunAll(d[1..]);
      assert [d[0]] + d[1..] == d;
    }
  }

  /** The number the first `VCG_GEN_BEGIN_` followed by digits carries,
      searching from index `p`; the digits are read as a decimal. */
  function GenIdFrom(line: string, p: nat): (r: Option<nat>)
    ensures r.Some? ==> ContainsSub(line, GenIdTag)
    decreases |line| - p
  {
    if p + |GenIdTag| >= |line| then None
    else if OccursAt(line, p, GenIdTag) && IsDigit(line[p + |GenIdTag|]) then
      Some(DecimalValue(DigitRun(line[p + |GenIdTag|..])))
    else GenIdFrom(line, p + 1)
  }

  function GenId(line: string): Option<nat> {
    GenIdFrom(line, 0)
  }

  /** Block `k`'s generated text as written back: without its trailing
      whitespace, and nothing when that leaves nothing or when there is no
      block `k`. */
  function Content(gen: seq<string>, k: nat): (r: seq<string>)
    ensures |r| <= 1
    ensures |r| == 1 <==> k < |gen| && !IsBlank(gen[k])
    ensures |r| == 1 ==> r[0] == RStrip(gen[k])
  {
    if k < |gen| then
      RStripEmptyIffBlank(gen[k]);
      if RStrip(gen[k]) != "" then [RStrip(gen[k])] else []
    else []
  }

  /** The block counter and whether the walk is inside a generated region. */
  datatype InjectState = InjectState(current: nat, inGen: bool)

  /** What one line contributes and the state after it; `next` is the
      following line, if any. An end line gets a new generated region unless
      the next line already opens one for the same block; the opening line
      of a region is followed by the content of the block it names; lines
      inside a region are dropped. */
  function InjectStep(line: string, next: Option<string>, st: InjectState, gen: seq<string>): (r: (seq<string>, InjectState))
    ensures r.0 != [] ==> r.0[0] == line
    ensures r.0 == [] <==> st.inGen && Plain(line)
    ensures r.1.current == (if ContainsSub(line, EndTag) then st.current + 1 else st.current)
    ensures ContainsSub(line, EndTag) ==> r.1.inGen == st.inGen
    ensures !ContainsSub(line, EndTag) ==>
      (r.1.inGen <==> ContainsSub(line, GenBeginTag) || (st.inGen && !ContainsSub(line, GenEndTag)))
    ensures ContainsSub(line, EndTag) && (next.None? || !ContainsSub(next.value, GenBeginTag)) ==>
      r.0 == [line, GenBeginLine(st.current)] + Content(gen, st.current) + [GenEndLine(st.current)]
  {
    if ContainsSub(line, EndTag) then
      var k := st.current;
      if next.Some? && ContainsSub(next.value, GenBeginLine(k)) then
        ContainsLonger(next.value, GenBeginTag, GenBeginLine(k));
        ([line], st.(current := k + 1))
      else ([line, GenBeginLine(k)] + Content(gen, k) + [GenEndLine(k)], st.(current := k + 1))
    else if ContainsSub(line, GenBeginTag) then
      match GenId(line)
      case Some(g) => ([line] + Content(gen, g), st.(inGen := true))
      case None => ([line], st.(inGen := true))
    else if ContainsSub(line, GenEndTag) then ([line], st.(inGen := false))
    else if !st.inGen then ([line], st)
    else ([], st)
  }

  function InjectFrom(ls: seq<string>, st: InjectState, gen: seq<string>): seq<string>
    decreases |ls|
  {
    if |ls| == 0 then []
    else
      var step := InjectStep(ls[0], if |ls| > 1 then Some(ls[1]) else None, st, gen);
      step.0 + InjectFrom(ls[1..], step.1, gen)
  }

  /** `_inject_generated_content_for_blocks`: the file with each block's
      content written back; `gen[k]` is what block `k` generated. A file that
      has never been generated into gets, after the end line of each block,
      a new region holding that block's content. */
  function Inject(content: string, gen: seq<string>): (r: string)
    ensures (forall i :: 0 <= i < |Split(content, '\n')| ==> Fresh(Split(content, '\n')[i])) ==>
      r == Join(Expand(Split(content, '\n'), 0, gen), "\n")
  {
    FreshLinesExpand(Split(content, '\n'), gen);
    Join(InjectFrom(Split(content, '\n'), InjectState(0, false), gen), "\n")
  }

  lemma FreshLinesExpand(ls: seq<string>, gen: seq<string>)
    ensures (forall i :: 0 <= i < |ls| ==> Fresh(ls[i])) ==>
      InjectFrom(ls, InjectState(0, false), gen) == Expand(ls, 0, gen)
  {
    if forall i :: 0 <= i < |ls| ==> Fresh(ls[i]) {
      FreshFileExpands(ls, 0, gen);
    }
  }

  /** A line holding none of the markers the injection looks for. */
  predicate Plain(line: string) {
    !ContainsSub(line, EndTag) && !ContainsSub(line, GenBeginTag) && !ContainsSub(line, GenEndTag)
  }

  /** A line that does not belong to a generated region. */
  predicate Fresh(line: string) {
    !ContainsSub(line, GenBeginTag) && !ContainsSub(line, GenEndTag)
  }

  /** The reference for a file that has never been generated into: after
      the end line of block `k` come its region's opening line, its content
      and its closing line. */
  function Expand(ls: seq<string>, k: nat, gen: seq<string>): (r: seq<string>)
    ensures |r| >= |ls|
    decreases |ls|
  {
    if |ls| == 0 then []
    else if ContainsSub(ls[0], EndTag) then
      [ls[0], GenBeginLine(k)] + Content(gen, k) + [GenEndLine(k)] + Expand(ls[1..], k + 1, gen)
    else [ls[0]] + Expand(ls[1..], k, gen)
  }

  lemma ContainsLonger(x: string, w0: string, w1: string)
    requires StartsWith(w1, w0) && ContainsSub(x, w1)
    ensures ContainsSub(x, w0)
  {
    var q :| 0 <= q <= |x| && OccursAt(x, q, w1);
    assert x[q..q + |w1|][..|w0|] == x[q..q + |w0|];
    assert OccursAt(x, q, w0);
  }

  /** In the fresh file an end line is never followed by an existing region. */
  lemma {:induction false} FreshFileExpands(ls: seq<string>, k: nat, gen: seq<string>)
    requires forall i :: 0 <= i < |ls| ==> Fresh(ls[i])
    ensures InjectFrom(ls, InjectState(k, false), gen) == Expand(ls, k, gen)
    decreases |ls|
  {
    if |ls| > 0 {
      if |ls| > 1 && ContainsSub(ls[0], EndTag) {
        if ContainsSub(ls[1], GenBeginLine(k)) {
          ContainsLonger(ls[1], GenBeginTag, GenBeginLine(k));
        }
      }
      FreshFileExpands(ls[1..], if ContainsSub(ls[0], EndTag) then k + 1 else k, gen);
    }
  }

  /** Lines inside a region contribute nothing. */
  lemma {:induction false} RegionLinesDropped(mid: seq<string>, rest: seq<string>, st: InjectState, gen: seq<string>)
    requires st.inGen && forall i :: 0 <= i < |mid| ==> Plain(mid[i])
    requires |rest| > 0
    ensures InjectFrom(mid + rest, st, gen) == InjectFrom(rest, st, gen)
    decreases |mid|
  {
    if |mid| > 0 {
      assert (mid + rest)[0] == mid[0];
      assert (mid + rest)[1..] == mid[1..] + rest;
      RegionLinesDropped(mid[1..], rest, st, gen);
    } else {
      assert mid + rest == rest;
    }
  }

  /** An existing region: its opening line names block `g`; what was between
      its markers is replaced by the content of block `g`. */
  lemma ExistingRegionReplaced(b: string, mid: seq<string>, e: string, rest: seq<string>, st: InjectState,
                               gen: seq<string>, g: nat)
    requires !ContainsSub(b, EndTag) && ContainsSub(b, GenBeginTag) && GenId(b) == Some(g)
    requires forall i :: 0 <= i < |mid| ==> Plain(mid[i])
    requires !ContainsSub(e, EndTag) && !ContainsSub(e, GenBeginTag) && ContainsSub(e, GenEndTag)
    ensures InjectFrom([b] + mid + [e] + rest, st, gen) ==
            [b] + Content(gen, g) + [e] + InjectFrom(rest, st.(inGen := false), gen)
  {
    var ls := [b] + mid + [e] + rest;
    assert ls[0] == b && ls[1..] == mid + ([e] + rest);
    var s1 := st.(inGen := true);
    assert InjectStep(b, Some(ls[1]), st, gen) == ([b] + Content(gen, g), s1);
    assert InjectFrom(ls, st, gen) == [b] + Content(gen, g) + InjectFrom(mid + ([e] + rest), s1, gen);
    RegionLinesDropped(mid, [e] + rest, s1, gen);
    assert ([e] + rest)[0] == e && ([e] + rest)[1..] == rest;
    assert InjectStep(e, if |rest| > 0 then Some(rest[0]) else None, s1, gen) == ([e], st.(inGen := false));
  }

  // ---------------------------------------------------------------------------
  // Regenerating a generated file
  // ---------------------------------------------------------------------------

  /** The lines of a list of entries some of which span several lines. */
  function Flatten(es: seq<string>): (r: seq<string>)
    ensures |es| >= 1 ==> |r| >= 1
    ensures forall i :: 0 <= i < |r| ==> '\n' !in r[i]
    decreases |es|
  {
    if |es| == 0 then [] else Split(es[0], '\n') + Flatten(es[1..])
  }

  lemma {:induction false} FlattenAppend(a: seq<string>, b: seq<string>)
    ensures Flatten(a + b) == Flatten(a) + Flatten(b)
    decreases |a|
  {
    if |a| == 0 {
      assert a + b == b;
    } else {
      assert (a + b)[0] == a[0] && (a + b)[1..] == a[1..] + b;
      FlattenAppend(a[1..], b);
    }
  }

  lemma FlattenLine(x: string)
    requires '\n' !in x
    ensures Flatten([x]) == [x]
  {
    SplitNoSep(x, '\n');
    assert [x][1..] == [];
  }

  lemma {:induction false} JoinAppend(p: seq<string>, q: seq<string>, sep: string)
    requires |p| >= 1 && |q| >= 1
    ensures Join(p + q, sep) == Join(p, sep) + sep + Join(q, sep)
    decreases |p|
  {
    if |p| == 1 {
      JoinCons(p[0], q, sep);
      assert [p[0]] + q == p + q;
    } else {
      JoinAppend(p[1..], q, sep);
      assert (p + q)[0] == p[0] && (p + q)[1..] == p[1..] + q;
      JoinCons(p[0], p[1..] + q, sep);
      JoinCons(p[0], p[1..], sep);
      assert [p[0]] + p[1..] == p;
      assert [p[0]] + (p[1..] + q) == p + q;
    }
  }

  /** Joining the lines of the entries gives the same text as joining the
      entries. */
  lemma {:induction false} JoinFlatten(es: seq<string>)
    requires |es| >= 1
    ensures Join(Flatten(es), "\n") == Join(es, "\n")
    decreases |es|
  {
    var x := es[0];
    if |es| == 1 {
      assert Flatten(es) == Split(x, '\n') + [];
      assert Split(x, '\n') + [] == Split(x, '\n');
    } else {
      JoinFlatten(es[1..]);
      JoinAppend(Split(x, '\n'), Flatten(es[1..]), "\n");
      JoinCons(x, es[1..], "\n");
      assert [x] + es[1..] == es;
    }
  }

  /** Splitting joined entries into lines. */
  lemma SplitJoinFlatten(es: seq<string>)
    requires |es| >= 1
    ensures Split(Join(es, "\n"), '\n') == Flatten(es)
  {
    JoinFlatten(es);
    SplitJoin(Flatten(es), '\n');
  }

  /** A marker line `pre + d`, where `d` is digits and `pre` holds `/` only in
      its first two places, contains a `//`-marker `w` only at its start, and
      not there when the two differ at place `t`. */
  lemma MarkerOnlyAtStart(pre: string, d: string, w: string, t: nat)
    requires |w| >= 2 && w[0] == '/' && w[1] == '/'
    requires t < |pre| && t < |w| && pre[t] != w[t]
    requires forall i :: 2 <= i < |pre| ==> pre[i] != '/'
    requires AllDigits(d)
    ensures !ContainsSub(pre + d, w)
  {
    var x := pre + d;
    forall q | 0 <= q <= |x| ensures !OccursAt(x, q, w) {
      if q + |w| <= |x| {
        if q == 0 {
          assert x[q..q + |w|][t] == pre[t];
        } else {
          assert x[q..q + |w|][1] == x[q + 1];
          assert q + 1 < |pre| ==> x[q + 1] == pre[q + 1];
          assert q + 1 >= |pre| ==> x[q + 1] == d[q + 1 - |pre|];
        }
      }
    }
  }

  lemma DigitsNoNewline(d: string)
    requires AllDigits(d)
    ensures '\n' !in d
  {
  }

  /** The opening line of region `k` is read back as the opening of region
      `k`, and it is neither an end line nor a closing line. */
  lemma GenBeginLineFacts(k: nat)
    ensures ContainsSub(GenBeginLine(k), GenBeginTag) && ContainsSub(GenBeginLine(k), GenBeginLine(k))
    ensures !ContainsSub(GenBeginLine(k), EndTag)
    ensures GenId(GenBeginLine(k)) == Some(k)
    ensures '\n' !in GenBeginLine(k)
  {
    GenBeginLineMarkers(k);
    GenBeginLineId(k);
  }

  /** A line contains itself. */
  lemma ContainsSelf(x: string)
    ensures ContainsSub(x, x)
  {
    assert OccursAt(x, 0, x) by { assert x[0..|x|] == x; }
  }

  lemma GenBeginLineMarkers(k: nat)
    ensures ContainsSub(GenBeginLine(k), GenBeginTag) && ContainsSub(GenBeginLine(k), GenBeginLine(k))
    ensures !ContainsSub(GenBeginLine(k), EndTag)
    ensures '\n' !in GenBeginLine(k)
  {
    var d := NatToString(k);
    var x := GenBeginLine(k);
    assert x == "//VCG_GEN_BEGIN_" + d;
    assert OccursAt(x, 0, GenBeginTag) by { assert x[0..15] == GenBeginTag; }
    ContainsSelf(x);
    MarkerOnlyAtStart("//VCG_GEN_BEGIN_", d, EndTag, 6);
    DigitsNoNewline(d);
  }

  lemma GenBeginLineId(k: nat)
    ensures GenId(GenBeginLine(k)) == Some(k)
  {
    var d := NatToString(k);
    var x := GenBeginLine(k);
    assert x == "//VCG_GEN_BEGIN_" + d;
    assert !OccursAt(x, 0, GenIdTag) && !OccursAt(x, 1, GenIdTag) by {
      assert x[0..14][0] == '/';
      assert x[1..15][0] == '/';
    }
    assert OccursAt(x, 2, GenIdTag) by { assert x[2..16] == GenIdTag; }
    assert x[16..] == d;
    DigitRunAll(d);
    assert GenIdFrom(x, 0) == GenIdFrom(x, 1) == GenIdFrom(x, 2) == Some(k);
  }

  lemma GenEndLineFacts(k: nat)
    ensures ContainsSub(GenEndLine(k), GenEndTag)
    ensures !ContainsSub(GenEndLine(k), EndTag) && !ContainsSub(GenEndLine(k), GenBeginTag)
    ensures '\n' !in GenEndLine(k)
  {
    var d := NatToString(k);
    var x := GenEndLine(k);
    assert x == "//VCG_GEN_END_" + d;
    assert OccursAt(x, 0, GenEndTag) by { assert x[0..13] == GenEndTag; }
    MarkerOnlyAtStart("//VCG_GEN_END_", d, EndTag, 6);
    MarkerOnlyAtStart("//VCG_GEN_END_", d, GenBeginTag, 10);
    DigitsNoNewline(d);
  }

  /** Every line of every block's written-back content is plain. */
  predicate ContentPlain(gen: seq<string>) {
    forall k :: 0 <= k < |gen| ==> PlainLines(Split(RStrip(gen[k]), '\n'))
  }

  predicate PlainLines(ls: seq<string>) {
    forall i :: 0 <= i < |ls| ==> Plain(ls[i])
  }

  lemma ContentLinesPlain(gen: seq<string>, k: nat)
    requires ContentPlain(gen)
    ensures PlainLines(Flatten(Content(gen, k)))
  {
    if |Content(gen, k)| == 1 {
      assert Flatten(Content(gen, k)) == Split(RStrip(gen[k]), '\n') + [];
      assert Split(RStrip(gen[k]), '\n') + [] == Split(RStrip(gen[k]), '\n');
    }
  }

  lemma Flatten5(a: seq<string>, b: seq<string>, c: seq<string>, d: seq<string>, e: seq<string>)
    ensures Flatten(a + b + c + d + e) == Flatten(a) + Flatten(b) + Flatten(c) + Flatten(d) + Flatten(e)
  {
    FlattenAppend(a + b + c + d, e);
    FlattenAppend(a + b + c, d);
    FlattenAppend(a + b, c);
    FlattenAppend(a, b);
  }

  /** The lines of one block's part of the reference. */
  lemma BlockLines(l: string, b: string, c: seq<string>, e: string, rest: seq<string>)
    requires '\n' !in l && '\n' !in b && '\n' !in e
    ensures Flatten([l, b] + c + [e] + rest) == [l] + ([b] + Flatten(c) + [e] + Flatten(rest))
  {
    var fc, fr := Flatten(c), Flatten(rest);
    FlattenLine(l);
    FlattenLine(b);
    FlattenLine(e);
    assert [l, b] == [l] + [b];
    Flatten5([l], [b], c, [e], rest);
    FiveAssoc([l], [b], fc, [e], fr);
  }

  lemma FiveAssoc<T>(a: seq<T>, b: seq<T>, c: seq<T>, d: seq<T>, e: seq<T>)
    ensures a + b + c + d + e == a + (b + c + d + e)
  {
  }

  lemma InjectCons(l: string, tail: seq<string>, st: InjectState, gen: seq<string>, out: seq<string>, st2: InjectState)
    requires |tail| > 0 && InjectStep(l, Some(tail[0]), st, gen) == (out, st2)
    ensures InjectFrom([l] + tail, st, gen) == out + InjectFrom(tail, st2, gen)
  {
    assert ([l] + tail)[0] == l && ([l] + tail)[1..] == tail && ([l] + tail)[1] == tail[0];
  }

  /** An end line followed by the opening line of its own region. */
  lemma StepAtEndWithRegion(l: string, st: InjectState, gen: seq<string>)
    requires ContainsSub(l, EndTag)
    ensures InjectStep(l, Some(GenBeginLine(st.current)), st, gen) == ([l], st.(current := st.current + 1))
  {
    ContainsSelf(GenBeginLine(st.current));
  }

  lemma MarkerLinesNoNewline(k: nat)
    ensures '\n' !in GenBeginLine(k) && '\n' !in GenEndLine(k)
  {
    GenBeginLineFacts(k);
    GenEndLineFacts(k);
  }

  /** The region written for block `k` in the first run is regenerated as
      it was. */
  lemma RegionRegenerated(k: nat, gen: seq<string>, rest: seq<string>)
    requires ContentPlain(gen)
    requires InjectFrom(Flatten(rest), InjectState(k + 1, false), gen) == rest
    ensures InjectFrom([GenBeginLine(k)] + Flatten(Content(gen, k)) + [GenEndLine(k)] + Flatten(rest), InjectState(k + 1, false), gen) ==
            [GenBeginLine(k)] + Content(gen, k) + [GenEndLine(k)] + rest
  {
    GenBeginLineFacts(k);
    GenEndLineFacts(k);
    ContentLinesPlain(gen, k);
    ExistingRegionReplaced(GenBeginLine(k), Flatten(Content(gen, k)), GenEndLine(k), Flatten(rest),
                           InjectState(k + 1, false), gen, k);
  }

  /** The lines of an end line followed by its region. */
  lemma FlattenBlock(l: string, k: nat, gen: seq<string>, rest: seq<string>)
    requires '\n' !in l
    ensures Flatten([l, GenBeginLine(k)] + Content(gen, k) + [GenEndLine(k)] + rest) ==
            [l] + ([GenBeginLine(k)] + Flatten(Content(gen, k)) + [GenEndLine(k)] + Flatten(rest))
  {
    MarkerLinesNoNewline(k);
    BlockLines(l, GenBeginLine(k), Content(gen, k), GenEndLine(k), rest);
  }

  /** An end line whose region follows it is kept, and the walk goes on
      with the next block number. */
  lemma InjectAtEnd(l: string, k: nat, gen: seq<string>, tail: seq<string>)
    requires ContainsSub(l, EndTag) && |tail| > 0 && tail[0] == GenBeginLine(k)
    ensures InjectFrom([l] + tail, InjectState(k, false), gen) == [l] + InjectFrom(tail, InjectState(k + 1, false), gen)
  {
    StepAtEndWithRegion(l, InjectState(k, false), gen);
    InjectCons(l, tail, InjectState(k, false), gen, [l], InjectState(k + 1, false));
  }

  /** An end line of the fresh file, as it reads after the first run: its
      region is found and regenerated as it was. */
  lemma RegenerateBlock(l: string, k: nat, gen: seq<string>, rest: seq<string>)
    requires ContainsSub(l, EndTag) && '\n' !in l && ContentPlain(gen)
    requires InjectFrom(Flatten(rest), InjectState(k + 1, false), gen) == rest
    ensures InjectFrom(Flatten([l, GenBeginLine(k)] + Content(gen, k) + [GenEndLine(k)] + rest), InjectState(k, false), gen) ==
            [l, GenBeginLine(k)] + Content(gen, k) + [GenEndLine(k)] + rest
  {
    var b, e, c := GenBeginLine(k), GenEndLine(k), Content(gen, k);
    var tail := [b] + Flatten(c) + [e] + Flatten(rest);
    FlattenBlock(l, k, gen, rest);
    InjectAtEnd(l, k, gen, tail);
    RegionRegenerated(k, gen, rest);
    BlockAssoc(l, b, c, e, rest);
  }

  lemma BlockAssoc<T>(l: T, b: T, c: seq<T>, e: T, rest: seq<T>)
    ensures [l] + ([b] + c + [e] + rest) == [l, b] + c + [e] + rest
  {
    assert [l, b] == [l] + [b];
  }

  /** Any other line of the fresh file is kept as it is. */
  lemma RegenerateLine(l: string, k: nat, gen: seq<string>, rest: seq<string>)
    requires Fresh(l) && !ContainsSub(l, EndTag) && '\n' !in l
    requires InjectFrom(Flatten(rest), InjectState(k, false), gen) == rest
    ensures InjectFrom(Flatten([l] + rest), InjectState(k, false), gen) == [l] + rest
  {
    FlattenAppend([l], rest);
    FlattenLine(l);
    assert ([l] + Flatten(rest))[0] == l && ([l] + Flatten(rest))[1..] == Flatten(rest);
  }

  /** Walking the lines of the reference leaves them as they are. */
  lemma {:induction false} RegenerateUnchanged(ls: seq<string>, k: nat, gen: seq<string>)
    requires forall i :: 0 <= i < |ls| ==> Fresh(ls[i]) && '\n' !in ls[i]
    requires ContentPlain(gen)
    ensures InjectFrom(Flatten(Expand(ls, k, gen)), InjectState(k, false), gen) == Expand(ls, k, gen)
    decreases |ls|
  {
    if |ls| > 0 {
      if ContainsSub(ls[0], EndTag) {
        RegenerateUnchanged(ls[1..], k + 1, gen);
        RegenerateBlock(ls[0], k, gen, Expand(ls[1..], k + 1, gen));
      } else {
        RegenerateUnchanged(ls[1..], k, gen);
        RegenerateLine(ls[0], k, gen, Expand(ls[1..], k, gen));
      }
    }
  }

  /** Writing the content back into a file that has never been generated
      into, and then once more into the result, changes nothing the second
      time, provided no generated line holds a marker. */
  lemma InjectIdempotent(content: string, gen: seq<string>)
    requires forall i :: 0 <= i < |Split(content, '\n')| ==> Fresh(Split(content, '\n')[i])
    requires ContentPlain(gen)
    ensures Inject(content, gen) == Join(Expand(Split(content, '\n'), 0, gen), "\n")
    ensures Inject(Inject(content, gen), gen) == Inject(content, gen)
  {
    var ls := Split(content, '\n');
    FreshFileExpands(ls, 0, gen);
    var e := Expand(ls, 0, gen);
    SplitJoinFlatten(e);
    RegenerateUnchanged(ls, 0, gen);
  }
}
