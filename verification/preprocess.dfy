/** The line-based preprocessor (`VerilogPreprocess`): it keeps the module
    header and the port and parameter declarations, then evaluates the
    conditional-compilation directives of section 19.4 of IEEE 1364-2005
    (`ifdef`, `ifndef`, `elsif`, `else`, `endif`) with a stack of frames. */
module Preprocess {
  import opened Wrappers
  import opened Strings
  import opened OrderedDict

  // ---------------------------------------------------------------------------
  // Macro definitions (`_parse_macros`)
  // ---------------------------------------------------------------------------

  /** One element of a macro list: a bare name, a `(name, value)` pair of
      strings, or anything else (a pair with a non-string member included). */
  datatype MacroItem = Name(name: string) | Pair(key: string, value: string) | Malformed

  /** The accepted shapes of the macro argument. */
  datatype MacroSpec =
    | NoMacros
    | FromDict(entries: seq<Entry<string>>)
    | FromList(items: seq<MacroItem>)
    | Unsupported

  datatype MacroError = BadItem(index: nat) | BadSpec

  /** The defined macros: name to value, in definition order. */
  type Macros = seq<Entry<string>>

  predicate Defined(macros: Macros, name: string) {
    HasKey(macros, name)
  }

  function ItemEntry(item: MacroItem): Entry<string>
    requires !item.Malformed?
  {
    match item
    case Name(n) => Entry(n, "1")
    case Pair(k, v) => Entry(k, v)
  }

  /** The first item that is neither a name nor a pair of strings. */
  function FirstMalformed(items: seq<MacroItem>): (r: Option<nat>)
    ensures r.None? <==> forall i :: 0 <= i < |items| ==> !items[i].Malformed?
    ensures r.Some? ==> r.value < |items| && items[r.value].Malformed? &&
                        (forall i :: 0 <= i < r.value ==> !items[i].Malformed?)
  {
    if |items| == 0 then None
    else if items[0].Malformed? then Some(0)
    else
      assert forall i :: 1 <= i < |items| ==> items[i] == items[1..][i - 1];
      match FirstMalformed(items[1..])
      case None => None
      case Some(i) => Some(i + 1)
  }

  /** `_parse_macros`: no macros, a copy of a dict, or a dict filled from a
      list where a bare name stands for the value `1`. */
  function ParseMacros(spec: MacroSpec): (r: Result<Macros, MacroError>)
    ensures spec.NoMacros? ==> r == Success([])
    ensures spec.FromDict? ==> r == Success(spec.entries)
    ensures spec.Unsupported? ==> r == Failure(BadSpec)
    ensures spec.FromList? ==>
      (r.Failure? <==> exists i :: 0 <= i < |spec.items| && spec.items[i].Malformed?)
    ensures spec.FromList? && r.Failure? ==>
      r.error.BadItem? && r.error.index < |spec.items| && spec.items[r.error.index].Malformed? &&
      forall i :: 0 <= i < r.error.index ==> !spec.items[i].Malformed?
    ensures spec.FromList? && r.Success? ==>
      DistinctKeys(r.value) &&
      (forall i :: 0 <= i < |spec.items| ==> HasKey(r.value, ItemEntry(spec.items[i]).key))
    ensures spec.FromList? && r.Success? ==>
      forall j :: 0 <= j < |r.value| ==> ListedName(spec.items, r.value[j].key)
  {
    match spec
    case NoMacros => Success([])
    case FromDict(es) => Success(es)
    case Unsupported => Failure(BadSpec)
    case FromList(items) =>
      match FirstMalformed(items)
      case Some(i) => Failure(BadItem(i))
      case None =>
        var es := seq(|items|, i requires 0 <= i < |items| => ItemEntry(items[i]));
        assert forall i :: 0 <= i < |items| ==> es[i].key == ItemEntry(items[i]).key;
        EntriesListed(items, es, FromEntries(es));
        Success(FromEntries(es))
  }

  /** Some well-formed item of the list names `k`. */
  predicate ListedName(items: seq<MacroItem>, k: string) {
    exists i :: 0 <= i < |items| && !items[i].Malformed? && ItemEntry(items[i]).key == k
  }

  /** A dict filled from the items' entries holds no key the items do not name. */
  lemma EntriesListed(items: seq<MacroItem>, es: seq<Entry<string>>, d: Macros)
    requires |es| == |items|
    requires forall i :: 0 <= i < |items| ==> !items[i].Malformed? && es[i].key == ItemEntry(items[i]).key
    requires forall j :: 0 <= j < |d| ==> HasKey(es, d[j].key)
    ensures forall j :: 0 <= j < |d| ==> ListedName(items, d[j].key)
  {
    forall j | 0 <= j < |d| ensures ListedName(items, d[j].key) {
      var i :| 0 <= i < |es| && es[i].key == d[j].key;
      assert ItemEntry(items[i]).key == d[j].key;
    }
  }

  /** A name listed more than once takes the value of its last mention, and a
      bare name the value `1`. */
  lemma LastMacroWins(items: seq<MacroItem>, i: nat, j: nat)
    requires ParseMacros(FromList(items)).Success?
    requires i < |items| && forall m :: i < m < |items| ==> ItemEntry(items[m]).key != ItemEntry(items[i]).key
    requires j < |ParseMacros(FromList(items)).value|
    requires ParseMacros(FromList(items)).value[j].key == ItemEntry(items[i]).key
    ensures ParseMacros(FromList(items)).value[j].value == if items[i].Name? then "1" else items[i].value
  {
    var es := seq(|items|, k requires 0 <= k < |items| => ItemEntry(items[k]));
    LastEntryWins(es, i, j);
  }

  // ---------------------------------------------------------------------------
  // Lines
  // ---------------------------------------------------------------------------

  function Lines(s: string): seq<string> {
    Split(s, '\n')
  }

  function Unlines(lines: seq<string>): string {
    Join(lines, "\n")
  }

  /** The maximal run of word characters at the front of `s`. */
  function WordPrefix(s: string): (r: string)
    ensures |r| <= |s| && r == s[..|r|]
    ensures forall i :: 0 <= i < |r| ==> IsWordChar(r[i])
    ensures |r| < |s| ==> !IsWordChar(s[|r|])
  {
    if |s| > 0 && IsWordChar(s[0]) then [s[0]] + WordPrefix(s[1..]) else ""
  }

  /** When `t` starts with the keyword, then at least one blank, then a
      word: that word. */
  function KeywordArg(t: string, kw: string): (r: Option<string>)
    ensures r.Some? ==> StartsWith(t, kw) && |r.value| > 0 &&
                        (forall i :: 0 <= i < |r.value| ==> IsWordChar(r.value[i]))
  {
    if |t| > |kw| && t[..|kw|] == kw && IsSpace(t[|kw|]) then
      var w := WordPrefix(LStrip(t[|kw|..]));
      if |w| > 0 then Some(w) else None
    else None
  }

  // ---------------------------------------------------------------------------
  // Dropping what precedes the module (`remove_pre_module_content`)
  // ---------------------------------------------------------------------------

  /** The stripped line starts with `module`, blanks and a name. */
  predicate ModuleLine(line: string) {
    KeywordArg(Strip(line), "module").Some?
  }

  /** The index of the first element satisfying `p`. */
  function FirstWhere<T>(s: seq<T>, p: T -> bool): (r: Option<nat>)
    ensures r.None? <==> forall i :: 0 <= i < |s| ==> !p(s[i])
    ensures r.Some? ==> r.value < |s| && p(s[r.value]) &&
                        (forall i :: 0 <= i < r.value ==> !p(s[i]))
  {
    if |s| == 0 then None
    else if p(s[0]) then Some(0)
    else
      assert forall i :: 1 <= i < |s| ==> s[i] == s[1..][i - 1];
      match FirstWhere(s[1..], p)
      case None => None
      case Some(i) => Some(i + 1)
  }

  /** The first line that starts a module. */
  function FirstModuleLine(lines: seq<string>): (r: Option<nat>)
    ensures r.None? <==> forall i :: 0 <= i < |lines| ==> !ModuleLine(lines[i])
    ensures r.Some? ==> r.value < |lines| && ModuleLine(lines[r.value]) &&
                        (forall i :: 0 <= i < r.value ==> !ModuleLine(lines[i]))
  {
    FirstWhere(lines, ModuleLine)
  }

  /** `remove_pre_module_content`: every line from the first module line on;
      nothing at all when there is none. */
  function RemovePreModule(content: string): (r: string)
    ensures FirstModuleLine(Lines(content)).None? ==> r == ""
    ensures FirstModuleLine(Lines(content)).Some? ==>
      Lines(r) == Lines(content)[FirstModuleLine(Lines(content)).value..] && ModuleLine(Lines(r)[0])
  {
    var lines := Lines(content);
    match FirstModuleLine(lines)
    case None => ""
    case Some(i) =>
      var kept := lines[i..];
      forall k | 0 <= k < |kept| ensures '\n' !in kept[k] {
        assert kept[k] == lines[i + k];
      }
      SplitJoin(kept, '\n');
      Unlines(kept)
  }

  /** Trimming twice trims no more than once. */
  lemma RemovePreModuleIdempotent(content: string)
    ensures RemovePreModule(RemovePreModule(content)) == RemovePreModule(content)
  {
    var r := RemovePreModule(content);
    var lines := Lines(content);
    match FirstModuleLine(lines)
    case None =>
      assert Lines("") == [""] by { SplitNoSep("", '\n'); }
    case Some(i) =>
      assert FirstModuleLine(Lines(r)) == Some(0);
      assert Lines(r)[0..] == Lines(r);
      assert Join(Lines(r), "\n") == r;
  }

  // ---------------------------------------------------------------------------
  // Header and declarations (`extract_module_ports_section`)
  // ---------------------------------------------------------------------------

  /** Past its leading blanks, the line starts with the lower-case keyword
      in any case, followed by a blank. */
  predicate KeywordThenSpace(line: string, kw: string) {
    var u := Lower(LStrip(line));
    |u| > |kw| && u[..|kw|] == kw && IsSpace(u[|kw|])
  }

  /** `_starts_declaration`, applied to a stripped line. */
  predicate StartsDeclaration(line: string) {
    line != "" &&
    (KeywordThenSpace(line, "input") || KeywordThenSpace(line, "output") ||
     KeywordThenSpace(line, "inout") || KeywordThenSpace(line, "parameter"))
  }

  /** The scanner's variables: inside a module, header complete, collecting a
      declaration (with its lines so far), the kept lines, and whether the
      scan has stopped at `endmodule`. */
  datatype ScanState = ScanState(
    inModule: bool, headerDone: bool, collecting: bool,
    pending: seq<string>, out: seq<string>, stopped: bool)

  const ScanStart := ScanState(false, false, false, [], [], false)

  /** What the scanner maintains: it collects exactly when lines are pending,
      and only after the header of a module. */
  predicate ScanOk(st: ScanState) {
    (st.collecting <==> |st.pending| > 0) &&
    (st.headerDone ==> st.inModule) &&
    (st.collecting ==> st.headerDone)
  }

  /** A line together with what the scanner sees in it: a module line, the
      start of a declaration, or (stripped) an `endmodule` line. */
  datatype ScanLine = ScanLine(text: string, isModule: bool, isDecl: bool, isEnd: bool, hasSemi: bool)

  function ScanViews(lines: seq<string>): (r: seq<ScanLine>)
    ensures |r| == |lines|
    ensures forall i :: 0 <= i < |r| ==> r[i].text == lines[i] && r[i].isModule == ModuleLine(lines[i])
    ensures forall i :: 0 <= i < |r| ==>
      r[i].isDecl == StartsDeclaration(Strip(lines[i])) && r[i].isEnd == StartsWith(Strip(lines[i]), "endmodule")
    ensures forall i :: 0 <= i < |r| ==> (r[i].hasSemi <==> ';' in lines[i])
  {
    seq(|lines|, i requires 0 <= i < |lines| =>
      var t := Strip(lines[i]);
      ScanLine(lines[i], ModuleLine(lines[i]), StartsDeclaration(t), StartsWith(t, "endmodule"), ';' in lines[i]))
  }

  /** One line of the scan. */
  function ScanStep(st: ScanState, l: ScanLine): (r: ScanState)
    ensures ScanOk(st) ==> ScanOk(r)
    ensures st.stopped ==> r == st
    ensures |st.out| <= |r.out| && r.out[..|st.out|] == st.out
  {
    var line := l.text;
    if st.stopped then st
    else if l.isModule then st.(inModule := true, out := st.out + [line])
    else if !st.inModule then st
    else if !st.headerDone then st.(out := st.out + [line], headerDone := l.hasSemi)
    else if l.isDecl then
      var out := if st.collecting && |st.pending| > 0 then st.out + st.pending else st.out;
      if l.hasSemi then st.(out := out + [line], collecting := false, pending := [])
      else st.(out := out, collecting := true, pending := [line])
    else if st.collecting then
      if l.hasSemi then st.(out := st.out + st.pending + [line], collecting := false, pending := [])
      else st.(pending := st.pending + [line])
    else if l.isEnd then
      st.(out := if st.collecting && |st.pending| > 0 then st.out + st.pending else st.out, stopped := true)
    else st
  }

  function Scan(st: ScanState, ls: seq<ScanLine>): ScanState
    decreases |ls|
  {
    if |ls| == 0 then st else Scan(ScanStep(st, ls[0]), ls[1..])
  }

  /** The whole scan keeps the scanner's invariant and only ever adds lines
      to the output. */
  lemma {:induction false} ScanKeepsOk(st: ScanState, ls: seq<ScanLine>)
    ensures ScanOk(st) ==> ScanOk(Scan(st, ls))
    ensures |st.out| <= |Scan(st, ls).out| && Scan(st, ls).out[..|st.out|] == st.out
    decreases |ls|
  {
    if |ls| > 0 {
      var next := ScanStep(st, ls[0]);
      ScanKeepsOk(next, ls[1..]);
      assert Scan(st, ls).out[..|next.out|] == next.out;
      assert next.out[..|st.out|] == st.out;
    }
  }

  /** A step adds no line but the one it reads. */
  lemma StepProvenance(st: ScanState, l: ScanLine)
    ensures forall x :: x in ScanStep(st, l).out + ScanStep(st, l).pending ==> x in st.out + st.pending || x == l.text
  {
  }

  lemma {:induction false} ScanProvenance(st: ScanState, ls: seq<ScanLine>)
    ensures forall x :: x in Scan(st, ls).out + Scan(st, ls).pending ==>
      x in st.out + st.pending || x in Texts(ls)
    decreases |ls|
  {
    if |ls| > 0 {
      var next := ScanStep(st, ls[0]);
      StepProvenance(st, ls[0]);
      ScanProvenance(next, ls[1..]);
      assert Texts(ls) == [ls[0].text] + Texts(ls[1..]);
    }
  }

  /** `extract_module_ports_section`: the kept lines, and the closing
      keyword the caller appends. */
  function ExtractPortsSection(content: string): (r: (string, string))
    ensures r.1 == "endmodule"
  {
    var ls := ScanViews(Lines(content));
    (Unlines(Scan(ScanStart, ls).out), "endmodule")
  }

  lemma {:induction false} ScanAppend(st: ScanState, a: seq<ScanLine>, b: seq<ScanLine>)
    ensures Scan(st, a + b) == Scan(Scan(st, a), b)
    decreases |a|
  {
    if |a| > 0 {
      assert (a + b)[0] == a[0];
      assert (a + b)[1..] == a[1..] + b;
      ScanAppend(ScanStep(st, a[0]), a[1..], b);
    } else {
      assert a + b == b;
    }
  }

  /** The section holds lines of the input and nothing else. */
  lemma ExtractedLinesFromInput(content: string)
    ensures forall x :: x in Scan(ScanStart, ScanViews(Lines(content))).out ==> x in Lines(content)
  {
    var lines := Lines(content);
    var ls := ScanViews(lines);
    var r := Scan(ScanStart, ls);
    ScanProvenance(ScanStart, ls);
    assert Texts(ls) == lines;
    forall x | x in r.out ensures x in lines {
      assert x in r.out + r.pending;
    }
  }

  lemma {:induction false} StoppedStays(st: ScanState, ls: seq<ScanLine>)
    requires st.stopped
    ensures Scan(st, ls) == st
    decreases |ls|
  {
    if |ls| > 0 {
      StoppedStays(st, ls[1..]);
    }
  }

  /** Lines before the first module line leave the scanner untouched. */
  lemma {:induction false} PreambleIgnored(ls: seq<ScanLine>)
    requires forall i :: 0 <= i < |ls| ==> !ls[i].isModule
    ensures Scan(ScanStart, ls) == ScanStart
    decreases |ls|
  {
    if |ls| > 0 {
      assert forall i :: 0 <= i < |ls[1..]| ==> ls[1..][i] == ls[i + 1];
      PreambleIgnored(ls[1..]);
    }
  }

  /** Scanning from the first module line gives what scanning everything
      gives. */
  lemma ScanFromModule(ls: seq<ScanLine>, i: nat)
    requires i <= |ls| && forall k :: 0 <= k < i ==> !ls[k].isModule
    ensures Scan(ScanStart, ls[i..]) == Scan(ScanStart, ls)
  {
    var pre, post := ls[..i], ls[i..];
    assert ls == pre + post;
    ScanAppend(ScanStart, pre, post);
    assert forall k :: 0 <= k < |pre| ==> pre[k] == ls[k];
    PreambleIgnored(pre);
  }

  lemma NoModuleNoSection(content: string)
    requires FirstModuleLine(Lines(content)).None?
    ensures ExtractPortsSection(RemovePreModule(content)) == ExtractPortsSection(content)
  {
    PreambleIgnored(ScanViews(Lines(content)));
    SplitNoSep("", '\n');
    assert !ModuleLine("") by { assert Strip("") == ""; }
    PreambleIgnored(ScanViews([""]));
  }

  lemma ViewsSuffix(lines: seq<string>, i: nat)
    requires i <= |lines|
    ensures ScanViews(lines[i..]) == ScanViews(lines)[i..]
  {
  }

  lemma ModuleSection(content: string, i: nat)
    requires FirstModuleLine(Lines(content)) == Some(i)
    ensures ExtractPortsSection(RemovePreModule(content)) == ExtractPortsSection(content)
  {
    var lines := Lines(content);
    var ls := ScanViews(lines);
    ViewsSuffix(lines, i);
    ScanFromModule(ls, i);
    assert Lines(RemovePreModule(content)) == lines[i..];
  }

  /** Dropping the text before the module does not change the port section:
      the scanner skips it on its own. */
  lemma PreambleIrrelevant(content: string)
    ensures ExtractPortsSection(RemovePreModule(content)) == ExtractPortsSection(content)
  {
    match FirstModuleLine(Lines(content))
    case None => NoModuleNoSection(content);
    case Some(i) => ModuleSection(content, i);
  }

  lemma AppendCons<T>(a: seq<T>, x: T, b: seq<T>)
    ensures (a + [x]) + b == a + ([x] + b)
  {
  }

  /** The texts of the scanned lines. */
  function Texts(ls: seq<ScanLine>): (r: seq<string>)
    ensures |r| == |ls| && forall i :: 0 <= i < |ls| ==> r[i] == ls[i].text
    decreases |ls|
  {
    if |ls| == 0 then [] else [ls[0].text] + Texts(ls[1..])
  }

  /** The module line opens the header and never closes it, even when it
      holds a `;`. */
  lemma ModuleLineOpens(st: ScanState, m: ScanLine)
    requires ScanOk(st) && !st.stopped && m.isModule && !st.inModule
    ensures ScanStep(st, m) == st.(inModule := true, out := st.out + [m.text])
    ensures !ScanStep(st, m).headerDone
  {
  }

  lemma {:induction false} HeaderLines(st: ScanState, hdr: seq<ScanLine>)
    requires st.inModule && !st.headerDone && !st.stopped
    requires forall k :: 0 <= k < |hdr| ==> !hdr[k].isModule && !hdr[k].hasSemi
    ensures Scan(st, hdr) == st.(out := st.out + Texts(hdr))
    decreases |hdr|
  {
    if |hdr| == 0 {
      assert st.out + Texts(hdr) == st.out;
    } else {
      var next := st.(out := st.out + [hdr[0].text]);
      assert ScanStep(st, hdr[0]) == next;
      assert forall k :: 0 <= k < |hdr[1..]| ==> hdr[1..][k] == hdr[k + 1];
      HeaderLines(next, hdr[1..]);
      AppendCons(st.out, hdr[0].text, Texts(hdr[1..]));
    }
  }

  /** Inside the header every line is kept, up to and including the first one
      that holds a `;`, which completes the header. */
  lemma HeaderCopied(st: ScanState, hdr: seq<ScanLine>, close: ScanLine)
    requires st.inModule && !st.headerDone && !st.stopped
    requires forall k :: 0 <= k < |hdr| ==> !hdr[k].isModule && !hdr[k].hasSemi
    requires !close.isModule && close.hasSemi
    ensures Scan(st, hdr + [close]) == st.(out := st.out + Texts(hdr) + [close.text], headerDone := true)
  {
    ScanAppend(st, hdr, [close]);
    HeaderLines(st, hdr);
  }

  /** Continuation lines of a pending declaration are collected while none of
      them holds a `;` or starts a new declaration; an `endmodule` line among
      them is collected too rather than ending the scan. */
  lemma {:induction false} ContinuationCollected(st: ScanState, cont: seq<ScanLine>)
    requires st.inModule && st.headerDone && st.collecting && !st.stopped
    requires forall k :: 0 <= k < |cont| ==> !cont[k].isModule && !cont[k].isDecl && !cont[k].hasSemi
    ensures Scan(st, cont) == st.(pending := st.pending + Texts(cont))
    decreases |cont|
  {
    if |cont| == 0 {
      assert st.pending + Texts(cont) == st.pending;
    } else {
      var next := st.(pending := st.pending + [cont[0].text]);
      assert ScanStep(st, cont[0]) == next;
      assert forall k :: 0 <= k < |cont[1..]| ==> cont[1..][k] == cont[k + 1];
      ContinuationCollected(next, cont[1..]);
      AppendCons(st.pending, cont[0].text, Texts(cont[1..]));
    }
  }

  /** After the header, a declaration is kept with its continuation lines up
      to the line that holds the `;`. */
  lemma DeclarationKept(st: ScanState, d: ScanLine, cont: seq<ScanLine>, close: ScanLine)
    requires st.inModule && st.headerDone && !st.collecting && !st.stopped && st.pending == []
    requires d.isDecl && !d.isModule && !d.hasSemi
    requires forall k :: 0 <= k < |cont| ==> !cont[k].isModule && !cont[k].isDecl && !cont[k].hasSemi
    requires !close.isModule && close.hasSemi
    ensures Scan(st, [d] + cont + [close]) == st.(out := st.out + [d.text] + Texts(cont) + [close.text])
  {
    var all := [d] + cont + [close];
    var started := st.(collecting := true, pending := [d.text]);
    assert ScanStep(st, d) == started;
    assert all[0] == d && all[1..] == cont + [close];
    assert Scan(st, all) == Scan(started, cont + [close]);
    ScanAppend(started, cont, [close]);
    ContinuationCollected(started, cont);
    CloseDeclaration(started.(pending := [d.text] + Texts(cont)), close);
  }

  /** A line with a `;` completes a pending declaration. */
  lemma CloseDeclaration(st: ScanState, close: ScanLine)
    requires st.inModule && st.headerDone && st.collecting && !st.stopped
    requires !close.isModule && close.hasSemi
    ensures Scan(st, [close]) == st.(out := st.out + st.pending + [close.text], collecting := false, pending := [])
  {
    assert [close][1..] == [];
  }

  /** A new declaration flushes the pending one. */
  lemma NewDeclarationFlushes(st: ScanState, d: ScanLine)
    requires ScanOk(st) && st.inModule && st.headerDone && st.collecting && !st.stopped
    requires d.isDecl && !d.isModule && !d.hasSemi
    ensures ScanStep(st, d) == st.(out := st.out + st.pending, pending := [d.text])
  {
  }

  /** With no declaration pending, `endmodule` ends the scan for good. */
  lemma EndmoduleStops(st: ScanState, e: ScanLine, rest: seq<ScanLine>)
    requires st.inModule && st.headerDone && !st.collecting && !st.stopped
    requires e.isEnd && !e.isModule && !e.isDecl
    ensures Scan(st, [e] + rest) == st.(stopped := true)
  {
    ScanAppend(st, [e], rest);
    StoppedStays(st.(stopped := true), rest);
  }

  /** Any other line after the header is dropped. */
  lemma OtherLineDropped(st: ScanState, x: ScanLine)
    requires st.inModule && st.headerDone && !st.collecting && !st.stopped
    requires !x.isModule && !x.isDecl && !x.isEnd
    ensures ScanStep(st, x) == st
  {
  }

  // ---------------------------------------------------------------------------
  // Conditional compilation (`process_conditional_compilation`)
  // ---------------------------------------------------------------------------

  /** A frame of the condition stack: whether its current branch is taken,
      and whether any branch of it has been taken so far. The kind and macro
      name the source also records are never read. */
  datatype Frame = Frame(active: bool, matched: bool)

  /** The frame invariant: a taken branch has been matched. */
  predicate FrameOk(f: Frame) {
    f.active ==> f.matched
  }

  predicate StackOk(stack: seq<Frame>) {
    forall i :: 0 <= i < |stack| ==> FrameOk(stack[i])
  }

  /** `_should_include_line`: every frame is active. */
  function Include(stack: seq<Frame>): (r: bool)
    ensures r <==> forall i :: 0 <= i < |stack| ==> stack[i].active
  {
    if |stack| == 0 then true
    else
      assert forall i :: 1 <= i < |stack| ==> stack[i] == stack[1..][i - 1];
      stack[0].active && Include(stack[1..])
  }

  /** `else`: taken exactly when no earlier branch was. */
  function OnElse(f: Frame): (r: Frame)
    ensures r.active <==> !f.matched
    ensures r.matched && FrameOk(r)
  {
    var active := !f.matched;
    Frame(active, if active then true else f.matched)
  }

  /** `elsif m`: once a branch has been taken, later ones are not;
      otherwise taken when `m` is defined. */
  function OnElsif(f: Frame, defined: bool): (r: Frame)
    ensures f.matched ==> r.matched && !r.active
    ensures !f.matched ==> r.active == defined && r.matched == defined
    ensures FrameOk(r)
  {
    if !f.matched then Frame(defined, defined) else Frame(false, f.matched)
  }

  /** What the directive scanner sees in a line. */
  datatype LineKind =
    | CommentLine
    | IfDef(name: string)
    | IfNDef(name: string)
    | ElseLine
    | ElsIf(name: string)
    | EndIf
    | Content

  predicate IsDirective(k: LineKind) {
    !k.CommentLine? && !k.Content?
  }

  /** The tests of `process_conditional_compilation`, in its order, on the
      stripped line. */
  function Classify(line: string): LineKind {
    var t := Strip(line);
    if StartsWith(t, "//") || StartsWith(t, "/*") then CommentLine
    else if KeywordArg(t, "`ifdef").Some? then IfDef(KeywordArg(t, "`ifdef").value)
    else if KeywordArg(t, "`ifndef").Some? then IfNDef(KeywordArg(t, "`ifndef").value)
    else if StartsWith(t, "`else") then ElseLine
    else if KeywordArg(t, "`elsif").Some? then ElsIf(KeywordArg(t, "`elsif").value)
    else if StartsWith(t, "`endif") then EndIf
    else Content
  }

  datatype CondLine = CondLine(text: string, kind: LineKind)

  function CondViews(lines: seq<string>): (r: seq<CondLine>)
    ensures |r| == |lines|
    ensures forall i :: 0 <= i < |r| ==> r[i].text == lines[i] && r[i].kind == Classify(lines[i])
  {
    seq(|lines|, i requires 0 <= i < |lines| => CondLine(lines[i], Classify(lines[i])))
  }

  datatype CondState = CondState(stack: seq<Frame>, out: seq<string>)

  /** One line: directives update the stack (the innermost frame is the
      last) and are never kept; other lines are kept when every frame is
      active. `else`, `elsif` and `endif` with no open frame are ignored. */
  function CondStep(macros: Macros, st: CondState, l: CondLine): (r: CondState)
    ensures StackOk(st.stack) ==> StackOk(r.stack)
    ensures r.out == if !IsDirective(l.kind) && Include(st.stack) then st.out + [l.text] else st.out
    ensures (l.kind.ElseLine? || l.kind.ElsIf?) ==>
      |r.stack| == |st.stack| &&
      (forall i :: 0 <= i < |st.stack| ==> (st.stack[i].matched ==> r.stack[i].matched)) &&
      (|st.stack| > 0 && st.stack[|st.stack| - 1].matched ==> !r.stack[|r.stack| - 1].active)
  {
    var n := |st.stack|;
    match l.kind
    case CommentLine => if Include(st.stack) then st.(out := st.out + [l.text]) else st
    case Content => if Include(st.stack) then st.(out := st.out + [l.text]) else st
    case IfDef(m) =>
      var c := Defined(macros, m);
      st.(stack := st.stack + [Frame(c, c)])
    case IfNDef(m) =>
      var c := !Defined(macros, m);
      st.(stack := st.stack + [Frame(c, c)])
    case ElseLine =>
      if n == 0 then st else st.(stack := st.stack[n - 1 := OnElse(st.stack[n - 1])])
    case ElsIf(m) =>
      if n == 0 then st else st.(stack := st.stack[n - 1 := OnElsif(st.stack[n - 1], Defined(macros, m))])
    case EndIf =>
      if n == 0 then st else st.(stack := st.stack[..n - 1])
  }

  function CondRun(macros: Macros, st: CondState, ls: seq<CondLine>): (r: CondState)
    ensures StackOk(st.stack) ==> StackOk(r.stack)
    decreases |ls|
  {
    if |ls| == 0 then st else CondRun(macros, CondStep(macros, st, ls[0]), ls[1..])
  }

  /** `process_conditional_compilation`. */
  function ProcessConditional(macros: Macros, content: string): string {
    Unlines(CondRun(macros, CondState([], []), CondViews(Lines(content))).out)
  }

  /** The texts of the classified lines. */
  function CondTexts(ls: seq<CondLine>): (r: seq<string>)
    ensures |r| == |ls| && forall i :: 0 <= i < |ls| ==> r[i] == ls[i].text
    decreases |ls|
  {
    if |ls| == 0 then [] else [ls[0].text] + CondTexts(ls[1..])
  }

  /** Outside every condition, lines that are not directives are all kept. */
  lemma {:induction false} PlainLinesKept(macros: Macros, st: CondState, ls: seq<CondLine>)
    requires st.stack == []
    requires forall k :: 0 <= k < |ls| ==> !IsDirective(ls[k].kind)
    ensures CondRun(macros, st, ls) == st.(out := st.out + CondTexts(ls))
    decreases |ls|
  {
    if |ls| == 0 {
      assert st.out + CondTexts(ls) == st.out;
    } else {
      var next := st.(out := st.out + [ls[0].text]);
      assert CondStep(macros, st, ls[0]) == next;
      assert forall k :: 0 <= k < |ls[1..]| ==> ls[1..][k] == ls[k + 1];
      PlainLinesKept(macros, next, ls[1..]);
      AppendCons(st.out, ls[0].text, CondTexts(ls[1..]));
    }
  }

  lemma ViewsTexts(lines: seq<string>)
    ensures CondTexts(CondViews(lines)) == lines
  {
    var ls := CondViews(lines);
    assert forall i :: 0 <= i < |lines| ==> CondTexts(ls)[i] == lines[i];
  }

  /** Text without directives passes through unchanged. */
  lemma NoDirectivesIdentity(macros: Macros, content: string)
    requires forall k :: 0 <= k < |Lines(content)| ==> !IsDirective(Classify(Lines(content)[k]))
    ensures ProcessConditional(macros, content) == content
  {
    var lines := Lines(content);
    var ls := CondViews(lines);
    assert forall k :: 0 <= k < |ls| ==> !IsDirective(ls[k].kind);
    PlainLinesKept(macros, CondState([], []), ls);
    ViewsTexts(lines);
    var out := CondRun(macros, CondState([], []), ls).out;
    assert out == [] + lines;
    assert out == lines;
  }

  /** Inside a branch that is not taken, ordinary lines are all dropped. */
  lemma {:induction false} InactiveDropsLines(macros: Macros, st: CondState, ls: seq<CondLine>)
    requires !Include(st.stack)
    requires forall k :: 0 <= k < |ls| ==> !IsDirective(ls[k].kind)
    ensures CondRun(macros, st, ls) == st
    decreases |ls|
  {
    if |ls| > 0 {
      assert CondStep(macros, st, ls[0]) == st;
      assert forall k :: 0 <= k < |ls[1..]| ==> ls[1..][k] == ls[k + 1];
      InactiveDropsLines(macros, st, ls[1..]);
    }
  }

  /** Only which macros are defined matters, not their values or order. */
  lemma {:induction false} OnlyPresenceMatters(m1: Macros, m2: Macros, st: CondState, ls: seq<CondLine>)
    requires forall name :: Defined(m1, name) <==> Defined(m2, name)
    ensures CondRun(m1, st, ls) == CondRun(m2, st, ls)
    decreases |ls|
  {
    if |ls| > 0 {
      assert CondStep(m1, st, ls[0]) == CondStep(m2, st, ls[0]);
      OnlyPresenceMatters(m1, m2, CondStep(m1, st, ls[0]), ls[1..]);
    }
  }

  /** `else`, `elsif` and `endif` outside any condition change nothing. */
  lemma StrayDirectivesIgnored(macros: Macros, st: CondState, l: CondLine)
    requires st.stack == [] && (l.kind.ElseLine? || l.kind.ElsIf? || l.kind.EndIf?)
    ensures CondStep(macros, st, l) == st
  {
  }

  /** Every kept line is an ordinary line of the input: directives are never
      kept. */
  lemma {:induction false} CondProvenance(macros: Macros, st: CondState, ls: seq<CondLine>, x: string)
    requires x in CondRun(macros, st, ls).out
    ensures x in st.out || exists k :: 0 <= k < |ls| && ls[k].text == x && !IsDirective(ls[k].kind)
    decreases |ls|
  {
    if |ls| > 0 && x !in st.out {
      var next := CondStep(macros, st, ls[0]);
      CondProvenance(macros, next, ls[1..], x);
      if x in next.out {
        assert ls[0].text == x && !IsDirective(ls[0].kind);
      } else {
        var k :| 0 <= k < |ls[1..]| && ls[1..][k].text == x && !IsDirective(ls[1..][k].kind);
        assert ls[k + 1] == ls[1..][k];
      }
    }
  }

  lemma KeptIndex(macros: Macros, ls: seq<CondLine>, x: string) returns (k: nat)
    requires x in CondRun(macros, CondState([], []), ls).out
    ensures k < |ls| && ls[k].text == x && !IsDirective(ls[k].kind)
  {
    CondProvenance(macros, CondState([], []), ls, x);
    assert x !in CondState([], []).out;
    k :| 0 <= k < |ls| && ls[k].text == x && !IsDirective(ls[k].kind);
  }

  lemma DirectivesNeverKept(macros: Macros, lines: seq<string>, x: string)
    requires x in CondRun(macros, CondState([], []), CondViews(lines)).out
    ensures x in lines && !IsDirective(Classify(x))
  {
    var ls := CondViews(lines);
    var k := KeptIndex(macros, ls, x);
    assert lines[k] == x;
  }

  lemma IncludePush(stack: seq<Frame>, f: Frame)
    ensures Include(stack + [f]) == (Include(stack) && f.active)
  {
    assert forall i :: 0 <= i < |stack| ==> (stack + [f])[i] == stack[i];
    assert (stack + [f])[|stack|] == f;
  }

  lemma {:induction false} CondAppend(macros: Macros, st: CondState, a: seq<CondLine>, b: seq<CondLine>)
    ensures CondRun(macros, st, a + b) == CondRun(macros, CondRun(macros, st, a), b)
    decreases |a|
  {
    if |a| > 0 {
      assert (a + b)[0] == a[0];
      assert (a + b)[1..] == a[1..] + b;
      CondAppend(macros, CondStep(macros, st, a[0]), a[1..], b);
    } else {
      assert a + b == b;
    }
  }

  /** `ifdef m` followed by an ordinary line keeps the line exactly when `m`
      is defined, and opens a frame recording that. */
  lemma IfdefThen(macros: Macros, st: CondState, m: string, i: CondLine, a: CondLine)
    requires Include(st.stack)
    requires i.kind == IfDef(m) && !IsDirective(a.kind)
    ensures CondRun(macros, st, [i, a]) ==
      CondState(st.stack + [Frame(Defined(macros, m), Defined(macros, m))],
                st.out + if Defined(macros, m) then [a.text] else [])
  {
    var c := Defined(macros, m);
    IncludePush(st.stack, Frame(c, c));
    var s1 := st.(stack := st.stack + [Frame(c, c)]);
    assert CondStep(macros, st, i) == s1;
    assert [i, a][1..] == [a];
    assert CondRun(macros, s1, [a]) == CondStep(macros, s1, a);
  }

  /** `else` / `b` / `endif` after a branch: `b` is kept exactly when no
      branch was taken, and the frame is closed. */
  lemma ElseThenEnd(macros: Macros, stack: seq<Frame>, out: seq<string>, c: bool,
                    e: CondLine, b: CondLine, z: CondLine)
    requires Include(stack)
    requires e.kind == ElseLine && z.kind == EndIf && !IsDirective(b.kind)
    ensures CondRun(macros, CondState(stack + [Frame(c, c)], out), [e, b, z]) ==
      CondState(stack, out + if c then [] else [b.text])
  {
    IncludePush(stack, Frame(!c, true));
    var s3 := CondState(stack + [Frame(!c, true)], out);
    assert CondStep(macros, CondState(stack + [Frame(c, c)], out), e) == s3;
    var s4 := if c then s3 else s3.(out := out + [b.text]);
    assert CondStep(macros, s3, b) == s4;
    assert (stack + [Frame(!c, true)])[..|stack|] == stack;
    assert CondStep(macros, s4, z) == s4.(stack := stack);
    assert [e, b, z][1..] == [b, z] && [b, z][1..] == [z];
    assert CondRun(macros, s4, [z]) == CondStep(macros, s4, z);
  }

  /** `ifdef m` / `a` / `else` / `b` / `endif` in a taken context keeps `a`
      when `m` is defined and `b` otherwise. */
  lemma IfdefElseChoice(macros: Macros, st: CondState, m: string,
                        i: CondLine, a: CondLine, e: CondLine, b: CondLine, z: CondLine)
    requires Include(st.stack)
    requires i.kind == IfDef(m) && e.kind == ElseLine && z.kind == EndIf
    requires !IsDirective(a.kind) && !IsDirective(b.kind)
    ensures CondRun(macros, st, [i, a, e, b, z]) ==
      st.(out := st.out + if Defined(macros, m) then [a.text] else [b.text])
  {
    var c := Defined(macros, m);
    assert [i, a, e, b, z] == [i, a] + [e, b, z];
    CondAppend(macros, st, [i, a], [e, b, z]);
    IfdefThen(macros, st, m, i, a);
    var mid := st.out + if c then [a.text] else [];
    ElseThenEnd(macros, st.stack, mid, c, e, b, z);
  }

  // ---------------------------------------------------------------------------
  // The whole pass (`preprocess_string`)
  // ---------------------------------------------------------------------------

  /** `preprocess_string`: trim what precedes the module, keep the header and
      the declarations, evaluate the directives, and close with
      `endmodule`. */
  function PreprocessString(macros: Macros, code: string): (r: string)
    ensures EndsWith(r, "\nendmodule")
  {
    var body := ProcessConditional(macros, ExtractPortsSection(RemovePreModule(code)).0);
    assert (body + "\nendmodule")[|body|..] == "\nendmodule";
    body + "\nendmodule"
  }

  /** Trimming the preamble first is only an economy: the result is the same
      without it. */
  lemma PreprocessIgnoresPreamble(macros: Macros, code: string)
    ensures PreprocessString(macros, code) ==
      ProcessConditional(macros, ExtractPortsSection(code).0) + "\nendmodule"
  {
    PreambleIrrelevant(code);
  }
}
