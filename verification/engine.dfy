/** The execution engine's ordered output (`vcg_execution_engine.py`): what a
    generator script prints, and the instance and wire code it asks for, are
    collected as entries in call order and joined by newlines. Each
    execution starts from no rules and no entries. The script itself is
    represented by the calls it makes; the code an `Instance` or `WiresDef`
    call generates is given with the call. */
module Engine {
  import opened Wrappers
  import opened Strings
  import opened WidthFormat
  import Rules

  // ---------------------------------------------------------------------------
  // OrderedOutputManager
  // ---------------------------------------------------------------------------

  /** `add_text_output`: a text with anything but whitespace is kept without
      its trailing whitespace; a whitespace-only text adds an empty entry
      when it holds a newline; an empty text adds nothing. */
  function AddText(outs: seq<string>, text: string): (r: seq<string>)
    ensures |r| == |outs| || |r| == |outs| + 1
    ensures r[..|outs|] == outs
    ensures |r| == |outs| + 1 <==> !IsBlank(text) || '\n' in text
    ensures |r| == |outs| + 1 ==> r[|outs|] == RStrip(text)
  {
    if text == "\n" then
      assert RStrip(text) == "";
      outs + [""]
    else if !IsBlank(text) then outs + [RStrip(text)]
    else if text != "" && '\n' in text then
      RStripEmptyIffBlank(text);
      outs + [""]
    else
      assert '\n' in text ==> text != "";
      outs
  }

  /** `add_instance_output` and `add_wires_output`: generated code is kept
      as it is, unless it is blank. */
  function AddCode(outs: seq<string>, code: string): (r: seq<string>)
    ensures |r| == (if IsBlank(code) then |outs| else |outs| + 1)
    ensures r[..|outs|] == outs
    ensures |r| > |outs| ==> r[|outs|] == code
  {
    if !IsBlank(code) then outs + [code] else outs
  }

  /** `get_final_output`. */
  function FinalOutput(outs: seq<string>): string {
    Join(outs, "\n")
  }

  /** The final output of entries written on one line each reads back, line
      by line, as those entries. */
  lemma FinalOutputLines(outs: seq<string>)
    requires |outs| >= 1 && forall i :: 0 <= i < |outs| ==> '\n' !in outs[i]
    ensures Split(FinalOutput(outs), '\n') == outs
  {
    SplitJoin(outs, '\n');
  }

  // ---------------------------------------------------------------------------
  // A script's calls
  // ---------------------------------------------------------------------------

  /** The calls a generator script makes that the engine acts on. */
  datatype Call =
    | Print(args: seq<string>, sep: string, end: string)
    | InstanceCode(code: string)
    | WiresCode(code: string)
    | Connect(source: string, target: string, portType: Option<string>)
    | ConnectParam(name: string, value: string)
    | WiresRule(portPattern: string, wirePattern: string, width: Width, expression: Option<string>)

  /** The text the replacement `print` hands on: the arguments joined by the
      separator, followed by the line end. */
  function PrintText(args: seq<string>, sep: string, end: string): string {
    Join(args, sep) + end
  }

  /** The rules declared and the entries collected. */
  datatype Session = Session(rules: Rules.RuleSet, outputs: seq<string>)

  /** The entries one call adds, read off the output manager's rules: a
      printed text with anything but whitespace, or with a line break, gives
      its right-stripped text; generated code that is not blank gives itself;
      a rule declaration gives nothing. */
  function Emit(c: Call): seq<string> {
    match c
    case Print(args, sep, end) =>
      var t := PrintText(args, sep, end);
      if !IsBlank(t) || '\n' in t then [RStrip(t)] else []
    case InstanceCode(code) => if IsBlank(code) then [] else [code]
    case WiresCode(code) => if IsBlank(code) then [] else [code]
    case _ => []
  }

  /** The entries of a sequence of calls, in call order. */
  function Emitted(calls: seq<Call>): seq<string>
    decreases |calls|
  {
    if |calls| == 0 then [] else Emit(calls[0]) + Emitted(calls[1..])
  }

  /** One call of the script: a print or generated code appends its entries
      and leaves the rules alone; a rule declaration appends one rule of its
      kind, keeps the priorities valid, and adds no entry. */
  function Perform(s: Session, c: Call): (r: Session)
    ensures r.outputs == s.outputs + Emit(c)
    ensures Rules.Valid(s.rules) ==> Rules.Valid(r.rules)
    ensures c.Print? || c.InstanceCode? || c.WiresCode? ==> r.rules == s.rules
    ensures c.Connect? ==> Rules.Summarize(r.rules) == Rules.Summarize(s.rules).(signals := |s.rules.signals| + 1)
    ensures c.ConnectParam? ==> Rules.Summarize(r.rules) == Rules.Summarize(s.rules).(params := |s.rules.params| + 1)
    ensures c.WiresRule? ==> Rules.Summarize(r.rules) == Rules.Summarize(s.rules).(wires := |s.rules.wires| + 1)
  {
    match c
    case Print(args, sep, end) => s.(outputs := AddText(s.outputs, PrintText(args, sep, end)))
    case InstanceCode(code) => s.(outputs := AddCode(s.outputs, code))
    case WiresCode(code) => s.(outputs := AddCode(s.outputs, code))
    case Connect(src, tgt, pt) => s.(rules := Rules.AddSignal(s.rules, src, tgt, pt))
    case ConnectParam(n, v) => s.(rules := Rules.AddParam(s.rules, n, v))
    case WiresRule(pp, wp, w, e) => s.(rules := Rules.AddWire(s.rules, pp, wp, w, e))
  }

  function PerformAll(s: Session, calls: seq<Call>): Session
    decreases |calls|
  {
    if |calls| == 0 then s else PerformAll(Perform(s, calls[0]), calls[1..])
  }

  /** `execute` clears the rules and the entries before the script runs. */
  function Start(s: Session): (r: Session)
    ensures Rules.Valid(r.rules) && Rules.Summarize(r.rules) == Rules.Summary(0, 0, 0) && r.outputs == []
  {
    Session(Rules.Reset(), [])
  }

  /** `execute`: the final output of the script's calls, which is the
      entries the calls emit, in call order, joined by newlines; neither the
      session before nor the rules declared on the way change it. */
  function Execute(s: Session, calls: seq<Call>): (r: string)
    ensures r == Join(Emitted(calls), "\n")
  {
    PerformAllEmits(Start(s), calls);
    assert [] + Emitted(calls) == Emitted(calls);
    FinalOutput(PerformAll(Start(s), calls).outputs)
  }

  /** Performing the calls appends exactly the entries they emit. */
  lemma {:induction false} PerformAllEmits(s: Session, calls: seq<Call>)
    ensures PerformAll(s, calls).outputs == s.outputs + Emitted(calls)
    decreases |calls|
  {
    if |calls| > 0 {
      var a := Perform(s, calls[0]);
      PerformAllEmits(a, calls[1..]);
      assert PerformAll(s, calls) == PerformAll(a, calls[1..]);
      assert Emitted(calls) == Emit(calls[0]) + Emitted(calls[1..]);
      AppendAssoc(s.outputs, Emit(calls[0]), Emitted(calls[1..]));
    } else {
      assert s.outputs + [] == s.outputs;
    }
  }

  lemma AppendAssoc<T>(x: seq<T>, y: seq<T>, z: seq<T>)
    ensures x + y + z == x + (y + z)
  {
  }

  /** Nothing from an earlier execution reaches the next one: the output
      depends on the script's calls alone. */
  lemma NoLeakBetweenBlocks(s1: Session, s2: Session, calls: seq<Call>)
    ensures Execute(s1, calls) == Execute(s2, calls)
  {
  }

  /** `Connect`, `ConnectParam` and `WiresRule` only record rules; they write
      no entry. The code an `Instance` or `WiresDef` call generates is given
      with the call here, so the rules in force cannot change any entry: the
      lemma says that rule declarations print nothing, not that generated
      code ignores the rules (that dependence is stated by `Instance` and
      `Wires`). */
  lemma {:induction false} RulesDoNotPrint(s: Session, calls: seq<Call>, rules: Rules.RuleSet)
    ensures PerformAll(s, calls).outputs == PerformAll(s.(rules := rules), calls).outputs
    decreases |calls|
  {
    if |calls| > 0 {
      var c := calls[0];
      var a := Perform(s, c);
      var b := Perform(s.(rules := rules), c);
      assert a.outputs == b.outputs;
      assert b == a.(rules := b.rules);
      RulesDoNotPrint(a, calls[1..], b.rules);
    }
  }

  /** Entries are only ever added at the end. */
  lemma {:induction false} OutputsGrow(s: Session, calls: seq<Call>)
    ensures |PerformAll(s, calls).outputs| >= |s.outputs|
    ensures PerformAll(s, calls).outputs[..|s.outputs|] == s.outputs
    decreases |calls|
  {
    if |calls| > 0 {
      var a := Perform(s, calls[0]);
      OutputsGrow(a, calls[1..]);
      var r := PerformAll(a, calls[1..]).outputs;
      assert a.outputs[..|s.outputs|] == s.outputs;
      assert r[..|s.outputs|] == r[..|a.outputs|][..|s.outputs|];
    }
  }

  /** A bare `print()` gives an empty line, and `print(x)` gives `x`
      without its trailing whitespace. */
  lemma PrintLines(outs: seq<string>, x: string)
    ensures AddText(outs, PrintText([], " ", "\n")) == outs + [""]
    ensures !IsBlank(x) ==> AddText(outs, PrintText([x], " ", "\n")) == outs + [RStrip(x)]
  {
    assert PrintText([], " ", "\n") == "\n";
    assert PrintText([x], " ", "\n") == x + "\n";
    if !IsBlank(x) {
      var i :| 0 <= i < |x| && !IsSpace(x[i]);
      assert (x + "\n")[i] == x[i];
      assert (x + "\n")[..|x|] == x;
    }
  }
}
