/** The rule manager (`vcg_rule_manager.py`): the ordered lists of signal,
    parameter and wire rules a generation script declares, and their
    resolution against a port or parameter name. The rule added last that
    applies wins; a target of `0` or `1` is widened to a literal of the port's
    width; inline comments of a target are put aside while the wildcard
    captures are substituted and put back afterwards. */
module Rules {
  import opened Wrappers
  import opened Strings
  import opened Wildcard
  import opened Comments
  import opened Substitution
  import opened WidthFormat
  import opened Signature

  // ---------------------------------------------------------------------------
  // Ports and rules
  // ---------------------------------------------------------------------------

  /** What the rule manager reads of a port: its name, its direction when the
      object has one, and its width (`None`, a number or a text). */
  datatype Port = Port(name: string, direction: Option<string>, width: Width)

  /** The view of a parsed port record. */
  function FromInfo(p: PortInfo): Port {
    Port(p.name, Some(p.direction), p.Width())
  }

  /** `Connect(source, target, port_type)`: the target is stored with its
      comments replaced by placeholders. */
  datatype SignalRule = SignalRule(
    source: string, target: string, comments: seq<string>,
    portType: Option<string>, priority: nat)

  /** `ConnectParam(name, value)`. */
  datatype ParamRule = ParamRule(paramName: string, paramValue: string, priority: nat)

  /** `WiresRule(port_pattern, wire_pattern, width, expression)`. */
  datatype WireRule = WireRule(
    portPattern: string, wirePattern: string, comments: seq<string>,
    width: Width, expression: Option<string>, priority: nat)

  datatype RuleSet = RuleSet(signals: seq<SignalRule>, params: seq<ParamRule>, wires: seq<WireRule>)

  /** `get_rules_summary`. */
  datatype Summary = Summary(signals: nat, params: nat, wires: nat)

  function Summarize(rs: RuleSet): Summary {
    Summary(|rs.signals|, |rs.params|, |rs.wires|)
  }

  /** Every rule's priority is its position in its list. */
  predicate Valid(rs: RuleSet) {
    (forall i :: 0 <= i < |rs.signals| ==> rs.signals[i].priority == i) &&
    (forall i :: 0 <= i < |rs.params| ==> rs.params[i].priority == i) &&
    (forall i :: 0 <= i < |rs.wires| ==> rs.wires[i].priority == i)
  }

  /** The state after construction and after `reset`. */
  function Reset(): (r: RuleSet)
    ensures Valid(r) && Summarize(r) == Summary(0, 0, 0)
  {
    RuleSet([], [], [])
  }

  /** The port type in lower case; no type when it is missing or empty. */
  function NormalizePortType(portType: Option<string>): (r: Option<string>)
    ensures r.None? <==> portType.None? || portType.value == ""
    ensures r.Some? ==> Lower(r.value) == r.value && |r.value| == |portType.value|
  {
    match portType
    case None => None
    case Some(t) => LowerIdempotent(t); if t == "" then None else Some(Lower(t))
  }

  /** `add_signal_rule`: one more signal rule, at the end, nothing else
      changed. */
  function AddSignal(rs: RuleSet, source: string, target: string, portType: Option<string>): (r: RuleSet)
    ensures |r.signals| == |rs.signals| + 1 && r.signals[..|rs.signals|] == rs.signals && r.params == rs.params && r.wires == rs.wires
    ensures Summarize(r) == Summarize(rs).(signals := |rs.signals| + 1)
    ensures var rule := r.signals[|rs.signals|];
      rule.source == source && rule.portType == NormalizePortType(portType)
    ensures Valid(rs) ==> Valid(r)
  {
    var e := Extract(target);
    var rule := SignalRule(source, e.text, e.comments, NormalizePortType(portType), |rs.signals|);
    assert (rs.signals + [rule])[..|rs.signals|] == rs.signals;
    rs.(signals := rs.signals + [rule])
  }

  /** `add_param_rule`. */
  function AddParam(rs: RuleSet, name: string, value: string): (r: RuleSet)
    ensures |r.params| == |rs.params| + 1 && r.params[..|rs.params|] == rs.params && r.signals == rs.signals && r.wires == rs.wires
    ensures Summarize(r) == Summarize(rs).(params := |rs.params| + 1)
    ensures r.params[|rs.params|].paramName == name && r.params[|rs.params|].paramValue == value
    ensures Valid(rs) ==> Valid(r)
  {
    var rule := ParamRule(name, value, |rs.params|);
    assert (rs.params + [rule])[..|rs.params|] == rs.params;
    rs.(params := rs.params + [rule])
  }

  /** `add_wire_rule`: the wire pattern is stored with its comments replaced
      by placeholders; width and expression are kept as given. */
  function AddWire(rs: RuleSet, portPattern: string, wirePattern: string,
                   width: Width, expression: Option<string>): (r: RuleSet)
    ensures |r.wires| == |rs.wires| + 1 && r.wires[..|rs.wires|] == rs.wires && r.signals == rs.signals && r.params == rs.params
    ensures Summarize(r) == Summarize(rs).(wires := |rs.wires| + 1)
    ensures var rule := r.wires[|rs.wires|];
      rule.portPattern == portPattern && rule.width == width && rule.expression == expression
    ensures Valid(rs) ==> Valid(r)
  {
    var e := Extract(wirePattern);
    var rule := WireRule(portPattern, e.text, e.comments, width, expression, |rs.wires|);
    assert (rs.wires + [rule])[..|rs.wires|] == rs.wires;
    rs.(wires := rs.wires + [rule])
  }

  // ---------------------------------------------------------------------------
  // Literal widening
  // ---------------------------------------------------------------------------

  /** `n'b` followed by `n` copies of the value, or a single bit for a width
      of at most one. */
  function Replicate(n: int, v: string): string {
    if n <= 1 then "1'b" + v else IntToString(n) + "'b" + Repeat(v, n)
  }

  /** The number a width stands for: a number, or a text of decimal digits
      up to surrounding blanks. */
  function NumericWidth(w: Width): Option<int> {
    match w
    case NoWidth => None
    case IntW(n) => Some(n)
    case StrW(s) => if IsDigits(Strip(s)) then Some(DecimalValue(Strip(s))) else None
  }

  /** `_generate_width_literal`: the constant `v` at the width of the port. A
      numeric width gives a sized binary literal; any other width text gives a
      replication, parenthesised when the text holds an operator or a
      parenthesis. */
  function WidthLiteral(w: Width, v: string): (r: string)
    ensures !Truthy(w) ==> r == "1'b" + v
    ensures w.IntW? && w.n <= 1 ==> r == "1'b" + v
  {
    if !Truthy(w) then "1'b" + v
    else if NumericWidth(w).Some? then Replicate(NumericWidth(w).value, v)
    else
      var t := Strip(w.s);
      if HasAnyOf(t, "+-*/()") then "{(" + t + "){1'b" + v + "}}"
      else "{" + t + "{1'b" + v + "}}"
  }

  /** `_handle_literal_value_if_needed`: a result that is `0` or `1` up to
      surrounding blanks becomes a literal of the port's width. */
  function HandleLiteral(value: string, w: Width): (r: string)
    ensures Strip(value) != "0" && Strip(value) != "1" ==> r == value
  {
    var t := Strip(value);
    if t == "0" || t == "1" then WidthLiteral(w, t) else value
  }

  /** The name a matching rule produces: the stored target with the captures
      substituted, widened when it is a constant bit, its comments put back. */
  function Expand(name: string, pattern: string, target: string, comments: seq<string>,
                  w: Width, ev: Evaluator): string
  {
    var v := HandleLiteral(Apply(name, pattern, target, ev), w);
    if |comments| > 0 then Restore(v, comments) else v
  }

  // ---------------------------------------------------------------------------
  // Resolution: the last applicable rule wins
  // ---------------------------------------------------------------------------

  /** The position of the last element satisfying `p`: the first hit of a
      scan over the reversed list. */
  function LastWhere<T>(s: seq<T>, p: T -> bool): (r: Option<nat>)
    ensures r.None? <==> forall i :: 0 <= i < |s| ==> !p(s[i])
    ensures r.Some? ==> r.value < |s| && p(s[r.value])
    ensures r.Some? ==> forall j :: r.value < j < |s| ==> !p(s[j])
    ensures forall i ::
      (0 <= i < |s| && p(s[i]) && (forall j :: i < j < |s| ==> !p(s[j]))) ==> r == Some(i)
    decreases |s|
  {
    if |s| == 0 then None
    else if p(s[|s| - 1]) then
      LastOnly(s, p, |s| - 1);
      Some(|s| - 1)
    else
      var r := LastWhere(s[..|s| - 1], p);
      LastWhereStep(s, s[..|s| - 1], p, r);
      r
  }

  /** At most one matching index has no matching index after it. */
  lemma LastOnly<T>(s: seq<T>, p: T -> bool, k: nat)
    requires k < |s| && p(s[k]) && forall j :: k < j < |s| ==> !p(s[j])
    ensures forall i :: (0 <= i < |s| && p(s[i]) && (forall j :: i < j < |s| ==> !p(s[j]))) ==> i == k
  {
  }

  /** A last element that does not match leaves the answer of the rest. */
  lemma LastWhereStep<T>(s: seq<T>, pre: seq<T>, p: T -> bool, r: Option<nat>)
    requires |s| > 0 && !p(s[|s| - 1]) && pre == s[..|s| - 1]
    requires r.None? <==> forall i :: 0 <= i < |pre| ==> !p(pre[i])
    requires r.Some? ==> r.value < |pre| && p(pre[r.value])
    requires r.Some? ==> forall j :: r.value < j < |pre| ==> !p(pre[j])
    ensures r.None? <==> forall i :: 0 <= i < |s| ==> !p(s[i])
    ensures r.Some? ==> r.value < |s| && p(s[r.value])
    ensures r.Some? ==> forall j :: r.value < j < |s| ==> !p(s[j])
    ensures forall i ::
      (0 <= i < |s| && p(s[i]) && (forall j :: i < j < |s| ==> !p(s[j]))) ==> r == Some(i)
  {
    assert forall i :: 0 <= i < |pre| ==> pre[i] == s[i];
    if r.Some? {
      LastOnly(s, p, r.value);
    }
  }

  /** `_check_port_type_match`: an object without a direction passes; otherwise
      the directions compare without regard to case. */
  predicate PortTypeMatch(port: Port, required: string) {
    port.direction.None? || Lower(port.direction.value) == Lower(required)
  }

  predicate SignalApplies(rule: SignalRule, port: Port) {
    (rule.portType.None? || PortTypeMatch(port, rule.portType.value)) && Matches(port.name, rule.source)
  }

  function FireSignal(rule: SignalRule, port: Port, ev: Evaluator): string {
    Expand(port.name, rule.source, rule.target, rule.comments, port.width, ev)
  }

  /** `resolve_signal_connection`: the expansion of the last rule whose port
      type and source pattern both accept the port, or the port's own name
      when there is none. */
  function ResolveSignal(rs: RuleSet, port: Port, ev: Evaluator): (r: string)
    ensures (forall i :: 0 <= i < |rs.signals| ==> !SignalApplies(rs.signals[i], port)) ==> r == port.name
    ensures forall i ::
      (0 <= i < |rs.signals| && SignalApplies(rs.signals[i], port) &&
       (forall j :: i < j < |rs.signals| ==> !SignalApplies(rs.signals[j], port))) ==>
        r == FireSignal(rs.signals[i], port, ev)
  {
    match LastWhere(rs.signals, (rule: SignalRule) => SignalApplies(rule, port))
    case None => port.name
    case Some(i) => FireSignal(rs.signals[i], port, ev)
  }

  /** `resolve_param_connection`: the value of the last rule whose pattern
      matches the parameter name, or nothing. */
  function ResolveParam(rs: RuleSet, name: string): (r: Option<string>)
    ensures r.None? <==> forall i :: 0 <= i < |rs.params| ==> !Matches(name, rs.params[i].paramName)
    ensures forall i ::
      (0 <= i < |rs.params| && Matches(name, rs.params[i].paramName) &&
       (forall j :: i < j < |rs.params| ==> !Matches(name, rs.params[j].paramName))) ==>
        r == Some(rs.params[i].paramValue)
  {
    match LastWhere(rs.params, (rule: ParamRule) => Matches(name, rule.paramName))
    case None => None
    case Some(i) => Some(rs.params[i].paramValue)
  }

  /** The tuple `resolve_wire_generation` returns: wire name, width,
      expression, and whether a rule matched. */
  datatype WireResolution = WireResolution(name: string, width: Width, expression: Option<string>, matched: bool)

  function FireWire(rule: WireRule, port: Port, ev: Evaluator): WireResolution {
    var name := Expand(port.name, rule.portPattern, rule.wirePattern, rule.comments, port.width, ev);
    var expression :=
      if rule.expression.Some? && rule.expression.value != "" then
        Some(Apply(port.name, rule.portPattern, rule.expression.value, ev))
      else rule.expression;
    WireResolution(name, rule.width, expression, true)
  }

  /** `resolve_wire_generation`: the last wire rule whose port pattern matches
      gives the wire; without one, `lazy` mode yields an empty name and any
      other mode the port's own name. */
  function ResolveWire(rs: RuleSet, port: Port, mode: string, ev: Evaluator): (r: WireResolution)
    ensures r.matched <==> exists i :: 0 <= i < |rs.wires| && Matches(port.name, rs.wires[i].portPattern)
    ensures !r.matched ==> r == WireResolution(if mode == "lazy" then "" else port.name, NoWidth, None, false)
    ensures forall i ::
      (0 <= i < |rs.wires| && Matches(port.name, rs.wires[i].portPattern) &&
       (forall j :: i < j < |rs.wires| ==> !Matches(port.name, rs.wires[j].portPattern))) ==>
        r == FireWire(rs.wires[i], port, ev)
  {
    match LastWhere(rs.wires, (rule: WireRule) => Matches(port.name, rule.portPattern))
    case None => WireResolution(if mode == "lazy" then "" else port.name, NoWidth, None, false)
    case Some(i) => FireWire(rs.wires[i], port, ev)
  }

  // ---------------------------------------------------------------------------
  // Properties
  // ---------------------------------------------------------------------------

  /** A stored target gives back the target as written once its comments are
      restored. */
  lemma StoredTargetRestores(rs: RuleSet, source: string, target: string, portType: Option<string>)
    requires !ContainsSub(target, Word)
    ensures var rule := AddSignal(rs, source, target, portType).signals[|rs.signals|];
      Restore(rule.target, rule.comments) == target
  {
    RestoreExtract(target);
  }

  /** A rule naming the port exactly, added last, connects the port to the
      target as written, comments included, unless the target is a constant
      bit. */
  lemma ExactRuleVerbatim(rs: RuleSet, target: string, port: Port, ev: Evaluator)
    requires '*' !in port.name && !ContainsSub(target, Word)
    requires Strip(target) != "0" && Strip(target) != "1"
    ensures ResolveSignal(AddSignal(rs, port.name, target, None), port, ev) == target
  {
    var r := AddSignal(rs, port.name, target, None);
    var rule := r.signals[|rs.signals|];
    var e := Extract(target);
    assert SignalApplies(rule, port);
    assert Apply(port.name, port.name, e.text, ev) == e.text;
    RestoreExtract(target);
    ExtractedNotBit(target);
    assert FireSignal(rule, port, ev) == target;
  }

  /** A target that is not a constant bit is not one once its comments are
      set aside either. */
  lemma ExtractedNotBit(target: string)
    requires !ContainsSub(target, Word)
    requires Strip(target) != "0" && Strip(target) != "1"
    ensures Strip(Extract(target).text) != "0" && Strip(Extract(target).text) != "1"
  {
    var e := ExtractFrom(target, 0);
    if |e.comments| > 0 {
      ExtractUnderscore(target, 0);
      var k :| 0 <= k < |e.text| && e.text[k] == '_';
      UnderscoreNotBit(e.text, k);
    } else {
      RestoreExtract(target);
      assert Restore(e.text, e.comments) == e.text;
    }
  }

  lemma UnderscoreNotBit(t: string, k: nat)
    requires k < |t| && t[k] == '_'
    ensures Strip(t) != "0" && Strip(t) != "1"
  {
    StripKeeps(t, k);
  }

  /** A constant-bit target becomes a literal of the port's width. */
  lemma ConstantBitWidened(rs: RuleSet, source: string, v: string, port: Port, ev: Evaluator)
    requires v == "0" || v == "1"
    requires Matches(port.name, source)
    ensures ResolveSignal(AddSignal(rs, source, v, None), port, ev) == WidthLiteral(port.width, v)
  {
    ExtractStarFree(v, 0);
    ConstantTargetBit(port.name, source, v, ev);
    StripUntrimmed(v);
    var rule := AddSignal(rs, source, v, None).signals[|rs.signals|];
    assert SignalApplies(rule, port);
  }

  lemma ConstantTargetBit(name: string, source: string, v: string, ev: Evaluator)
    requires v == "0" || v == "1"
    ensures Apply(name, source, v, ev) == v
  {
    assert !OccursAt(v, 0, "${") && !OccursAt(v, 1, "${");
    ConstantTarget(name, source, v, ev);
  }

  /** A rule restricted to another port type leaves the resolution as it
      was without it. */
  lemma OtherTypeSkipped(rs: RuleSet, source: string, target: string, portType: string, port: Port, ev: Evaluator)
    requires portType != "" && port.direction.Some?
    requires Lower(port.direction.value) != Lower(portType)
    ensures ResolveSignal(AddSignal(rs, source, target, Some(portType)), port, ev) == ResolveSignal(rs, port, ev)
  {
    var r := AddSignal(rs, source, target, Some(portType));
    var n := |rs.signals|;
    LowerIdempotent(portType);
    assert !SignalApplies(r.signals[n], port);
    assert forall i :: 0 <= i < n ==> r.signals[i] == rs.signals[i] by {
      forall i | 0 <= i < n ensures r.signals[i] == rs.signals[i] {
        assert r.signals[..n][i] == r.signals[i];
      }
    }
    var w := LastWhere(rs.signals, (rule: SignalRule) => SignalApplies(rule, port));
    if w.Some? {
      assert ResolveSignal(r, port, ev) == FireSignal(rs.signals[w.value], port, ev);
    }
  }

  /** A symbolic width, blanks around it ignored, replicates a one-bit
      literal that many times; a width holding an operator or a parenthesis
      is parenthesised. */
  lemma SymbolicWidthReplicates(pad: string, t: string, v: string)
    requires IsBlank(pad) && |t| > 0 && !IsSpace(t[0]) && !IsSpace(t[|t| - 1]) && !IsDigits(t)
    ensures WidthLiteral(StrW(pad + t + pad), v) ==
      if HasAnyOf(t, "+-*/()") then "{(" + t + "){1'b" + v + "}}" else "{" + t + "{1'b" + v + "}}"
  {
    StripPadded(pad, t);
  }

  /** The value of a parameter rule added last is the one a matching
      parameter gets. */
  lemma LastParamWins(rs: RuleSet, pattern: string, value: string, name: string)
    requires Matches(name, pattern)
    ensures ResolveParam(AddParam(rs, pattern, value), name) == Some(value)
  {
    var r := AddParam(rs, pattern, value);
    assert Matches(name, r.params[|rs.params|].paramName);
  }

  /** `1` repeated `n` times, read in base 2. */
  function AllOnes(n: nat): nat {
    if n == 0 then 0 else 2 * AllOnes(n - 1) + 1
  }

  lemma {:induction false} RepeatSnoc(s: string, n: nat)
    requires n > 0
    ensures Repeat(s, n) == Repeat(s, n - 1) + s
    decreases n
  {
    if n > 1 {
      RepeatSnoc(s, n - 1);
      assert Repeat(s, n) == s + (Repeat(s, n - 2) + s);
    }
  }

  /** The digits of a widened constant, read in base 2: zero, or every bit
      set. */
  lemma {:induction false} RepeatBitValue(c: char, n: nat)
    requires c == '0' || c == '1'
    ensures InBase(Repeat([c], n), 2)
    ensures BaseValue(Repeat([c], n), 2) == if c == '0' then 0 else AllOnes(n)
    decreases n
  {
    if n > 0 {
      RepeatSnoc([c], n);
      RepeatBitValue(c, n - 1);
      BaseValueAppend(Repeat([c], n - 1), c, 2);
    }
  }

  lemma RepeatBitShape(c: char, n: nat)
    requires (c == '0' || c == '1') && n > 0
    ensures forall i :: 0 <= i < |Repeat([c], n)| ==> Repeat([c], n)[i] == c
  {
    var d := Repeat([c], n);
    if n > 1 {
      RepeatBitShape(c, n - 1);
      assert d == [c] + Repeat([c], n - 1);
    }
  }

  /** A constant widened to a numeric width of `n >= 2` bits is an `n`-bit
      binary literal whose value is zero for `0` and all ones for `1`
      (section 3.5.1 of IEEE 1364-2005). */
  lemma WidenedLiteralValue(n: nat, c: char)
    requires n >= 2 && (c == '0' || c == '1')
    ensures ParseExpression(WidthLiteral(IntW(n), [c])) == Some(if c == '0' then 0 else AllOnes(n))
  {
    WidthLiteralSized(n, [c]);
    RepeatLast(c, n);
    SizedBinaryValue(NatToString(n), Repeat([c], n), c);
    RepeatBitInt(c, n);
  }

  /** Any numeric width of at least two bits, an integer or decimal text
      with blanks around it, widens `0` or `1` to a literal that both the
      header's number parser and its as-written reading take back as all
      zeros or all ones of that width. */
  lemma NumericWidthReadsBack(w: Width, n: int, c: char)
    requires Truthy(w) && NumericWidth(w) == Some(n) && n >= 2 && (c == '0' || c == '1')
    ensures ParseExpression(WidthLiteral(w, [c])) == Some(if c == '0' then 0 else AllOnes(n))
    ensures ParseExpressionAsWritten(WidthLiteral(w, [c])) == Some(if c == '0' then 0 else AllOnes(n))
  {
    var sz, d := NatToString(n), Repeat([c], n);
    var lit := WidthLiteral(w, [c]);
    assert lit == WidthLiteral(IntW(n), [c]) by {
      WidthLiteralNumeric(w, n, [c]);
      WidthLiteralNumeric(IntW(n), n, [c]);
    }
    assert ParseExpression(lit) == Some(if c == '0' then 0 else AllOnes(n)) by {
      WidenedLiteralValue(n, c);
    }
    assert lit == sz + "'" + ['b'] + d by {
      WidthLiteralSized(n, [c]);
    }
    assert ParseExpressionAsWritten(sz + "'" + ['b'] + d) == PyInt(d, 2) by {
      RunAsWritten(n, c);
    }
    RepeatBitInt(c, n);
  }

  /** A sized run of one bit has no base letter among its digits, so the
      as-written reading agrees with the corrected one on it. */
  lemma RunAsWritten(n: nat, c: char)
    requires n >= 2 && (c == '0' || c == '1')
    ensures ParseExpressionAsWritten(NatToString(n) + "'" + ['b'] + Repeat([c], n)) == PyInt(Repeat([c], n), 2)
  {
    RepeatLast(c, n);
    RepeatBitShape(c, n);
    BitRunAsWritten(NatToString(n), Repeat([c], n), c);
  }

  lemma {:induction false} BitRunAsWritten(sz: string, d: string, c: char)
    requires IsDigits(sz) && |d| > 0 && (c == '0' || c == '1')
    requires forall i :: 0 <= i < |d| ==> d[i] == c
    ensures ParseExpressionAsWritten(sz + "'" + ['b'] + d) == PyInt(d, 2)
  {
    assert !IsSpace(d[|d| - 1]) by {
      assert d[|d| - 1] == c;
    }
    assert forall i :: 0 <= i < |d| ==> LetterBase(d[i]) == 0;
    AsWrittenAgrees(sz, 'b', d);
  }

  lemma WidthLiteralSized(n: nat, v: string)
    requires n >= 2
    ensures WidthLiteral(IntW(n), v) == NatToString(n) + "'" + ['b'] + Repeat(v, n)
  {
    WidthLiteralNumeric(IntW(n), n, v);
    var d, r := NatToString(n), Repeat(v, n);
    assert IntToString(n) == d;
    assert d + "'b" + r == d + "'" + ['b'] + r;
  }

  lemma RepeatLast(c: char, n: nat)
    requires n > 0
    ensures |Repeat([c], n)| == n && Repeat([c], n)[n - 1] == c
  {
    RepeatSnoc([c], n);
  }

  lemma {:induction false} SizedBinaryValue(sz: string, d: string, c: char)
    requires IsDigits(sz) && |d| > 0 && d[|d| - 1] == c && (c == '0' || c == '1')
    ensures ParseExpression(sz + "'" + ['b'] + d) == PyInt(d, 2)
  {
    BasedLiteralDispatch(sz, 'b', d);
  }

  /** `int()` in base 2 reads a run of one bit as its value. */
  lemma RepeatBitInt(c: char, n: nat)
    requires n >= 2 && (c == '0' || c == '1')
    ensures PyInt(Repeat([c], n), 2) == Some(if c == '0' then 0 else AllOnes(n))
  {
    var d := Repeat([c], n);
    RepeatBitShape(c, n);
    BitRunDigits(d, c);
    PyIntUnsigned(d, 2);
    RepeatBitValue(c, n);
  }

  /** A run of one bit, at least two long, is plain binary digits. */
  lemma BitRunDigits(d: string, c: char)
    requires |d| >= 2 && (c == '0' || c == '1')
    requires forall i :: 0 <= i < |d| ==> d[i] == c
    ensures InBase(d, 2) && DropBasePrefix(d, 2) == d && IsDigit(d[0]) && IsDigit(d[|d| - 1])
  {
    assert d[1] == c;
  }

  lemma PyIntUnsigned(d: string, base: nat)
    requires |d| > 0 && InBase(d, base) && DropBasePrefix(d, base) == d && base <= 36
    requires IsDigit(d[0]) && IsDigit(d[|d| - 1])
    ensures PyInt(d, base) == Some(BaseValue(d, base))
  {
    StripUntrimmed(d);
    PlainDigitsSeparated(d, base);
  }

  /** A width given as a number or as the same number in decimal text, with
      any surrounding blanks, widens a constant alike. */
  lemma IntAndTextLiteralAgree(n: nat, pad: string, v: string)
    requires IsBlank(pad)
    ensures WidthLiteral(IntW(n), v) == WidthLiteral(StrW(pad + NatToString(n) + pad), v)
  {
    var t := pad + NatToString(n) + pad;
    PaddedWidth(n, pad);
    WidthLiteralNumeric(StrW(t), n, v);
    if n > 0 {
      WidthLiteralNumeric(IntW(n), n, v);
    }
  }

  /** Decimal text with blanks around it is a numeric width. */
  lemma PaddedWidth(n: nat, pad: string)
    requires IsBlank(pad)
    ensures Truthy(StrW(pad + NatToString(n) + pad)) && NumericWidth(StrW(pad + NatToString(n) + pad)) == Some(n)
  {
    var d := NatToString(n);
    StripPadded(pad, d);
    assert |pad + d + pad| > 0;
  }

  lemma WidthLiteralNumeric(w: Width, n: int, v: string)
    requires Truthy(w) && NumericWidth(w) == Some(n)
    ensures WidthLiteral(w, v) == Replicate(n, v)
  {
  }
}
