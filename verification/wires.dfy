/** The wire generator (`WiresManager`): one `wire` declaration per selected
    port of the parsed module, named and sized by the wire rules. */
module Wires {
  import opened Wrappers
  import opened Strings
  import opened WidthFormat
  import opened Signature
  import opened Wildcard
  import opened Substitution
  import opened Rules

  /** `_BASE_SPACING` as constructed; `set_base_spacing` replaces it, so the
      operations below take the spacing `base` as a parameter. */
  const DefaultBaseSpacing: nat := 15

  /** Why `generate_wires_def` gives up. */
  datatype WireError = InvalidPattern(pattern: string) | UnsupportedPortType(portType: string)

  predicate ValidMode(pattern: string) {
    pattern == "lazy" || pattern == "greedy"
  }

  // ---------------------------------------------------------------------------
  // Port selection
  // ---------------------------------------------------------------------------

  /** `_get_ports_by_type`: all ports, or those of one direction named in any
      letter case; any other direction name is an error. */
  function PortsByType(ports: seq<PortInfo>, portType: Option<string>): (r: Result<seq<PortInfo>, WireError>)
    ensures r.Failure? <==>
      portType.Some? && Lower(portType.value) != "input" && Lower(portType.value) != "output" &&
      Lower(portType.value) != "inout"
    ensures r.Failure? ==> r.error == UnsupportedPortType(portType.value)
    ensures portType.None? ==> r == Success(ports)
    ensures r.Success? && portType.Some? ==>
      IsSubsequence(r.value, ports) &&
      (forall i :: 0 <= i < |r.value| ==> r.value[i].direction == Lower(portType.value)) &&
      (forall i :: 0 <= i < |ports| && ports[i].direction == Lower(portType.value) ==> ports[i] in r.value) &&
      (forall p :: multiset(r.value)[p] == (if p.direction == Lower(portType.value) then multiset(ports)[p] else 0))
  {
    match portType
    case None => Success(ports)
    case Some(t) =>
      var d := Lower(t);
      PortsWithDirectionCount(ports, d);
      if d == "input" then Success(PortsWithDirection(ports, "input"))
      else if d == "output" then Success(PortsWithDirection(ports, "output"))
      else if d == "inout" then Success(PortsWithDirection(ports, "inout"))
      else Failure(UnsupportedPortType(t))
  }

  /** The direction name is read without regard to letter case. */
  lemma PortTypeCaseInsensitive(ports: seq<PortInfo>, t: string)
    ensures PortsByType(ports, Some(t)).Success? == PortsByType(ports, Some(Lower(t))).Success?
    ensures PortsByType(ports, Some(t)).Success? ==>
      PortsByType(ports, Some(t)) == PortsByType(ports, Some(Lower(t)))
  {
    LowerIdempotent(t);
  }

  // ---------------------------------------------------------------------------
  // Formatting one declaration
  // ---------------------------------------------------------------------------

  /** The range text of a declaration: the rule's width when it is set,
      otherwise the port's own width unless that is the text `1`. */
  function WireWidthText(ruleWidth: Width, portWidth: Width): (r: string)
    ensures Truthy(ruleWidth) ==> r == FormatWidth(ruleWidth)
    ensures !Truthy(ruleWidth) && !Truthy(portWidth) ==> r == ""
    ensures r == "" || (StartsWith(r, "[") && EndsWith(r, ":0]"))
  {
    if Truthy(ruleWidth) then FormatWidth(ruleWidth)
    else if Truthy(portWidth) && portWidth != StrW("1") then FormatWidth(portWidth)
    else ""
  }

  /** The guard against a port width of `1` changes nothing: such a width has
      no range anyway, so the range is that of the first width that is set. */
  lemma WidthPrecedence(ruleWidth: Width, portWidth: Width)
    ensures WireWidthText(ruleWidth, portWidth) == FormatWidth(if Truthy(ruleWidth) then ruleWidth else portWidth)
  {
    if !Truthy(ruleWidth) && portWidth == StrW("1") {
      assert IsDigits("1") && DecimalValue("1") == 1;
      StripUntrimmed("1");
    }
  }

  /** The keyword and range before the name. */
  function DeclPrefix(widthText: string): (r: string)
    ensures StartsWith(r, "wire")
  {
    if widthText != "" then "wire " + widthText else "wire"
  }

  /** The spaces between the prefix and the name, as written: one space after
      a prefix with a range that reaches `base`, else up to `base`; after a
      bare `wire`, `base - 4` spaces, none at all when `base` is 4 or less. */
  function DeclSpacingAsWritten(widthText: string, base: nat): (r: string)
    ensures IsBlank(r)
    ensures widthText != "" ==> |r| >= 1
  {
    var prefix := DeclPrefix(widthText);
    if widthText != "" then
      if |prefix| >= base then " " else Spaces(base - |prefix|)
    else Spaces(if base >= 4 then base - 4 else 0)
  }

  /** The spacing with the bare `wire` treated like a prefix with a range: at
      least one space, and up to `base` when the prefix is shorter. */
  function DeclSpacing(widthText: string, base: nat): (r: string)
    ensures |r| >= 1 && IsBlank(r)
    ensures |DeclPrefix(widthText)| + |r| ==
      if |DeclPrefix(widthText)| >= base then |DeclPrefix(widthText)| + 1 else base
  {
    var prefix := DeclPrefix(widthText);
    if |prefix| >= base then " " else Spaces(base - |prefix|)
  }

  /** The ` = expression` part, present when the expression is not empty. */
  function Initializer(expression: Option<string>): string {
    if expression.Some? && expression.value != "" then " = " + expression.value else ""
  }

  /** `_format_wire_declaration` as written: with a range, or with `base`
      above 4, it is the aligned declaration; a bare `wire` is followed by
      `base - 4` spaces, none when `base` is 4 or less. */
  function DeclarationAsWritten(name: string, widthText: string, expression: Option<string>, base: nat): (r: string)
    ensures StartsWith(r, "wire") && EndsWith(r, ";")
    ensures widthText != "" || base > 4 ==> r == Declaration(name, widthText, expression, base)
    ensures widthText == "" ==> r == "wire" + Spaces(if base >= 4 then base - 4 else 0) + name + Initializer(expression) + ";"
  {
    var prefix := DeclPrefix(widthText);
    var r := prefix + DeclSpacingAsWritten(widthText, base) + name + Initializer(expression) + ";";
    assert r[..4] == prefix[..4];
    r
  }

  /** `_format_wire_declaration`: `wire [range] name;` or
      `wire [range] name = expression;`, the name aligned at column `base`,
      with the corrected spacing after a bare `wire`. */
  function Declaration(name: string, widthText: string, expression: Option<string>, base: nat): (r: string)
    ensures StartsWith(r, "wire") && EndsWith(r, ";")
    ensures |r| >= base + |name| + 1
  {
    var prefix := DeclPrefix(widthText);
    var r := prefix + DeclSpacing(widthText, base) + name + Initializer(expression) + ";";
    assert r[..4] == prefix[..4];
    r
  }

  /** The name starts where the prefix and a space, left-justified to
      `base`, end: at column `base`, or one space after a longer prefix; the
      initializer follows. */
  lemma DeclarationLayout(name: string, widthText: string, expression: Option<string>, base: nat)
    ensures Declaration(name, widthText, expression, base) ==
      LJust(DeclPrefix(widthText) + " ", base) + name + Initializer(expression) + ";"
  {
    var prefix := DeclPrefix(widthText);
    var sp := DeclSpacing(widthText, base);
    var lead := LJust(prefix + " ", base);
    assert |lead| == |prefix| + |sp|;
    forall i | 0 <= i < |lead| ensures lead[i] == (prefix + sp)[i] {
      if i < |prefix| {
        assert lead[..|prefix + " "|][i] == (prefix + " ")[i];
      } else if i == |prefix| {
        assert lead[..|prefix + " "|][i] == ' ';
      }
    }
    assert lead == prefix + sp;
  }

  /** The two agree whenever there is a range or `base` exceeds 4, and so for
      the default spacing. */
  lemma SpacingAgrees(name: string, widthText: string, expression: Option<string>, base: nat)
    requires widthText != "" || base > 4
    ensures DeclarationAsWritten(name, widthText, expression, base) == Declaration(name, widthText, expression, base)
  {
  }

  /** As written, a spacing of 4 or less runs a bare `wire` into the name. */
  lemma NarrowSpacingJoinsName()
    ensures DeclarationAsWritten("clk", "", None, 4) == "wireclk;"
    ensures Declaration("clk", "", None, 4) == "wire clk;"
  {
    assert Spaces(0) == "";
    assert Spaces(1) == " ";
  }

  // ---------------------------------------------------------------------------
  // One port
  // ---------------------------------------------------------------------------

  /** `_generate_single_wire`: nothing in `lazy` mode when no rule matches and
      nothing when a matching rule yields a blank name; a blank name from no
      rule falls back to the port's name in `greedy` mode. */
  function SingleWire(rs: RuleSet, port: PortInfo, mode: string, ev: Evaluator, base: nat): (r: string)
    ensures mode == "lazy" && (forall i :: 0 <= i < |rs.wires| ==> !Matches(port.name, rs.wires[i].portPattern)) ==>
      r == ""
    ensures r == "" || (StartsWith(r, "wire") && EndsWith(r, ";"))
  {
    var res := ResolveWire(rs, FromInfo(port), mode, ev);
    if mode == "lazy" && !res.matched then ""
    else
      var name :=
        if Strip(res.name) != "" then Some(res.name)
        else if res.matched then None
        else if mode == "greedy" then Some(port.name)
        else None;
      match name
      case None => ""
      case Some(n) => Declaration(n, WireWidthText(res.width, port.Width()), res.expression, base)
  }

  /** The wire of a port no rule names in `greedy` mode: the port's own name
      and width, with no expression. */
  function DefaultWire(port: PortInfo, base: nat): string {
    Declaration(port.name, FormatWidth(port.Width()), None, base)
  }

  lemma GreedyFallback(rs: RuleSet, port: PortInfo, ev: Evaluator, base: nat)
    requires forall i :: 0 <= i < |rs.wires| ==> !Matches(port.name, rs.wires[i].portPattern)
    ensures SingleWire(rs, port, "greedy", ev, base) == DefaultWire(port, base)
  {
    WidthPrecedence(NoWidth, port.Width());
  }

  /** The last matching rule decides: a blank name from it suppresses the
      wire, otherwise the wire carries the rule's name, range and expression. */
  lemma RuleDecides(rs: RuleSet, port: PortInfo, mode: string, ev: Evaluator, base: nat, i: nat)
    requires ValidMode(mode)
    requires i < |rs.wires| && Matches(port.name, rs.wires[i].portPattern)
    requires forall j :: i < j < |rs.wires| ==> !Matches(port.name, rs.wires[j].portPattern)
    ensures var f := FireWire(rs.wires[i], FromInfo(port), ev);
      SingleWire(rs, port, mode, ev, base) ==
        if Strip(f.name) == "" then ""
        else Declaration(f.name, WireWidthText(rs.wires[i].width, port.Width()), f.expression, base)
  {
    var res := ResolveWire(rs, FromInfo(port), mode, ev);
    assert res == FireWire(rs.wires[i], FromInfo(port), ev);
  }

  // ---------------------------------------------------------------------------
  // The whole module
  // ---------------------------------------------------------------------------

  /** The texts that are neither empty nor blank, in order. */
  function KeepNonBlank(ws: seq<string>): (r: seq<string>)
    ensures |r| <= |ws|
    ensures forall k :: 0 <= k < |r| ==> r[k] in ws && !IsBlank(r[k])
    ensures forall k :: 0 <= k < |ws| && !IsBlank(ws[k]) ==> ws[k] in r
    ensures (forall k :: 0 <= k < |ws| ==> IsBlank(ws[k])) ==> r == []
  {
    if |ws| == 0 then []
    else
      var rest := KeepNonBlank(ws[1..]);
      assert forall k :: 1 <= k < |ws| ==> ws[k] == ws[1..][k - 1];
      if ws[0] != "" && !IsBlank(ws[0]) then [ws[0]] + rest else rest
  }

  /** Every non-blank text is kept as many times as it occurs, and no blank
      one is kept. */
  lemma {:induction false} KeepNonBlankCount(ws: seq<string>)
    ensures forall w :: multiset(KeepNonBlank(ws))[w] == (if IsBlank(w) then 0 else multiset(ws)[w])
  {
    if |ws| > 0 {
      KeepNonBlankCount(ws[1..]);
      assert ws == [ws[0]] + ws[1..];
    }
  }

  /** Texts that are all non-blank are all kept. */
  lemma {:induction false} KeepAllNonBlank(ws: seq<string>)
    requires forall k :: 0 <= k < |ws| ==> !IsBlank(ws[k])
    ensures KeepNonBlank(ws) == ws
  {
    if |ws| > 0 {
      assert !IsBlank(ws[0]);
      assert forall k :: 0 <= k < |ws[1..]| ==> ws[1..][k] == ws[k + 1];
      KeepAllNonBlank(ws[1..]);
      assert [ws[0]] + ws[1..] == ws;
    }
  }

  /** The kept texts keep the order of the list they come from. */
  lemma {:induction false} KeepNonBlankInOrder(ws: seq<string>)
    ensures IsSubsequence(KeepNonBlank(ws), ws)
    decreases |ws|
  {
    if |ws| > 0 {
      KeepNonBlankInOrder(ws[1..]);
      var rest := KeepNonBlank(ws[1..]);
      if ws[0] != "" && !IsBlank(ws[0]) {
        assert ([ws[0]] + rest)[1..] == rest;
      } else if |rest| > 0 {
        assert IsBlank(ws[0]) && !IsBlank(rest[0]);
      }
    }
  }

  /** The wire of each port, empty where none is generated. */
  function PortWires(rs: RuleSet, ports: seq<PortInfo>, mode: string, ev: Evaluator, base: nat): (r: seq<string>)
    ensures |r| == |ports|
    ensures forall k :: 0 <= k < |r| ==> r[k] == "" || (StartsWith(r[k], "wire") && EndsWith(r[k], ";"))
  {
    seq(|ports|, k requires 0 <= k < |ports| => SingleWire(rs, ports[k], mode, ev, base))
  }

  /** Among declarations and empty texts, the only blank entry is the empty
      text, so keeping the non-blank entries drops exactly the empty ones. */
  lemma KeptWiresCount(ws: seq<string>)
    requires forall k :: 0 <= k < |ws| ==> ws[k] == "" || (StartsWith(ws[k], "wire") && EndsWith(ws[k], ";"))
    ensures forall w :: multiset(KeepNonBlank(ws))[w] == (if w == "" then 0 else multiset(ws)[w])
  {
    KeepNonBlankCount(ws);
    forall w ensures multiset(KeepNonBlank(ws))[w] == (if w == "" then 0 else multiset(ws)[w]) {
      if IsBlank(w) && w != "" {
        NoBlankWire(ws, w);
      }
    }
  }

  /** A non-empty blank text is neither a declaration nor empty. */
  lemma NoBlankWire(ws: seq<string>, w: string)
    requires forall k :: 0 <= k < |ws| ==> ws[k] == "" || (StartsWith(ws[k], "wire") && EndsWith(ws[k], ";"))
    requires IsBlank(w) && w != ""
    ensures multiset(ws)[w] == 0
  {
    forall k | 0 <= k < |ws|
      ensures ws[k] != w
    {
      if ws[k] != "" {
        assert ws[k][0] == 'w';
      }
    }
  }

  /** Keeping the non-blank entries of a list of declarations and empty
      texts keeps exactly the declarations. */
  lemma KeptWires(ws: seq<string>)
    requires forall k :: 0 <= k < |ws| ==> ws[k] == "" || (StartsWith(ws[k], "wire") && EndsWith(ws[k], ";"))
    ensures forall k :: 0 <= k < |KeepNonBlank(ws)| ==>
      StartsWith(KeepNonBlank(ws)[k], "wire") && EndsWith(KeepNonBlank(ws)[k], ";")
    ensures forall k :: 0 <= k < |ws| && ws[k] != "" ==> ws[k] in KeepNonBlank(ws)
  {
    var r := KeepNonBlank(ws);
    forall k | 0 <= k < |r| ensures StartsWith(r[k], "wire") && EndsWith(r[k], ";") {
      var j :| 0 <= j < |ws| && ws[j] == r[k];
      assert ws[j] != "";
    }
    forall k | 0 <= k < |ws| && ws[k] != "" ensures ws[k] in r {
      assert ws[k][0] == 'w';
    }
  }

  /** The generated declarations, in port order. */
  function Declarations(rs: RuleSet, ports: seq<PortInfo>, mode: string, ev: Evaluator, base: nat): (r: seq<string>)
    ensures |r| <= |ports|
    ensures forall k :: 0 <= k < |r| ==> StartsWith(r[k], "wire") && EndsWith(r[k], ";")
    ensures forall k :: 0 <= k < |ports| && PortWires(rs, ports, mode, ev, base)[k] != "" ==>
      PortWires(rs, ports, mode, ev, base)[k] in r
    ensures forall w :: multiset(r)[w] == (if w == "" then 0 else multiset(PortWires(rs, ports, mode, ev, base))[w])
  {
    var ws := PortWires(rs, ports, mode, ev, base);
    KeptWires(ws);
    KeptWiresCount(ws);
    KeepNonBlank(ws)
  }

  /** The declarations come out in the order of their ports. */
  lemma DeclarationsInPortOrder(rs: RuleSet, ports: seq<PortInfo>, mode: string, ev: Evaluator, base: nat)
    ensures IsSubsequence(Declarations(rs, ports, mode, ev, base), PortWires(rs, ports, mode, ev, base))
  {
    KeepNonBlankInOrder(PortWires(rs, ports, mode, ev, base));
  }

  /** `generate_wires_def`: the pattern is checked first, then the port type;
      the kept declarations are joined one per line. */
  function GenerateWires(rs: RuleSet, ports: seq<PortInfo>, portType: Option<string>,
                         pattern: string, ev: Evaluator, base: nat): (r: Result<string, WireError>)
    ensures !ValidMode(pattern) ==> r == Failure(InvalidPattern(pattern))
    ensures ValidMode(pattern) ==> (r.Failure? <==> PortsByType(ports, portType).Failure?)
    ensures r.Success? ==>
      r.value == Join(Declarations(rs, PortsByType(ports, portType).value, pattern, ev, base), "\n")
  {
    if !ValidMode(pattern) then Failure(InvalidPattern(pattern))
    else
      match PortsByType(ports, portType)
      case Failure(e) => Failure(e)
      case Success(selected) => Success(Join(Declarations(rs, selected, pattern, ev, base), "\n"))
  }

  /** Without wire rules, `lazy` mode declares nothing. */
  lemma LazyWithoutRules(rs: RuleSet, ports: seq<PortInfo>, ev: Evaluator, base: nat)
    requires |rs.wires| == 0
    ensures Declarations(rs, ports, "lazy", ev, base) == []
  {
    var ws := PortWires(rs, ports, "lazy", ev, base);
    assert forall k :: 0 <= k < |ws| ==> ws[k] == "";
    assert forall k :: 0 <= k < |ws| ==> IsBlank(ws[k]);
  }

  /** Without wire rules, `greedy` mode declares every port under its own
      name and width, in port order. */
  lemma GreedyWithoutRules(rs: RuleSet, ports: seq<PortInfo>, ev: Evaluator, base: nat)
    requires |rs.wires| == 0
    ensures Declarations(rs, ports, "greedy", ev, base) == seq(|ports|, k requires 0 <= k < |ports| => DefaultWire(ports[k], base))
  {
    var ws := PortWires(rs, ports, "greedy", ev, base);
    forall k | 0 <= k < |ws| ensures ws[k] == DefaultWire(ports[k], base) && !IsBlank(ws[k]) {
      GreedyFallback(rs, ports[k], ev, base);
      assert ws[k][0] == 'w';
    }
    KeepAllNonBlank(ws);
  }
}
