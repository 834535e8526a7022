/** The instantiation renderer (`vcg_instance_manager.py`): every port of the
    module is connected to the signal its rules resolve, every parameter a
    rule names is overridden, and the block is laid out with names padded to
    an alignment column and each port annotated with its direction and
    range. */
module Instance {
  import opened Wrappers
  import opened Strings
  import opened WidthFormat
  import opened Signature
  import opened Substitution
  import opened Rules
  import opened OrderedDict

  /** The default alignment column (`_ALIGN`). */
  const DefaultAlign: nat := 18

  /** What a port connection carries: the resolved signal and the port. */
  datatype Connection = Connection(signal: string, port: Port)

  // ---------------------------------------------------------------------------
  // Connections
  // ---------------------------------------------------------------------------

  function PortEntries(rs: RuleSet, ports: seq<Port>, ev: Evaluator): (r: seq<Entry<Connection>>)
    ensures |r| == |ports|
    ensures forall i :: 0 <= i < |ports| ==>
      r[i] == Entry(ports[i].name, Connection(ResolveSignal(rs, ports[i], ev), ports[i]))
  {
    if |ports| == 0 then []
    else
      [Entry(ports[0].name, Connection(ResolveSignal(rs, ports[0], ev), ports[0]))] +
      PortEntries(rs, ports[1..], ev)
  }

  /** `_generate_port_connections`: a dict from port name to connection, one
      entry per distinct name, a repeated name keeping its first position and
      its last port. */
  function PortConnections(rs: RuleSet, ports: seq<Port>, ev: Evaluator): seq<Entry<Connection>> {
    FromEntries(PortEntries(rs, ports, ev))
  }

  /** The parameters whose resolution is not `None`, with their values. */
  function ParamEntries(rs: RuleSet, params: seq<ParameterInfo>): (r: seq<Entry<string>>)
    ensures forall j :: 0 <= j < |r| ==> ResolveParam(rs, r[j].key) == Some(r[j].value)
    ensures NamedIn(r, params)
  {
    if |params| == 0 then []
    else
      var rest := ParamEntries(rs, params[1..]);
      var v := ResolveParam(rs, params[0].name);
      var head := if v.Some? then [Entry(params[0].name, v.value)] else [];
      ResolvedEntriesJoin(rs, head, rest);
      NamedInCons(head, rest, params);
      head + rest
  }

  /** Every entry's key names one of the parameters. */
  predicate NamedIn(r: seq<Entry<string>>, params: seq<ParameterInfo>) {
    forall j :: 0 <= j < |r| ==> IsParameterName(params, r[j].key)
  }

  predicate IsParameterName(params: seq<ParameterInfo>, k: string) {
    exists i :: 0 <= i < |params| && params[i].name == k
  }

  lemma NamedInCons(head: seq<Entry<string>>, rest: seq<Entry<string>>, params: seq<ParameterInfo>)
    requires |params| > 0 && NamedIn(rest, params[1..])
    requires forall j :: 0 <= j < |head| ==> head[j].key == params[0].name
    ensures NamedIn(head + rest, params)
  {
    var r := head + rest;
    forall j | 0 <= j < |r| ensures IsParameterName(params, r[j].key) {
      if j < |head| {
        assert params[0].name == r[j].key;
      } else {
        assert r[j] == rest[j - |head|];
        var i :| 0 <= i < |params[1..]| && params[1..][i].name == rest[j - |head|].key;
        assert params[i + 1].name == r[j].key;
      }
    }
  }

  lemma ResolvedEntriesJoin(rs: RuleSet, head: seq<Entry<string>>, rest: seq<Entry<string>>)
    requires forall j :: 0 <= j < |head| ==> ResolveParam(rs, head[j].key) == Some(head[j].value)
    requires forall j :: 0 <= j < |rest| ==> ResolveParam(rs, rest[j].key) == Some(rest[j].value)
    ensures forall j :: 0 <= j < |head + rest| ==>
      ResolveParam(rs, (head + rest)[j].key) == Some((head + rest)[j].value)
  {
    forall j | 0 <= j < |head + rest|
      ensures ResolveParam(rs, (head + rest)[j].key) == Some((head + rest)[j].value)
    {
      if j >= |head| {
        assert (head + rest)[j] == rest[j - |head|];
      }
    }
  }

  /** Every parameter a rule resolves has an entry. */
  lemma {:induction false} ResolvedParamsKept(rs: RuleSet, params: seq<ParameterInfo>)
    ensures forall i :: 0 <= i < |params| && ResolveParam(rs, params[i].name).Some? ==>
      HasKey(ParamEntries(rs, params), params[i].name)
    decreases |params|
  {
    if |params| > 0 {
      ResolvedParamsKept(rs, params[1..]);
      var rest := ParamEntries(rs, params[1..]);
      var v := ResolveParam(rs, params[0].name);
      var head := if v.Some? then [Entry(params[0].name, v.value)] else [];
      var r := ParamEntries(rs, params);
      assert r == head + rest;
      forall i | 0 <= i < |params| && ResolveParam(rs, params[i].name).Some?
        ensures HasKey(r, params[i].name)
      {
        if i > 0 {
          assert params[1..][i - 1] == params[i];
          KeyInSuffix(head, rest, params[i].name);
        } else {
          assert r[0].key == params[0].name;
        }
      }
    }
  }

  lemma KeyInSuffix<V>(head: seq<Entry<V>>, rest: seq<Entry<V>>, k: string)
    requires HasKey(rest, k)
    ensures HasKey(head + rest, k)
  {
    var j :| 0 <= j < |rest| && rest[j].key == k;
    assert (head + rest)[|head| + j] == rest[j];
  }

  /** `_generate_param_connections`: the parameters a rule resolves, in
      declaration order, each with the resolved value. */
  function ParamConnections(rs: RuleSet, params: seq<ParameterInfo>): (r: seq<Entry<string>>)
    ensures DistinctKeys(r)
    ensures forall j :: 0 <= j < |r| ==> ResolveParam(rs, r[j].key) == Some(r[j].value)
    ensures forall i :: 0 <= i < |params| ==>
      (HasKey(r, params[i].name) <==> ResolveParam(rs, params[i].name).Some?)
  {
    var es := ParamEntries(rs, params);
    var r := FromEntries(es);
    ResolvedParamsKept(rs, params);
    forall j | 0 <= j < |r| ensures ResolveParam(rs, r[j].key) == Some(r[j].value) {
      var i :| 0 <= i < |es| && es[i].key == r[j].key;
      var last := LastWith(es, r[j].key, i);
      LastEntryWins(es, last, j);
    }
    forall i | 0 <= i < |params| && HasKey(r, params[i].name)
      ensures ResolveParam(rs, params[i].name).Some?
    {
      var j :| 0 <= j < |r| && r[j].key == params[i].name;
      var m :| 0 <= m < |es| && es[m].key == r[j].key;
    }
    r
  }

  /** The position of the last entry with key `k`, at or after `i`. */
  function LastWith<V>(es: seq<Entry<V>>, k: string, i: nat): (m: nat)
    requires i < |es| && es[i].key == k
    ensures i <= m < |es| && es[m].key == k
    ensures forall n :: m < n < |es| ==> es[n].key != k
    decreases |es| - i
  {
    if exists n :: i < n < |es| && es[n].key == k then
      var n :| i < n < |es| && es[n].key == k;
      LastWith(es, k, n)
    else i
  }

  // ---------------------------------------------------------------------------
  // Layout
  // ---------------------------------------------------------------------------

  function Comma(last: bool): string {
    if last then "" else ","
  }

  /** One parameter override line. */
  function ParamLine(e: Entry<string>, last: bool, align: nat): string {
    "    ." + LJust(e.key, align) + "(" + e.value + ")" + Comma(last)
  }

  /** `_render_parameter_section`. */
  function ParamLines(es: seq<Entry<string>>, align: nat): (r: seq<string>)
    ensures |r| == |es|
    ensures forall i :: 0 <= i < |es| ==> r[i] == ParamLine(es[i], i == |es| - 1, align)
  {
    if |es| == 0 then []
    else
      var rest := ParamLines(es[1..], align);
      [ParamLine(es[0], |es| == 1, align)] + rest
  }

  /** `_generate_port_comment`: the lower-cased direction, then the range when
      the width gives one; nothing for an object without a direction. */
  function PortComment(p: Port): (r: string)
    ensures p.direction.None? <==> r == ""
    ensures p.direction.Some? ==> StartsWith(r, "// " + Lower(p.direction.value))
  {
    match p.direction
    case None => ""
    case Some(d) =>
      var head := "// " + Lower(d);
      var range := FormatWidth(p.width);
      var r := if Truthy(p.width) && range != "" then head + " " + range else head;
      assert r[..|head|] == head;
      r
  }

  /** `.name(signal)` padded, with the separating comma. */
  function ConnectionPart(name: string, signal: string, last: bool, align: nat): string {
    "." + LJust(name, align) + "(" + signal + ")" + Comma(last)
  }

  /** One port line: with a comment, the connection is padded to twice the
      alignment and the comment follows. */
  function PortLine(e: Entry<Connection>, last: bool, align: nat): string {
    var part := ConnectionPart(e.key, e.value.signal, last, align);
    var comment := PortComment(e.value.port);
    if comment != "" then "    " + LJust(part, 2 * align) + comment else "    " + part
  }

  /** `_render_port_section`. */
  function PortLines(es: seq<Entry<Connection>>, align: nat): (r: seq<string>)
    ensures |r| == |es|
    ensures forall i :: 0 <= i < |es| ==> r[i] == PortLine(es[i], i == |es| - 1, align)
  {
    if |es| == 0 then []
    else [PortLine(es[0], |es| == 1, align)] + PortLines(es[1..], align)
  }

  /** The opening lines: the module name, the parameter overrides when there
      are any, and the instance name. */
  function HeaderLines(moduleName: string, inst: string, params: seq<Entry<string>>, align: nat): (r: seq<string>)
    ensures |r| == HeaderLength(params)
    ensures |params| == 0 ==> r[0] == moduleName + " " + inst + " ("
    ensures |params| > 0 ==> r[0] == moduleName + " #(" && r[|params| + 1] == ") " + inst + " ("
    ensures forall j :: 0 <= j < |params| ==> r[1 + j] == ParamLine(params[j], j == |params| - 1, align)
  {
    if |params| > 0 then
      var pl := ParamLines(params, align);
      MiddleIndex([moduleName + " #("], pl, [") " + inst + " ("]);
      [moduleName + " #("] + pl + [") " + inst + " ("]
    else [moduleName + " " + inst + " ("]
  }

  /** The number of lines before the first port line. */
  function HeaderLength(params: seq<Entry<string>>): nat {
    if |params| > 0 then |params| + 2 else 1
  }

  /** The lines of `_render_instance_code`: the header, one line per
      parameter override, one line per port connection, and the closing line. */
  function InstanceLines(moduleName: string, inst: string, params: seq<Entry<string>>,
                         ports: seq<Entry<Connection>>, align: nat): (r: seq<string>)
    ensures |r| == HeaderLength(params) + |ports| + 1
    ensures r[|r| - 1] == ");"
    ensures r[..HeaderLength(params)] == HeaderLines(moduleName, inst, params, align)
    ensures forall k :: 0 <= k < |ports| ==>
      r[HeaderLength(params) + k] == PortLine(ports[k], k == |ports| - 1, align)
  {
    var header := HeaderLines(moduleName, inst, params, align);
    var body := PortLines(ports, align);
    MiddleIndex(header, body, [");"]);
    assert (header + body + [");"])[..|header|] == header;
    header + body + [");"]
  }

  lemma MiddleIndex<T>(a: seq<T>, b: seq<T>, c: seq<T>)
    ensures forall k :: 0 <= k < |b| ==> (a + b + c)[|a| + k] == b[k]
  {
  }

  /** No line holds a line break. */
  predicate SingleLines(lines: seq<string>) {
    forall i :: 0 <= i < |lines| ==> '\n' !in lines[i]
  }

  /** `_render_instance_code`: the lines joined by line breaks. When no name,
      value or comment holds a line break, splitting the text at line breaks
      gives the lines back. */
  function RenderInstance(moduleName: string, inst: string, params: seq<Entry<string>>,
                          ports: seq<Entry<Connection>>, align: nat): (r: string)
    ensures SingleLines(InstanceLines(moduleName, inst, params, ports, align)) ==>
      Split(r, '\n') == InstanceLines(moduleName, inst, params, ports, align)
  {
    var lines := InstanceLines(moduleName, inst, params, ports, align);
    JoinedLinesSplit(lines);
    Join(lines, "\n")
  }

  lemma JoinedLinesSplit(lines: seq<string>)
    requires |lines| >= 1
    ensures SingleLines(lines) ==> Split(Join(lines, "\n"), '\n') == lines
  {
    if SingleLines(lines) {
      SplitJoin(lines, '\n');
    }
  }

  /** No two ports share a name. */
  predicate DistinctNames(ports: seq<Port>) {
    forall i, j :: 0 <= i < j < |ports| ==> ports[i].name != ports[j].name
  }

  /** After `h` header lines, line `h + k` connects the k-th port to the
      signal its rules resolve, and one closing line follows the last port. */
  predicate ConnectsInOrder(lines: seq<string>, h: nat, rs: RuleSet, ports: seq<Port>, ev: Evaluator, align: nat) {
    |lines| == h + |ports| + 1 &&
    forall k :: 0 <= k < |ports| ==>
      lines[h + k] == PortLine(Entry(ports[k].name, Connection(ResolveSignal(rs, ports[k], ev), ports[k])), k == |ports| - 1, align)
  }

  /** `generate_instance` once the module's ports and parameters are known.
      With distinct port names and no line breaks inside a line, the lines
      read back from the text connect every port, in declaration order, to the
      signal its rules resolve, after the header and the parameter overrides. */
  function GenerateInstance(rs: RuleSet, ev: Evaluator, moduleName: string, inst: string,
                            ports: seq<Port>, params: seq<ParameterInfo>, align: nat): (r: string)
    ensures (DistinctNames(ports) &&
             SingleLines(InstanceLines(moduleName, inst, ParamConnections(rs, params), PortConnections(rs, ports, ev), align))) ==>
      ConnectsInOrder(Split(r, '\n'), HeaderLength(ParamConnections(rs, params)), rs, ports, ev, align)
  {
    ConnectedLines(rs, ev, moduleName, inst, ports, ParamConnections(rs, params), align);
    RenderInstance(moduleName, inst, ParamConnections(rs, params), PortConnections(rs, ports, ev), align)
  }

  lemma ConnectedLines(rs: RuleSet, ev: Evaluator, moduleName: string, inst: string,
                       ports: seq<Port>, pc: seq<Entry<string>>, align: nat)
    ensures DistinctNames(ports) && SingleLines(InstanceLines(moduleName, inst, pc, PortConnections(rs, ports, ev), align)) ==>
      ConnectsInOrder(Split(RenderInstance(moduleName, inst, pc, PortConnections(rs, ports, ev), align), '\n'),
                      HeaderLength(pc), rs, ports, ev, align)
  {
    var cs := PortConnections(rs, ports, ev);
    var lines := InstanceLines(moduleName, inst, pc, cs, align);
    if DistinctNames(ports) && SingleLines(lines) {
      var back := Split(RenderInstance(moduleName, inst, pc, cs, align), '\n');
      assert back == lines;
      PortsConnectedInOrder(rs, ports, ev);
      assert cs == PortEntries(rs, ports, ev);
      forall k | 0 <= k < |ports|
        ensures back[HeaderLength(pc) + k] ==
          PortLine(Entry(ports[k].name, Connection(ResolveSignal(rs, ports[k], ev), ports[k])), k == |ports| - 1, align)
      {
        assert back[HeaderLength(pc) + k] == PortLine(cs[k], k == |cs| - 1, align);
      }
    }
  }

  // ---------------------------------------------------------------------------
  // Properties
  // ---------------------------------------------------------------------------

  /** With distinct port names every port is connected, in declaration order,
      to the signal its rules resolve. */
  lemma PortsConnectedInOrder(rs: RuleSet, ports: seq<Port>, ev: Evaluator)
    requires DistinctNames(ports)
    ensures PortConnections(rs, ports, ev) == PortEntries(rs, ports, ev)
  {
    var es := PortEntries(rs, ports, ev);
    assert DistinctKeys(es) by {
      forall i, j | 0 <= i < j < |es| ensures es[i].key != es[j].key {
        assert es[i].key == ports[i].name && es[j].key == ports[j].name;
      }
    }
    DistinctEntriesKept(es);
  }

  /** A repeated port name is connected once, to the signal resolved for its
      last port. */
  lemma RepeatedPortLastWins(rs: RuleSet, ports: seq<Port>, ev: Evaluator, i: nat, j: nat)
    requires i < |ports| && forall m :: i < m < |ports| ==> ports[m].name != ports[i].name
    requires j < |PortConnections(rs, ports, ev)| && PortConnections(rs, ports, ev)[j].key == ports[i].name
    ensures PortConnections(rs, ports, ev)[j].value == Connection(ResolveSignal(rs, ports[i], ev), ports[i])
  {
    LastEntryWins(PortEntries(rs, ports, ev), i, j);
  }

  /** A module without ports or parameter overrides renders as an empty
      connection list. */
  lemma EmptyInstance(moduleName: string, inst: string, align: nat)
    ensures RenderInstance(moduleName, inst, [], [], align) == moduleName + " " + inst + " (\n);"
  {
    var lines := InstanceLines(moduleName, inst, [], [], align);
    assert lines == [moduleName + " " + inst + " ("] + [");"];
    JoinCons(moduleName + " " + inst + " (", [");"], "\n");
  }

  /** Every parameter line but the last ends with a comma; the value sits
      between the parentheses after the padded name. */
  lemma ParamLineShape(e: Entry<string>, last: bool, align: nat)
    requires |e.key| <= align
    ensures var line := ParamLine(e, last, align);
      line[..5] == "    ." && line[5..5 + align] == LJust(e.key, align) && line[5 + align] == '(' &&
      (EndsWith(line, ",") <==> !last)
  {
    var line := ParamLine(e, last, align);
    var pad := LJust(e.key, align);
    assert line == "    ." + pad + "(" + e.value + ")" + Comma(last);
    assert |pad| == align;
    assert line[..5] == "    .";
    assert line[5..5 + align] == pad;
    assert line[|line| - 1] == if last then ')' else ',';
  }

  /** A port line starts with its connection, the name padded to the
      alignment column, and a commented line starts its comment at twice the
      alignment. */
  lemma PortLineShape(e: Entry<Connection>, last: bool, align: nat)
    requires |ConnectionPart(e.key, e.value.signal, last, align)| <= 2 * align
    ensures var line := PortLine(e, last, align);
      var part := ConnectionPart(e.key, e.value.signal, last, align);
      line[..4 + |part|] == "    " + part &&
      (PortComment(e.value.port) != "" ==> line[4 + 2 * align..] == PortComment(e.value.port))
  {
    var part := ConnectionPart(e.key, e.value.signal, last, align);
    var line := PortLine(e, last, align);
    var comment := PortComment(e.value.port);
    if comment != "" {
      var padded := LJust(part, 2 * align);
      assert line == "    " + padded + comment;
      assert line[..4 + |part|] == "    " + padded[..|part|];
      assert line[4 + 2 * align..] == comment;
    }
  }

  /** The connection part ends with a comma on every port line but the last. */
  lemma ConnectionComma(name: string, signal: string, last: bool, align: nat)
    ensures var part := ConnectionPart(name, signal, last, align);
      EndsWith(part, ",") <==> !last
  {
    var part := ConnectionPart(name, signal, last, align);
    assert part[|part| - 1] == if last then ')' else ',';
  }

  /** A port with a direction and a numeric width of `n > 1` is annotated
      with its range `[n-1:0]`. */
  lemma CommentShowsRange(name: string, d: string, n: nat)
    requires n > 1
    ensures PortComment(Port(name, Some(d), IntW(n))) == "// " + Lower(d) + " [" + NatToString(n - 1) + ":0]"
  {
  }
}
