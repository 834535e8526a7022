/** The command line's `--macros` argument (`vcg.py`): a comma-separated
    list of names, or of `NAME=value` assignments, handed on to the
    preprocessor as a list or as a dict. */
module Cli {
  import opened Wrappers
  import opened Strings
  import opened OrderedDict
  import Preprocess

  /** What `parse_macros_argument` returns: nothing, a list of names, or a
      dict in insertion order. */
  datatype MacroArg = NoMacroArg | NameList(names: seq<string>) | Assignments(entries: seq<Entry<string>>)

  /** The stripped items of the argument. */
  function Items(s: string): (r: seq<string>)
    ensures |r| == |Split(s, ',')| && forall i :: 0 <= i < |r| ==> r[i] == Strip(Split(s, ',')[i])
  {
    var parts := Split(s, ',');
    seq(|parts|, i requires 0 <= i < |parts| => Strip(parts[i]))
  }

  /** One item of an argument with assignments: split at its first `=`, both
      sides stripped; an item without `=` has the empty value. */
  function Assignment(item: string): (r: Entry<string>)
    ensures '=' !in item ==> r == Entry(item, "")
  {
    if '=' in item then
      var i := IndexOf(item, '=');
      Entry(Strip(item[..i]), Strip(item[i + 1..]))
    else Entry(item, "")
  }

  predicate HasAssignment(items: seq<string>) {
    exists i :: 0 <= i < |items| && '=' in items[i]
  }

  /** The entries of an argument with assignments, one per item, in order. */
  function ItemAssignments(items: seq<string>): (r: seq<Entry<string>>)
    ensures |r| == |items| && forall i :: 0 <= i < |items| ==> r[i] == Assignment(items[i])
  {
    seq(|items|, i requires 0 <= i < |items| => Assignment(items[i]))
  }

  /** `parse_macros_argument`: nothing for an absent or empty argument; a
      dict when some item holds `=`, its later assignments overriding earlier
      ones; the list of items otherwise. */
  function ParseMacrosArgument(arg: Option<string>): (r: MacroArg)
    ensures arg.None? || arg.value == "" <==> r.NoMacroArg?
    ensures r.NameList? ==> r.names == Items(arg.value) && !HasAssignment(r.names)
    ensures r.Assignments? ==> HasAssignment(Items(arg.value))
    ensures r.Assignments? ==> DistinctKeys(r.entries)
  {
    if arg.None? || arg.value == "" then NoMacroArg
    else
      var items := Items(arg.value);
      if HasAssignment(items) then Assignments(FromEntries(ItemAssignments(items)))
      else NameList(items)
  }

  /** Some item of the argument names the macro `k`. */
  predicate Mentioned(arg: string, k: string) {
    exists i :: 0 <= i < |Items(arg)| && Assignment(Items(arg)[i]).key == k
  }

  /** Every item of an argument with assignments gives its macro an entry,
      and every entry comes from an item. */
  lemma AssignedMacrosPresent(arg: string)
    requires ParseMacrosArgument(Some(arg)).Assignments?
    ensures forall i :: 0 <= i < |Items(arg)| ==>
      HasKey(ParseMacrosArgument(Some(arg)).entries, Assignment(Items(arg)[i]).key)
    ensures forall j :: 0 <= j < |ParseMacrosArgument(Some(arg)).entries| ==>
      Mentioned(arg, ParseMacrosArgument(Some(arg)).entries[j].key)
  {
    var items := Items(arg);
    var es := ItemAssignments(items);
    var d := FromEntries(es);
    assert ParseMacrosArgument(Some(arg)).entries == d;
    forall i | 0 <= i < |items| ensures HasKey(d, Assignment(items[i]).key) {
      assert es[i] == Assignment(items[i]);
    }
    AssignmentsMentioned(arg, es, d);
  }

  lemma AssignmentsMentioned(arg: string, es: seq<Entry<string>>, d: seq<Entry<string>>)
    requires es == ItemAssignments(Items(arg))
    requires forall j :: 0 <= j < |d| ==> HasKey(es, d[j].key)
    ensures forall j :: 0 <= j < |d| ==> Mentioned(arg, d[j].key)
  {
    forall j | 0 <= j < |d| ensures Mentioned(arg, d[j].key) {
      var i :| 0 <= i < |es| && es[i].key == d[j].key;
      assert Assignment(Items(arg)[i]).key == d[j].key;
    }
  }

  function NameItems(names: seq<string>): (r: seq<Preprocess.MacroItem>)
    ensures |r| == |names| && forall i :: 0 <= i < |names| ==> r[i] == Preprocess.Name(names[i])
  {
    seq(|names|, i requires 0 <= i < |names| => Preprocess.Name(names[i]))
  }

  /** A list of names is accepted, and defines exactly those names. */
  lemma NamesDefined(names: seq<string>)
    ensures Preprocess.ParseMacros(Preprocess.FromList(NameItems(names))).Success?
    ensures forall i :: 0 <= i < |names| ==>
      Preprocess.Defined(Preprocess.ParseMacros(Preprocess.FromList(NameItems(names))).value, names[i])
    ensures forall k :: Preprocess.Defined(Preprocess.ParseMacros(Preprocess.FromList(NameItems(names))).value, k) ==>
      k in names
  {
    var items := NameItems(names);
    assert forall i :: 0 <= i < |items| ==> !items[i].Malformed?;
    var d := Preprocess.ParseMacros(Preprocess.FromList(items)).value;
    forall i | 0 <= i < |names| ensures Preprocess.Defined(d, names[i]) {
      assert Preprocess.ItemEntry(items[i]).key == names[i];
    }
    forall k | Preprocess.Defined(d, k) ensures k in names {
      var j :| 0 <= j < |d| && d[j].key == k;
      assert Preprocess.ListedName(items, d[j].key);
      var i :| 0 <= i < |items| && !items[i].Malformed? && Preprocess.ItemEntry(items[i]).key == k;
      assert names[i] == k;
    }
  }

  /** What the preprocessor receives from the argument. */
  function ToSpec(a: MacroArg): Preprocess.MacroSpec {
    match a
    case NoMacroArg => Preprocess.NoMacros
    case NameList(names) => Preprocess.FromList(NameItems(names))
    case Assignments(es) => Preprocess.FromDict(es)
  }

  /** The preprocessor always accepts what the argument gives, and the
      macros it defines are exactly those the argument names, with or
      without a value; an absent or empty argument defines none. */
  lemma ArgumentMacrosDefined(arg: Option<string>)
    ensures Preprocess.ParseMacros(ToSpec(ParseMacrosArgument(arg))).Success?
    ensures arg.None? || arg.value == "" ==> Preprocess.ParseMacros(ToSpec(ParseMacrosArgument(arg))).value == []
    ensures arg.Some? && arg.value != "" ==>
      forall i :: 0 <= i < |Items(arg.value)| ==>
        Preprocess.Defined(Preprocess.ParseMacros(ToSpec(ParseMacrosArgument(arg))).value,
                           Assignment(Items(arg.value)[i]).key)
    ensures arg.Some? && arg.value != "" ==>
      forall k :: Preprocess.Defined(Preprocess.ParseMacros(ToSpec(ParseMacrosArgument(arg))).value, k) ==>
        Mentioned(arg.value, k)
  {
    var r := ParseMacrosArgument(arg);
    if r.Assignments? {
      AssignmentsDefined(arg.value);
    } else if r.NameList? {
      NameListDefined(arg.value);
    }
  }

  lemma AssignmentsDefined(arg: string)
    requires ParseMacrosArgument(Some(arg)).Assignments?
    ensures Preprocess.ParseMacros(ToSpec(ParseMacrosArgument(Some(arg)))).Success?
    ensures forall i :: 0 <= i < |Items(arg)| ==>
      Preprocess.Defined(Preprocess.ParseMacros(ToSpec(ParseMacrosArgument(Some(arg)))).value,
                         Assignment(Items(arg)[i]).key)
    ensures forall k :: Preprocess.Defined(Preprocess.ParseMacros(ToSpec(ParseMacrosArgument(Some(arg)))).value, k) ==>
      Mentioned(arg, k)
  {
    var r := ParseMacrosArgument(Some(arg));
    assert ToSpec(r) == Preprocess.FromDict(r.entries);
    AssignedMacrosPresent(arg);
    forall k | Preprocess.Defined(r.entries, k) ensures Mentioned(arg, k) {
      var j :| 0 <= j < |r.entries| && r.entries[j].key == k;
    }
  }

  lemma NameListDefined(arg: string)
    requires ParseMacrosArgument(Some(arg)).NameList?
    ensures Preprocess.ParseMacros(ToSpec(ParseMacrosArgument(Some(arg)))).Success?
    ensures forall i :: 0 <= i < |Items(arg)| ==>
      Preprocess.Defined(Preprocess.ParseMacros(ToSpec(ParseMacrosArgument(Some(arg)))).value,
                         Assignment(Items(arg)[i]).key)
    ensures forall k :: Preprocess.Defined(Preprocess.ParseMacros(ToSpec(ParseMacrosArgument(Some(arg)))).value, k) ==>
      Mentioned(arg, k)
  {
    var items := Items(arg);
    assert ToSpec(ParseMacrosArgument(Some(arg))) == Preprocess.FromList(NameItems(items));
    NamesDefined(items);
    forall i | 0 <= i < |items| ensures Assignment(items[i]).key == items[i] {
      assert '=' !in items[i];
    }
    var d := Preprocess.ParseMacros(Preprocess.FromList(NameItems(items))).value;
    forall k | Preprocess.Defined(d, k) ensures Mentioned(arg, k) {
      var i :| 0 <= i < |items| && items[i] == k;
      assert Assignment(items[i]).key == k;
    }
  }

  /** When a macro is assigned more than once, the last assignment wins. */
  lemma LastAssignmentWins(arg: string, i: nat, j: nat)
    requires ParseMacrosArgument(Some(arg)).Assignments?
    requires i < |Items(arg)| &&
      forall m :: i < m < |Items(arg)| ==> Assignment(Items(arg)[m]).key != Assignment(Items(arg)[i]).key
    requires j < |ParseMacrosArgument(Some(arg)).entries| &&
      ParseMacrosArgument(Some(arg)).entries[j].key == Assignment(Items(arg)[i]).key
    ensures ParseMacrosArgument(Some(arg)).entries[j].value == Assignment(Items(arg)[i]).value
  {
    var es := ItemAssignments(Items(arg));
    LastEntryWins(es, i, j);
  }

  /** An item splits at its first `=`. */
  lemma AssignmentAt(item: string, i: nat)
    requires i < |item| && item[i] == '=' && '=' !in item[..i]
    ensures Assignment(item) == Entry(Strip(item[..i]), Strip(item[i + 1..]))
  {
    assert '=' in item;
    forall j | 0 <= j < i ensures item[j] != '=' {
      assert item[..i][j] == item[j];
    }
    var k := IndexOf(item, '=');
    assert k == i;
    assert Assignment(item) == Entry(Strip(item[..k]), Strip(item[k + 1..]));
  }

  /** `name=value` assigns the stripped `value`, which may itself hold `=`,
      to the stripped `name`. */
  lemma AssignmentSplitsAtFirstEquals(name: string, value: string)
    requires '=' !in name
    ensures Assignment(name + "=" + value) == Entry(Strip(name), Strip(value))
  {
    var item := name + "=" + value;
    assert item[..|name|] == name;
    assert '=' !in item[..|name|];
    assert item[|name| + 1..] == value;
    AssignmentAt(item, |name|);
  }

  /** A list of bare names written with commas reads back as that list. */
  lemma {:induction false} NameListRoundTrip(names: seq<string>)
    requires |names| >= 1 && Join(names, ",") != ""
    requires forall i :: 0 <= i < |names| ==> ',' !in names[i] && '=' !in names[i] && Strip(names[i]) == names[i]
    ensures ParseMacrosArgument(Some(Join(names, ","))) == NameList(names)
  {
    var arg := Join(names, ",");
    SplitJoin(names, ',');
    var items := Items(arg);
    assert |items| == |names|;
    forall i | 0 <= i < |names| ensures items[i] == names[i] {
      assert items[i] == Strip(Split(arg, ',')[i]);
    }
    assert items == names;
    assert !HasAssignment(items);
  }
}
