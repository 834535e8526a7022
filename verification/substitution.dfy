/** Target rewriting of the rule manager (`_apply_pattern_substitution`,
    `_execute_function_call`): after a wildcard source matched a name, the
    target's `${...}` expressions are evaluated with the captures bound, and
    then each `*` of the result is filled by the next capture. */
module Substitution {
  import opened Wrappers
  import opened Strings
  import opened Wildcard

  /** Python's restricted `eval` of a rewritten `${...}` call, applied to the
      captures: `Some(str(value))`, or `None` when evaluation raises. The
      expression language itself (string methods, `len`, slicing) is not part
      of this model. */
  type Evaluator = (string, seq<string>) -> Option<string>

  /** Binds capture references in a call text: `*0`, `*1`, ... become
      `group_0`, `group_1`, ..., one index after the other, from `i` up to `n`. */
  function RewriteIndexed(call: string, i: nat, n: nat): string
    decreases n - i
  {
    if i >= n then call
    else
      RewriteIndexed(ReplaceAll(call, "*" + NatToString(i), "group_" + NatToString(i)), i + 1, n)
  }

  /** The text handed to `eval`: indexed references bound, then every other
      `*` read as the first capture. */
  function RewriteCall(call: string, n: nat): (r: string)
    ensures '*' !in r
  {
    ReplaceAllRemovesChar(RewriteIndexed(call, 0, n), '*', "group_0");
    ReplaceAll(RewriteIndexed(call, 0, n), "*", "group_0")
  }

  /** `_execute_function_call`: the evaluated value, or on failure the first
      capture (the call text itself when there are no captures). */
  function ExecuteCall(call: string, groups: seq<string>, ev: Evaluator): string {
    match ev(RewriteCall(call, |groups|), groups)
    case Some(v) => v
    case None => if |groups| > 0 then groups[0] else call
  }

  /** `${` followed by at least one character and the first `}` after it. */
  predicate CallAt(s: string) {
    |s| >= 3 && s[0] == '$' && s[1] == '{' && '}' in s[2..] && IndexOf(s[2..], '}') > 0
  }

  /** Every `${expr}` with a non-empty `expr`, scanned left to right, is
      replaced by the evaluation of `expr`. */
  function SubstCalls(s: string, groups: seq<string>, ev: Evaluator): string
    decreases |s|
  {
    if CallAt(s) then
      var j := IndexOf(s[2..], '}');
      ExecuteCall(s[2..j + 2], groups, ev) + SubstCalls(s[j + 3..], groups, ev)
    else if |s| == 0 then ""
    else [s[0]] + SubstCalls(s[1..], groups, ev)
  }

  /** Each captured group in turn replaces the first remaining `*`. */
  function FillStars(s: string, groups: seq<string>): string
    decreases |groups|
  {
    if |groups| == 0 then s
    else FillStars(ReplaceFirstChar(s, '*', groups[0]), groups[1..])
  }

  /** `_apply_pattern_substitution`: a source without `*`, or one that does
      not match, leaves the target as it is. */
  function Apply(name: string, source: string, target: string, ev: Evaluator): string {
    if '*' !in source then target
    else
      match Captures(name, source)
      case None => target
      case Some(groups) => FillStars(SubstCalls(target, groups, ev), groups)
  }

  // ---------------------------------------------------------------------------
  // Properties
  // ---------------------------------------------------------------------------

  /** A target without `${` is left alone by the call substitution. */
  lemma {:induction false} SubstCallsNoCall(s: string, groups: seq<string>, ev: Evaluator)
    requires !ContainsSub(s, "${")
    ensures SubstCalls(s, groups, ev) == s
    decreases |s|
  {
    assert !OccursAt(s, 0, "${");
    if |s| > 0 {
      assert !ContainsSub(s[1..], "${") by {
        forall k | 0 <= k <= |s[1..]| ensures !OccursAt(s[1..], k, "${") {
          OccursShift(s, k, "${");
        }
      }
      SubstCallsNoCall(s[1..], groups, ev);
      assert [s[0]] + s[1..] == s;
    }
  }

  lemma IndexOfUnique(s: string, c: char, i: nat)
    requires i < |s| && s[i] == c && c !in s[..i]
    ensures c in s && IndexOf(s, c) == i
  {
    forall j | 0 <= j < i ensures s[j] != c {
      assert s[..i][j] == s[j];
    }
  }

  /** A star-free prefix is skipped by the first-star replacement. */
  lemma ReplaceFirstAfterPrefix(p: string, s: string, g: string)
    requires '*' !in p
    ensures ReplaceFirstChar(p + s, '*', g) == p + ReplaceFirstChar(s, '*', g)
  {
    if '*' in s {
      var i := IndexOf(s, '*');
      var before, after := s[..i], s[i + 1..];
      BeforeIndexOf(s, '*');
      ReplaceAt(s, '*', g, i);
      PrefixSlices(p, s, i);
      NotInConcat(p, before, '*');
      ReplaceAt(p + s, '*', g, |p| + i);
      assert p + before + g + after == p + (before + g + after);
    } else {
      NotInConcat(p, s, '*');
    }
  }

  /** Replacing the first `c` when it is at `i`. */
  lemma ReplaceAt(s: string, c: char, repl: string, i: nat)
    requires i < |s| && s[i] == c && c !in s[..i]
    ensures ReplaceFirstChar(s, c, repl) == s[..i] + repl + s[i + 1..]
  {
    IndexOfUnique(s, c, i);
  }

  lemma BeforeIndexOf(s: string, c: char)
    requires c in s
    ensures c !in s[..IndexOf(s, c)]
  {
    var i := IndexOf(s, c);
    forall j | 0 <= j < i ensures s[..i][j] != c {
      assert s[..i][j] == s[j];
    }
  }

  lemma NotInConcat(a: string, b: string, c: char)
    requires c !in a && c !in b
    ensures c !in a + b
  {
    forall j | 0 <= j < |a + b| ensures (a + b)[j] != c {
      if j < |a| {
        assert (a + b)[j] == a[j];
      } else {
        assert (a + b)[j] == b[j - |a|];
      }
    }
  }

  /** Cutting `p + s` at a place inside `s`. */
  lemma PrefixSlices(p: string, s: string, i: nat)
    requires i < |s|
    ensures (p + s)[..|p| + i] == p + s[..i] && (p + s)[|p| + i] == s[i]
    ensures (p + s)[|p| + i + 1..] == s[i + 1..]
  {
  }

  lemma {:induction false} FillStarsAfterPrefix(p: string, s: string, groups: seq<string>)
    requires '*' !in p
    ensures FillStars(p + s, groups) == p + FillStars(s, groups)
    decreases |groups|
  {
    if |groups| > 0 {
      ReplaceFirstAfterPrefix(p, s, groups[0]);
      FillStarsAfterPrefix(p, ReplaceFirstChar(s, '*', groups[0]), groups[1..]);
    }
  }

  predicate StarFree(parts: seq<string>) {
    forall i :: 0 <= i < |parts| ==> '*' !in parts[i]
  }

  lemma StarFreeTail(parts: seq<string>)
    requires |parts| > 0 && StarFree(parts)
    ensures '*' !in parts[0] && StarFree(parts[1..])
  {
    forall i | 0 <= i < |parts[1..]| ensures '*' !in parts[1..][i] {
      assert parts[1..][i] == parts[i + 1];
    }
  }

  /** One fill step on a joined pattern: the first star is the one after the
      first piece. */
  lemma FillFirstStar(seg: string, rest: string, cap: string)
    requires '*' !in seg
    ensures ReplaceFirstChar(seg + ("*" + rest), '*', cap) == (seg + cap) + rest
  {
    ReplaceFirstAfterPrefix(seg, "*" + rest, cap);
    IndexOfUnique("*" + rest, '*', 0);
    assert ("*" + rest)[1..] == rest;
    assert ("*" + rest)[..0] == "";
  }

  /** Filling the stars of a joined pattern with star-free captures gives the
      reading of the pattern with the captures in place of its stars. */
  lemma {:induction false} FillStarsInterleave(segs: seq<string>, caps: seq<string>)
    requires |caps| + 1 == |segs|
    requires StarFree(segs) && StarFree(caps)
    ensures FillStars(Join(segs, "*"), caps) == Interleave(segs, caps)
    decreases |caps|
  {
    if |caps| > 0 {
      var rest := Join(segs[1..], "*");
      assert Join(segs, "*") == segs[0] + ("*" + rest);
      StarFreeTail(segs);
      StarFreeTail(caps);
      FillFirstStar(segs[0], rest, caps[0]);
      assert '*' !in segs[0] + caps[0];
      FillStarsAfterPrefix(segs[0] + caps[0], rest, caps[1..]);
      FillStarsInterleave(segs[1..], caps[1..]);
    }
  }

  /** Every capture is a piece of its reading. */
  lemma {:induction false} CapturesInInterleave(segs: seq<string>, caps: seq<string>, c: char)
    requires |caps| + 1 == |segs| && c !in Interleave(segs, caps)
    ensures forall i :: 0 <= i < |caps| ==> c !in caps[i]
    decreases |caps|
  {
    if |caps| > 0 {
      var rest := Interleave(segs[1..], caps[1..]);
      assert Interleave(segs, caps) == segs[0] + caps[0] + rest;
      assert c !in caps[0] by {
        forall k | 0 <= k < |caps[0]| ensures caps[0][k] != c {
          assert caps[0][k] == (segs[0] + caps[0] + rest)[|segs[0]| + k];
        }
      }
      assert c !in rest by {
        forall k | 0 <= k < |rest| ensures rest[k] != c {
          assert rest[k] == (segs[0] + caps[0] + rest)[|segs[0]| + |caps[0]| + k];
        }
      }
      CapturesInInterleave(segs[1..], caps[1..], c);
      forall i | 0 <= i < |caps| ensures c !in caps[i] {
        if i > 0 { assert caps[i] == caps[1..][i - 1]; }
      }
    }
  }

  /** A rule whose target repeats its wildcard source maps every matching
      name to itself (less the final newline `$` lets a match skip). */
  lemma IdentityRule(name: string, source: string, ev: Evaluator)
    requires '*' in source && Matches(name, source)
    requires !ContainsSub(source, "${") && '*' !in name
    ensures Apply(name, source, source, ev) == name || Apply(name, source, source, ev) + "\n" == name
  {
    var segs := Split(source, '*');
    var caps := Captures(name, source).value;
    CapturesRebuildName(name, source);
    SubstCallsNoCall(source, caps, ev);
    assert '*' !in Interleave(segs, caps) by {
      if Interleave(segs, caps) + "\n" == name {
        forall k | 0 <= k < |Interleave(segs, caps)| ensures Interleave(segs, caps)[k] != '*' {
          assert Interleave(segs, caps)[k] == name[k];
        }
      }
    }
    CapturesInInterleave(segs, caps, '*');
    FillStarsInterleave(segs, caps);
  }

  /** A target with neither stars nor calls is emitted verbatim. */
  lemma ConstantTarget(name: string, source: string, target: string, ev: Evaluator)
    requires '*' !in target && !ContainsSub(target, "${")
    ensures Apply(name, source, target, ev) == target
  {
    SubstCallsNoCall(target, [], ev);
    if '*' in source && Captures(name, source).Some? {
      var groups := Captures(name, source).value;
      SubstCallsNoCall(target, groups, ev);
      FillStarsNoStar(target, groups);
    }
  }

  /** A `${call}` with a non-empty call text is replaced by the call's
      evaluation, and the scan carries on after its closing brace. */
  lemma CallReplaced(call: string, rest: string, groups: seq<string>, ev: Evaluator)
    requires |call| > 0 && '}' !in call
    ensures SubstCalls("${" + call + "}" + rest, groups, ev)
            == ExecuteCall(call, groups, ev) + SubstCalls(rest, groups, ev)
  {
    var s := "${" + call + "}" + rest;
    assert s[2..] == call + "}" + rest;
    assert s[2..][..|call|] == call;
    IndexOfUnique(s[2..], '}', |call|);
    assert CallAt(s);
    assert s[2..|call| + 2] == call;
    assert s[|call| + 3..] == rest;
  }

  /** A call whose evaluation fails gives way to the first capture. */
  lemma FailedCallFallsBack(call: string, rest: string, groups: seq<string>, ev: Evaluator)
    requires |call| > 0 && '}' !in call && |groups| > 0
    requires ev(RewriteCall(call, |groups|), groups).None?
    ensures SubstCalls("${" + call + "}" + rest, groups, ev) == groups[0] + SubstCalls(rest, groups, ev)
  {
    CallReplaced(call, rest, groups, ev);
  }

  /** A wildcard source that matches always yields a capture, so a failed
      call in its target has a first capture to fall back on. */
  lemma CapturesNonEmpty(name: string, source: string)
    requires '*' in source && Captures(name, source).Some?
    ensures |Captures(name, source).value| >= 1
  {
    CapturesRebuildName(name, source);
    CountZeroIffAbsent(source, '*');
  }

  lemma {:induction false} FillStarsNoStar(s: string, groups: seq<string>)
    requires '*' !in s
    ensures FillStars(s, groups) == s
    decreases |groups|
  {
    if |groups| > 0 {
      FillStarsNoStar(s, groups[1..]);
    }
  }
}
