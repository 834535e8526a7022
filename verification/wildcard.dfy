/** Wildcard patterns of the rule manager (`_match_pattern`,
    `_apply_pattern_substitution`): a pattern with `*` is turned into an
    anchored regular expression in which every other character is escaped and
    every `*` becomes a greedy capture `(.*)`.

    The regex semantics kept here: the literal pieces match literally (newlines
    included); a capture never spans a newline (the regex dot); `$` accepts the
    end of the text or the position just before one final newline; and
    backtracking tries the longest capture first, left to right. */
module Wildcard {
  import opened Wrappers
  import opened Strings

  predicate NoNewline(s: string) {
    '\n' !in s
  }

  predicate AllNoNewline(caps: seq<string>) {
    forall i :: 0 <= i < |caps| ==> NoNewline(caps[i])
  }

  /** How far a greedy `(.*)` first reaches: the longest newline-free prefix. */
  function DotRun(s: string): (n: nat)
    ensures n <= |s|
    ensures NoNewline(s[..n])
    ensures n < |s| ==> s[n] == '\n'
  {
    if |s| == 0 || s[0] == '\n' then 0
    else
      var m := DotRun(s[1..]);
      assert s[..m + 1] == [s[0]] + s[1..][..m];
      m + 1
  }

  // ---------------------------------------------------------------------------
  // Reference semantics: a text decomposes into literal pieces and captures
  // ---------------------------------------------------------------------------

  /** `segs[0] + caps[0] + segs[1] + ... + caps[n-1] + segs[n]`. */
  function Interleave(segs: seq<string>, caps: seq<string>): string
    requires |caps| + 1 == |segs|
  {
    if |caps| == 0 then segs[0]
    else segs[0] + caps[0] + Interleave(segs[1..], caps[1..])
  }

  /** `caps` is one way of reading `t` against the pieces `segs`, with the
      anchoring rules of `re.match('^...$')`. */
  predicate Decomposes(segs: seq<string>, t: string, caps: seq<string>) {
    |caps| + 1 == |segs| && AllNoNewline(caps) &&
    (Interleave(segs, caps) == t || Interleave(segs, caps) + "\n" == t)
  }

  /** Backtracking order: the first capture's length decides, then the next. */
  predicate LexLeq(a: seq<string>, b: seq<string>)
    requires |a| == |b|
  {
    |a| == 0 || |a[0]| < |b[0]| || (|a[0]| == |b[0]| && LexLeq(a[1..], b[1..]))
  }

  // ---------------------------------------------------------------------------
  // The matcher
  // ---------------------------------------------------------------------------

  /** Matches the remaining text `t` against the pieces `segs`, returning the
      captures of the first successful backtracking path. */
  function MatchSegs(segs: seq<string>, t: string): Option<seq<string>>
    requires |segs| >= 1
    decreases |segs|, 0, 0
  {
    if !StartsWith(t, segs[0]) then None
    else if |segs| == 1 then
      (if t == segs[0] || t == segs[0] + "\n" then Some([]) else None)
    else
      var u := t[|segs[0]|..];
      TryCaptures(segs[1..], u, DotRun(u))
  }

  /** Tries capture lengths `k, k-1, ..., 0` for the next `(.*)`. */
  function TryCaptures(segs: seq<string>, u: string, k: nat): Option<seq<string>>
    requires |segs| >= 1 && k <= |u|
    decreases |segs|, 1, k
  {
    match MatchSegs(segs, u[k..])
    case Some(cs) => Some([u[..k]] + cs)
    case None => if k == 0 then None else TryCaptures(segs, u, k - 1)
  }

  /** `_match_pattern`: with a `*` the anchored regex decides, otherwise the
      names must be equal. */
  function Matches(name: string, pattern: string): bool {
    if '*' in pattern then MatchSegs(Split(pattern, '*'), name).Some? else name == pattern
  }

  /** `match.groups()` of the anchored regex, when it matches. */
  function Captures(name: string, pattern: string): Option<seq<string>> {
    MatchSegs(Split(pattern, '*'), name)
  }

  // ---------------------------------------------------------------------------
  // Correctness of the matcher against the reference
  // ---------------------------------------------------------------------------

  lemma DecomposesStep(segs: seq<string>, t: string, caps: seq<string>)
    requires |segs| >= 2 && |caps| + 1 == |segs|
    ensures Decomposes(segs, t, caps) <==>
      StartsWith(t, segs[0]) &&
      StartsWith(t[|segs[0]|..], caps[0]) && NoNewline(caps[0]) &&
      Decomposes(segs[1..], t[|segs[0]|..][|caps[0]|..], caps[1..])
  {
    var rest := Interleave(segs[1..], caps[1..]);
    assert Interleave(segs, caps) == segs[0] + caps[0] + rest;
    assert forall i | 0 <= i < |caps[1..]| :: caps[1..][i] == caps[i + 1];
    assert AllNoNewline(caps) <==> NoNewline(caps[0]) && AllNoNewline(caps[1..]) by {
      if NoNewline(caps[0]) && AllNoNewline(caps[1..]) {
        forall i | 0 <= i < |caps| ensures NoNewline(caps[i]) {
          if i > 0 { assert caps[i] == caps[1..][i - 1]; }
        }
      }
    }
    if Decomposes(segs, t, caps) {
      var x := if Interleave(segs, caps) == t then "" else "\n";
      assert t == segs[0] + caps[0] + (rest + x);
      assert t[..|segs[0]|] == segs[0];
      assert t[|segs[0]|..] == caps[0] + (rest + x);
      assert t[|segs[0]|..][..|caps[0]|] == caps[0];
      assert t[|segs[0]|..][|caps[0]|..] == rest + x;
    }
    if StartsWith(t, segs[0]) && StartsWith(t[|segs[0]|..], caps[0]) {
      var u := t[|segs[0]|..];
      assert t == segs[0] + u;
      assert u == caps[0] + u[|caps[0]|..];
      assert t == segs[0] + caps[0] + u[|caps[0]|..];
    }
  }

  /** Every result of the matcher is a valid reading of the text. */
  lemma {:induction false} MatchSound(segs: seq<string>, t: string)
    requires |segs| >= 1
    ensures MatchSegs(segs, t).Some? ==> Decomposes(segs, t, MatchSegs(segs, t).value)
    decreases |segs|, 0, 0
  {
    if StartsWith(t, segs[0]) && |segs| > 1 {
      var u := t[|segs[0]|..];
      TrySound(segs[1..], u, DotRun(u));
      match MatchSegs(segs, t)
      case None =>
      case Some(caps) =>
        assert caps == TryCaptures(segs[1..], u, DotRun(u)).value;
        assert segs[1..] == segs[1..];
        DecomposesStep(segs, t, caps);
    } else if StartsWith(t, segs[0]) {
      assert Interleave(segs, []) == segs[0];
    }
  }

  lemma {:induction false} TrySound(segs: seq<string>, u: string, k: nat)
    requires |segs| >= 1 && k <= |u| && NoNewline(u[..k])
    ensures TryCaptures(segs, u, k).Some? ==>
      var cs := TryCaptures(segs, u, k).value;
      |cs| == |segs| && StartsWith(u, cs[0]) && NoNewline(cs[0]) &&
      Decomposes(segs, u[|cs[0]|..], cs[1..])
    decreases |segs|, 1, k
  {
    MatchSound(segs, u[k..]);
    match MatchSegs(segs, u[k..])
    case Some(cs) =>
      var r := [u[..k]] + cs;
      assert r[0] == u[..k] && r[1..] == cs;
    case None =>
      if k > 0 {
        assert u[..k - 1] == u[..k][..k - 1];
        TrySound(segs, u, k - 1);
      }
  }

  /** The matcher finds a reading whenever one exists, and the one it finds
      is the greatest in backtracking order: it is the reading Python's
      `re.match` reports. */
  lemma {:induction false} MatchGreedy(segs: seq<string>, t: string, caps: seq<string>)
    requires |segs| >= 1 && Decomposes(segs, t, caps)
    ensures MatchSegs(segs, t).Some?
    ensures |MatchSegs(segs, t).value| == |caps| && LexLeq(caps, MatchSegs(segs, t).value)
    decreases |segs|, 0, 0
  {
    MatchSound(segs, t);
    if |segs| == 1 {
      assert Interleave(segs, caps) == segs[0];
      assert t[..|segs[0]|] == segs[0];
    } else {
      DecomposesStep(segs, t, caps);
      var u := t[|segs[0]|..];
      DotRunBound(u, caps[0]);
      TryGreedy(segs[1..], u, DotRun(u), caps);
    }
  }

  lemma DotRunBound(u: string, c: string)
    requires StartsWith(u, c) && NoNewline(c)
    ensures |c| <= DotRun(u)
  {
  }

  lemma {:induction false} TryGreedy(segs: seq<string>, u: string, k: nat, caps: seq<string>)
    requires |segs| >= 1 && k <= |u| && NoNewline(u[..k])
    requires |caps| == |segs| && |caps[0]| <= k
    requires StartsWith(u, caps[0]) && NoNewline(caps[0])
    requires Decomposes(segs, u[|caps[0]|..], caps[1..])
    ensures TryCaptures(segs, u, k).Some?
    ensures |TryCaptures(segs, u, k).value| == |caps| && LexLeq(caps, TryCaptures(segs, u, k).value)
    decreases |segs|, 1, k
  {
    MatchSound(segs, u[k..]);
    if |caps[0]| == k {
      MatchGreedy(segs, u[k..], caps[1..]);
      var cs := MatchSegs(segs, u[k..]).value;
      var r := [u[..k]] + cs;
      assert r[0] == u[..k] && r[1..] == cs;
    } else {
      match MatchSegs(segs, u[k..])
      case Some(cs) =>
        var r := [u[..k]] + cs;
        assert r[0] == u[..k];
      case None =>
        assert u[..k - 1] == u[..k][..k - 1];
        TryGreedy(segs, u, k - 1, caps);
    }
  }

  /** A pattern with a `*` matches a name exactly when the name can be read
      against the pattern's literal pieces. */
  lemma MatchesIffDecomposes(name: string, pattern: string)
    requires '*' in pattern
    ensures Matches(name, pattern) <==> exists caps :: Decomposes(Split(pattern, '*'), name, caps)
  {
    var segs := Split(pattern, '*');
    assert Matches(name, pattern) == MatchSegs(segs, name).Some?;
    if Matches(name, pattern) {
      MatchSound(segs, name);
      var w := MatchSegs(segs, name).value;
      assert Decomposes(segs, name, w);
      assert Decomposes(Split(pattern, '*'), name, w);
      assert exists caps :: Decomposes(Split(pattern, '*'), name, caps);
    } else {
      forall caps ensures !Decomposes(segs, name, caps) {
        if Decomposes(segs, name, caps) {
          MatchGreedy(segs, name, caps);
        }
      }
    }
  }

  /** The captures reassemble the name: the pattern with each `*` replaced by
      its capture gives back the name (less a final newline `$` skipped). */
  lemma CapturesRebuildName(name: string, pattern: string)
    requires Captures(name, pattern).Some?
    ensures |Captures(name, pattern).value| == Count(pattern, '*')
    ensures Decomposes(Split(pattern, '*'), name, Captures(name, pattern).value)
  {
    MatchSound(Split(pattern, '*'), name);
    SplitCount(pattern, '*');
  }

  /** A text split at `c` has one more piece than it has occurrences of `c`. */
  lemma {:induction false} SplitCount(s: string, c: char)
    ensures |Split(s, c)| == Count(s, c) + 1
    decreases |s|
  {
    if |s| > 0 {
      SplitCount(s[1..], c);
    }
  }
}
