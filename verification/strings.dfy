/** ASCII string primitives that mirror the Python built-ins the tool relies on:
    `str.isspace`, `str.isdigit`, `strip`/`lstrip`/`rstrip`, `lower`/`upper`,
    `split`/`join`, `replace`, `ljust` and `int()`/`str()` on decimals. */
module Strings {
  import opened Wrappers

  // ---------------------------------------------------------------------------
  // Character classes
  // ---------------------------------------------------------------------------

  /** `str.isspace` restricted to ASCII: tab, newline, vertical tab, form feed,
      carriage return, the four separator controls 0x1c-0x1f, and space. */
  predicate IsSpace(c: char) {
    var n := c as int;
    n == 32 || 9 <= n <= 13 || 28 <= n <= 31
  }

  predicate IsDigit(c: char) {
    '0' <= c <= '9'
  }

  predicate IsLetter(c: char) {
    'a' <= c <= 'z' || 'A' <= c <= 'Z'
  }

  /** The regex class `\w` on ASCII text. */
  predicate IsWordChar(c: char) {
    IsLetter(c) || IsDigit(c) || c == '_'
  }

  /** `str.isdigit`: non-empty and made of decimal digits only. */
  predicate IsDigits(s: string) {
    |s| > 0 && AllDigits(s)
  }

  predicate AllDigits(s: string) {
    forall i :: 0 <= i < |s| ==> IsDigit(s[i])
  }

  /** The text is empty or made of whitespace only. */
  predicate IsBlank(s: string) {
    forall i :: 0 <= i < |s| ==> IsSpace(s[i])
  }

  // ---------------------------------------------------------------------------
  // Case mapping (ASCII)
  // ---------------------------------------------------------------------------

  function LowerChar(c: char): char {
    if 'A' <= c <= 'Z' then (c as int + 32) as char else c
  }

  function UpperChar(c: char): char {
    if 'a' <= c <= 'z' then (c as int - 32) as char else c
  }

  function Lower(s: string): string {
    seq(|s|, i requires 0 <= i < |s| => LowerChar(s[i]))
  }

  function Upper(s: string): string {
    seq(|s|, i requires 0 <= i < |s| => UpperChar(s[i]))
  }

  /** Lower-casing is idempotent, so comparing lower-cased texts is an
      equivalence that ignores case. */
  lemma LowerIdempotent(s: string)
    ensures Lower(Lower(s)) == Lower(s)
  {
  }

  // ---------------------------------------------------------------------------
  // Stripping
  // ---------------------------------------------------------------------------

  /** `str.lstrip()`: the suffix left after removing the maximal whitespace prefix. */
  function LStrip(s: string): (r: string)
    ensures |r| <= |s| && r == s[|s| - |r|..]
    ensures IsBlank(s[..|s| - |r|])
    ensures |r| > 0 ==> !IsSpace(r[0])
    decreases |s|
  {
    if |s| > 0 && IsSpace(s[0]) then LStrip(s[1..]) else s
  }

  /** `str.rstrip()`: the prefix left after removing the maximal whitespace suffix. */
  function RStrip(s: string): (r: string)
    ensures |r| <= |s| && r == s[..|r|]
    ensures IsBlank(s[|r|..])
    ensures |r| > 0 ==> !IsSpace(r[|r| - 1])
    decreases |s|
  {
    if |s| > 0 && IsSpace(s[|s| - 1]) then RStrip(s[..|s| - 1]) else s
  }

  /** `str.strip()`. */
  function Strip(s: string): string {
    RStrip(LStrip(s))
  }

  /** Stripping yields the empty text exactly for blank texts, and otherwise a
      slice of the input that starts and ends with a non-space character. */
  lemma StripCharacterization(s: string)
    ensures Strip(s) == "" <==> IsBlank(s)
    ensures exists i, j :: 0 <= i <= j <= |s| && Strip(s) == s[i..j]
    ensures |Strip(s)| > 0 ==> !IsSpace(Strip(s)[0]) && !IsSpace(Strip(s)[|Strip(s)| - 1])
  {
    StripSlice(s);
    StripEmptyIffBlank(s);
  }

  lemma {:induction false} StripSlice(s: string)
    ensures Strip(s) == s[|s| - |LStrip(s)|..|s| - |LStrip(s)| + |Strip(s)|]
  {
    SuffixPrefix(s, LStrip(s), RStrip(LStrip(s)));
  }

  /** A prefix of a suffix is a slice. */
  lemma SuffixPrefix<T>(s: seq<T>, l: seq<T>, r: seq<T>)
    requires |r| <= |l| <= |s| && l == s[|s| - |l|..] && r == l[..|r|]
    ensures r == s[|s| - |l|..|s| - |l| + |r|]
  {
  }

  lemma StripEmptyIffBlank(s: string)
    ensures Strip(s) == "" <==> IsBlank(s)
  {
    var l := LStrip(s);
    LStripEmptyIffBlank(s);
    RStripEmptyIffBlank(l);
    if l != "" {
      assert !IsSpace(l[0]);
    }
  }

  lemma BlankIffStripEmpty(s: string)
    ensures IsBlank(s) <==> Strip(s) == ""
  {
    StripCharacterization(s);
  }

  /** Left-stripping empties exactly the blank texts. */
  lemma LStripEmptyIffBlank(s: string)
    ensures LStrip(s) == "" <==> IsBlank(s)
  {
    if LStrip(s) == "" {
      assert s[..|s|] == s;
    }
  }

  /** Right-stripping empties exactly the blank texts. */
  lemma RStripEmptyIffBlank(s: string)
    ensures RStrip(s) == "" <==> IsBlank(s)
  {
    if RStrip(s) == "" {
      assert s[0..] == s;
    }
  }

  // ---------------------------------------------------------------------------
  // Decimal numerals
  // ---------------------------------------------------------------------------

  function DigitValue(c: char): nat
    requires IsDigit(c)
  {
    c as int - '0' as int
  }

  function DigitChar(d: nat): (c: char)
    requires d < 10
    ensures IsDigit(c) && DigitValue(c) == d
  {
    ('0' as int + d) as char
  }

  /** `int(s)` for a text of decimal digits. */
  function DecimalValue(s: string): nat
    requires AllDigits(s)
  {
    if |s| == 0 then 0 else DecimalValue(s[..|s| - 1]) * 10 + DigitValue(s[|s| - 1])
  }

  /** `str(n)` for a natural number: the canonical decimal numeral. */
  function NatToString(n: nat): (r: string)
    ensures IsDigits(r)
    ensures DecimalValue(r) == n
    ensures |r| > 1 ==> r[0] != '0'
  {
    if n < 10 then [DigitChar(n)]
    else
      var p := NatToString(n / 10);
      var r := p + [DigitChar(n % 10)];
      assert r[..|r| - 1] == p;
      r
  }

  /** `str(i)` for any integer. */
  function IntToString(i: int): string {
    if i < 0 then "-" + NatToString(-i) else NatToString(i)
  }

  /** Distinct numbers print as distinct numerals. */
  lemma NatToStringInjective(a: nat, b: nat)
    requires NatToString(a) == NatToString(b)
    ensures a == b
  {
  }

  // ---------------------------------------------------------------------------
  // Occurrences
  // ---------------------------------------------------------------------------

  predicate StartsWith(s: string, p: string) {
    |p| <= |s| && s[..|p|] == p
  }

  predicate EndsWith(s: string, p: string) {
    |p| <= |s| && s[|s| - |p|..] == p
  }

  /** `w` occurs in `s` starting at index `k`. */
  predicate OccursAt(s: string, k: int, w: string) {
    0 <= k && k + |w| <= |s| && s[k..k + |w|] == w
  }

  /** Python's `w in s` for a substring `w`. */
  predicate ContainsSub(s: string, w: string) {
    exists k | 0 <= k <= |s| :: OccursAt(s, k, w)
  }

  lemma OccursShift(s: string, k: int, w: string)
    requires |s| > 0 && 0 <= k
    ensures OccursAt(s[1..], k, w) <==> OccursAt(s, k + 1, w)
  {
    if 0 <= k && k + |w| <= |s| - 1 {
      assert s[1..][k..k + |w|] == s[k + 1..k + 1 + |w|];
    }
  }

  /** `s.find(w)` as an option: the leftmost occurrence of `w`. */
  function FindSub(s: string, w: string): (r: Option<nat>)
    ensures r.Some? ==> OccursAt(s, r.value, w)
    ensures r.Some? ==> forall k :: 0 <= k < r.value ==> !OccursAt(s, k, w)
    ensures r.None? <==> !ContainsSub(s, w)
    decreases |s|
  {
    if |s| < |w| then None
    else if s[..|w|] == w then Some(0)
    else
      var rest := FindSub(s[1..], w);
      assert !OccursAt(s, 0, w);
      assert forall k :: 1 <= k <= |s| ==> (OccursAt(s[1..], k - 1, w) <==> OccursAt(s, k, w)) by {
        forall k | 1 <= k <= |s| ensures OccursAt(s[1..], k - 1, w) <==> OccursAt(s, k, w) {
          OccursShift(s, k - 1, w);
        }
      }
      if rest.None? then
        assert forall k :: 0 <= k <= |s| ==> !OccursAt(s, k, w) by {
          forall k | 1 <= k <= |s| ensures !OccursAt(s, k, w) {
            assert !OccursAt(s[1..], k - 1, w);
          }
        }
        None
      else
        var j := rest.value;
        assert forall k :: 0 <= k < j + 1 ==> !OccursAt(s, k, w) by {
          forall k | 1 <= k < j + 1 ensures !OccursAt(s, k, w) {
            assert !OccursAt(s[1..], k - 1, w);
          }
        }
        assert OccursAt(s, j + 1, w);
        Some(j + 1)
  }

  /** Number of occurrences of the character `c`. */
  function Count(s: string, c: char): nat {
    if |s| == 0 then 0 else (if s[0] == c then 1 else 0) + Count(s[1..], c)
  }

  lemma {:induction false} CountAppend(a: string, b: string, c: char)
    ensures Count(a + b, c) == Count(a, c) + Count(b, c)
    decreases |a|
  {
    if |a| > 0 {
      assert (a + b)[1..] == a[1..] + b;
      CountAppend(a[1..], b, c);
    } else {
      assert a + b == b;
    }
  }

  lemma CountZeroIffAbsent(s: string, c: char)
    ensures Count(s, c) == 0 <==> c !in s
  {
    if |s| > 0 {
      CountZeroIffAbsent(s[1..], c);
      assert s == [s[0]] + s[1..];
    }
  }

  /** Index of the first occurrence of `c`. */
  function IndexOf(s: string, c: char): (i: nat)
    requires c in s
    ensures i < |s| && s[i] == c
    ensures forall j :: 0 <= j < i ==> s[j] != c
  {
    if s[0] == c then 0 else
      var j := IndexOf(s[1..], c);
      assert forall k :: 1 <= k < j + 1 ==> s[k] == s[1..][k - 1];
      j + 1
  }

  // ---------------------------------------------------------------------------
  // split / join
  // ---------------------------------------------------------------------------

  /** `sep.join(parts)`. */
  function Join(parts: seq<string>, sep: string): string {
    if |parts| == 0 then ""
    else if |parts| == 1 then parts[0]
    else parts[0] + sep + Join(parts[1..], sep)
  }

  /** `s.split(c)` for a one-character separator: never empty, and the
      separator occurs in none of the pieces. */
  function Split(s: string, c: char): (r: seq<string>)
    ensures |r| >= 1
    ensures forall i :: 0 <= i < |r| ==> c !in r[i]
    ensures Join(r, [c]) == s
    decreases |s|
  {
    if |s| == 0 then [""]
    else
      var rest := Split(s[1..], c);
      if s[0] == c then
        assert s == [c] + s[1..];
        [""] + rest
      else
        var r := [[s[0]] + rest[0]] + rest[1..];
        assert r[1..] == rest[1..];
        assert s == [s[0]] + s[1..];
        r
  }

  lemma JoinCons(p: string, rest: seq<string>, sep: string)
    requires |rest| >= 1
    ensures Join([p] + rest, sep) == p + sep + Join(rest, sep)
  {
    assert ([p] + rest)[1..] == rest;
  }

  /** Splitting undoes joining: `Split` is a bijection between texts and
      non-empty lists of separator-free pieces. */
  lemma {:induction false} SplitJoin(parts: seq<string>, c: char)
    requires |parts| >= 1
    requires forall i :: 0 <= i < |parts| ==> c !in parts[i]
    ensures Split(Join(parts, [c]), c) == parts
    decreases |parts|, |parts[0]|
  {
    if |parts| == 1 {
      SplitNoSep(parts[0], c);
    } else if |parts[0]| == 0 {
      var tail := Join(parts[1..], [c]);
      assert Join(parts, [c]) == [c] + tail;
      assert ([c] + tail)[1..] == tail;
      SplitJoin(parts[1..], c);
      assert [""] + parts[1..] == parts;
    } else {
      var p := parts[0];
      var shorter := [p[1..]] + parts[1..];
      assert shorter[1..] == parts[1..];
      JoinCons(p[1..], parts[1..], [c]);
      assert Join(parts, [c]) == [p[0]] + Join(shorter, [c]);
      assert p[0] != c by { assert p[0] == parts[0][0]; }
      forall i | 0 <= i < |shorter| ensures c !in shorter[i] {
        if i == 0 {
          assert forall k | 0 <= k < |p[1..]| :: p[1..][k] == p[k + 1];
        } else {
          assert shorter[i] == parts[i];
        }
      }
      SplitJoin(shorter, c);
      assert ([p[0]] + Join(shorter, [c]))[1..] == Join(shorter, [c]);
      assert [p[0]] + p[1..] == p;
      assert [[p[0]] + shorter[0]] + shorter[1..] == parts;
    }
  }

  lemma {:induction false} SplitNoSep(s: string, c: char)
    requires c !in s
    ensures Split(s, c) == [s]
    decreases |s|
  {
    if |s| > 0 {
      assert c !in s[1..] by {
        forall k | 0 <= k < |s[1..]| ensures s[1..][k] != c { assert s[1..][k] == s[k + 1]; }
      }
      SplitNoSep(s[1..], c);
      assert [s[0]] + s[1..] == s;
    }
  }

  // ---------------------------------------------------------------------------
  // replace
  // ---------------------------------------------------------------------------

  /** `s.replace(pat, repl)`: every non-overlapping occurrence, scanning left to right. */
  function ReplaceAll(s: string, pat: string, repl: string): string
    requires |pat| > 0
    decreases |s|
  {
    if |s| < |pat| then s
    else if s[..|pat|] == pat then repl + ReplaceAll(s[|pat|..], pat, repl)
    else [s[0]] + ReplaceAll(s[1..], pat, repl)
  }

  /** A text in which `pat` does not occur is left unchanged by `ReplaceAll`. */
  lemma {:induction false} ReplaceAllAbsent(s: string, pat: string, repl: string)
    requires |pat| > 0
    requires !ContainsSub(s, pat)
    ensures ReplaceAll(s, pat, repl) == s
    decreases |s|
  {
    if |s| >= |pat| {
      assert !OccursAt(s, 0, pat);
      assert !ContainsSub(s[1..], pat) by {
        forall k | OccursAt(s[1..], k, pat) ensures false {
          assert s[1..][k..k + |pat|] == s[k + 1..k + 1 + |pat|];
          assert OccursAt(s, k + 1, pat);
        }
      }
      ReplaceAllAbsent(s[1..], pat, repl);
      assert [s[0]] + s[1..] == s;
    }
  }

  /** Replacing a one-character pattern by text without that character
      removes the character everywhere. */
  lemma {:induction false} ReplaceAllRemovesChar(s: string, c: char, repl: string)
    requires c !in repl
    ensures c !in ReplaceAll(s, [c], repl)
    decreases |s|
  {
    if |s| >= 1 {
      ReplaceAllRemovesChar(s[1..], c, repl);
    }
  }

  /** Replacing a one-character pattern distributes over concatenation. */
  lemma {:induction false} ReplaceCharAppend(a: string, b: string, c: char, repl: string)
    ensures ReplaceAll(a + b, [c], repl) == ReplaceAll(a, [c], repl) + ReplaceAll(b, [c], repl)
    decreases |a|
  {
    if |a| == 0 {
      assert a + b == b;
    } else {
      assert (a + b)[..1] == a[..1];
      assert (a + b)[1..] == a[1..] + b;
      ReplaceCharAppend(a[1..], b, c, repl);
    }
  }

  /** `s.replace(c, repl, 1)` for a one-character pattern. */
  function ReplaceFirstChar(s: string, c: char, repl: string): (r: string)
    ensures c !in s ==> r == s
    ensures c in s ==> r == s[..IndexOf(s, c)] + repl + s[IndexOf(s, c) + 1..]
  {
    if c !in s then s else
      var i := IndexOf(s, c);
      s[..i] + repl + s[i + 1..]
  }

  // ---------------------------------------------------------------------------
  // Padding and repetition
  // ---------------------------------------------------------------------------

  /** `s * n`. */
  function Repeat(s: string, n: nat): (r: string)
    ensures |r| == |s| * n
  {
    if n == 0 then "" else s + Repeat(s, n - 1)
  }

  function Spaces(n: nat): (r: string)
    ensures |r| == n && forall i :: 0 <= i < n ==> r[i] == ' '
  {
    if n == 0 then "" else " " + Spaces(n - 1)
  }

  /** Left-justify to width `w` with spaces. */
  function LJust(s: string, w: nat): (r: string)
    ensures |r| == if |s| >= w then |s| else w
    ensures r[..|s|] == s
    ensures forall i :: |s| <= i < |r| ==> r[i] == ' '
  {
    if |s| >= w then s else s + Spaces(w - |s|)
  }

  /** A character that is not a space survives stripping. */
  lemma StripKeeps(s: string, k: nat)
    requires k < |s| && !IsSpace(s[k])
    ensures s[k] in Strip(s)
  {
    var l := LStrip(s);
    var d := |s| - |l|;
    assert forall i :: 0 <= i < d ==> s[..d][i] == s[i];
    assert k >= d;
    assert l[k - d] == s[k];
    var r := RStrip(l);
    assert forall i :: |r| <= i < |l| ==> l[|r|..][i - |r|] == l[i];
    assert k - d < |r|;
    assert r[k - d] == s[k];
  }
}
