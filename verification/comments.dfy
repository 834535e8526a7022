/** Inline `/* ... */` comments in rule targets (`_extract_inline_comments`,
    `_restore_inline_comments`). A rule's target is stored with every comment
    replaced by a placeholder `__COMMENT_<i>__`, so that the `*` characters a
    comment holds are not taken for capture slots; the comments are put back
    after substitution. */
module Comments {
  import opened Wrappers
  import opened Strings

  /** The placeholder text for the `i`-th comment of a target. */
  function Placeholder(i: nat): string {
    "__COMMENT_" + NatToString(i) + "__"
  }

  /** A comment as it is written back: `/*` + content + `*/`. */
  function Wrap(c: string): string {
    "/*" + c + "*/"
  }

  datatype Extraction = Extraction(text: string, comments: seq<string>)

  /** Total number of `*` characters the comments held, delimiters included. */
  function CommentStars(cs: seq<string>): nat {
    if |cs| == 0 then 0 else Count(cs[0], '*') + 2 + CommentStars(cs[1..])
  }

  /** The regex substitution scanning `s` left to right, numbering the
      comments it replaces from `n`. At each position a comment is `/*`
      followed by the shortest text that reaches a `*/`; where there is none,
      the character is kept and the scan moves on by one. */
  function ExtractFrom(s: string, n: nat): Extraction
    decreases |s|
  {
    if CommentAt(s) then
      var j := FindSub(s[2..], "*/").value;
      var rest := ExtractFrom(s[j + 4..], n + 1);
      Extraction(Placeholder(n) + rest.text, [s[2..j + 2]] + rest.comments)
    else if |s| == 0 then Extraction("", [])
    else
      var rest := ExtractFrom(s[1..], n);
      Extraction([s[0]] + rest.text, rest.comments)
  }

  // No stored comment holds a closing delimiter: each one ends at the first
  // closing delimiter after its opening.
  lemma {:induction false} ExtractedCommentsClosed(s: string, n: nat)
    ensures forall i :: 0 <= i < |ExtractFrom(s, n).comments| ==> !ContainsSub(ExtractFrom(s, n).comments[i], "*/")
    decreases |s|
  {
    if CommentAt(s) {
      var j := FindSub(s[2..], "*/").value;
      var cs := ExtractFrom(s[j + 4..], n + 1).comments;
      assert ExtractFrom(s, n).comments == [s[2..j + 2]] + cs;
      ExtractedCommentsClosed(s[j + 4..], n + 1);
      assert s[2..][..j] == s[2..j + 2];
      ClosedCons(s[2..], j, cs);
    } else if |s| > 0 {
      assert ExtractFrom(s, n).comments == ExtractFrom(s[1..], n).comments;
      ExtractedCommentsClosed(s[1..], n);
    }
  }

  /** Every `*` of the target is either left in the text or held by a comment
      (its delimiters included); placeholders hold none. */
  lemma {:induction false} ExtractKeepsStars(s: string, n: nat)
    ensures Count(s, '*') == Count(ExtractFrom(s, n).text, '*') + CommentStars(ExtractFrom(s, n).comments)
    decreases |s|
  {
    if CommentAt(s) {
      var j := FindSub(s[2..], "*/").value;
      var rest := ExtractFrom(s[j + 4..], n + 1);
      assert ExtractFrom(s, n) == Extraction(Placeholder(n) + rest.text, [s[2..j + 2]] + rest.comments);
      ExtractKeepsStars(s[j + 4..], n + 1);
      PlaceholderNoStar(n);
      assert s[2..][j..j + 2] == s[j + 2..j + 4];
      ExtractStars(s, j, Placeholder(n), rest.text, rest.comments);
    } else if |s| > 0 {
      assert ExtractFrom(s, n) == Extraction([s[0]] + ExtractFrom(s[1..], n).text, ExtractFrom(s[1..], n).comments);
      ExtractKeepsStars(s[1..], n);
      PlainStars(s, ExtractFrom(s[1..], n).text);
    }
  }

  /** `_extract_inline_comments`: the placeholder text and the comment contents. */
  function Extract(target: string): Extraction {
    ExtractFrom(target, 0)
  }

  /** `_restore_inline_comments` from comment number `n` on: each placeholder
      in turn is replaced everywhere by its wrapped comment. */
  function RestoreFrom(text: string, comments: seq<string>, n: nat): string
    decreases |comments|
  {
    if |comments| == 0 then text
    else RestoreFrom(ReplaceAll(text, Placeholder(n), Wrap(comments[0])), comments[1..], n + 1)
  }

  function Restore(text: string, comments: seq<string>): string {
    RestoreFrom(text, comments, 0)
  }

  // ---------------------------------------------------------------------------
  // Helper facts for the extraction's contract
  // ---------------------------------------------------------------------------

  // The text before the first closing delimiter holds no closing delimiter.
  lemma ClosingFree(u: string, j: nat)
    requires OccursAt(u, j, "*/")
    requires forall k :: 0 <= k < j ==> !OccursAt(u, k, "*/")
    ensures !ContainsSub(u[..j], "*/")
  {
    forall k | 0 <= k <= j ensures !OccursAt(u[..j], k, "*/") {
      if k + 2 <= j {
        assert u[..j][k..k + 2] == u[k..k + 2];
        assert !OccursAt(u, k, "*/");
      }
    }
  }

  lemma ClosedCons(u: string, j: nat, cs: seq<string>)
    requires OccursAt(u, j, "*/") && forall k :: 0 <= k < j ==> !OccursAt(u, k, "*/")
    requires forall i :: 0 <= i < |cs| ==> !ContainsSub(cs[i], "*/")
    ensures forall i :: 0 <= i < |[u[..j]] + cs| ==> !ContainsSub(([u[..j]] + cs)[i], "*/")
  {
    ClosingFree(u, j);
    ConsClosingFree(u[..j], cs);
  }

  lemma ConsClosingFree(c: string, cs: seq<string>)
    requires !ContainsSub(c, "*/")
    requires forall i :: 0 <= i < |cs| ==> !ContainsSub(cs[i], "*/")
    ensures forall i :: 0 <= i < |[c] + cs| ==> !ContainsSub(([c] + cs)[i], "*/")
  {
    forall i | 0 <= i < |[c] + cs| ensures !ContainsSub(([c] + cs)[i], "*/") {
      if i > 0 { assert ([c] + cs)[i] == cs[i - 1]; }
    }
  }

  lemma PlainStars(s: string, text: string)
    requires |s| > 0
    ensures Count(s, '*') - Count(s[1..], '*') == Count([s[0]] + text, '*') - Count(text, '*')
  {
    assert s == [s[0]] + s[1..];
    CountAppend([s[0]], s[1..], '*');
    CountAppend([s[0]], text, '*');
  }

  lemma PlaceholderNoStar(i: nat)
    ensures Count(Placeholder(i), '*') == 0
  {
    var d := NatToString(i);
    assert '*' !in d by {
      forall k | 0 <= k < |d| ensures d[k] != '*' { assert IsDigit(d[k]); }
    }
    assert '*' !in Placeholder(i);
    CountZeroIffAbsent(Placeholder(i), '*');
  }

  lemma WrapStars(c: string)
    ensures Count(Wrap(c), '*') == Count(c, '*') + 2
  {
    CountAppend("/*" + c, "*/", '*');
    CountAppend("/*", c, '*');
    assert Count("/*", '*') == 1;
    assert Count("*/", '*') == 1;
  }

  lemma WrappedComment(s: string, j: nat)
    requires |s| >= j + 4 && s[..2] == "/*" && s[j + 2..j + 4] == "*/"
    ensures s == Wrap(s[2..j + 2]) + s[j + 4..]
  {
    var c := s[2..j + 2];
    assert s[..j + 4] == Wrap(c) by {
      assert |s[..j + 4]| == |Wrap(c)|;
      forall k | 0 <= k < j + 4 ensures s[..j + 4][k] == Wrap(c)[k] {
        if k < 2 { assert s[k] == s[..2][k]; }
        else if k >= j + 2 { assert s[k] == s[j + 2..j + 4][k - j - 2]; }
      }
    }
    assert s == s[..j + 4] + s[j + 4..];
  }

  lemma CommentStarsCons(c: string, cs: seq<string>)
    ensures CommentStars([c] + cs) == Count(c, '*') + 2 + CommentStars(cs)
  {
    assert ([c] + cs)[1..] == cs;
  }

  lemma ExtractStars(s: string, j: nat, p: string, text: string, cs: seq<string>)
    requires |s| >= j + 4 && s[..2] == "/*" && s[j + 2..j + 4] == "*/"
    requires Count(p, '*') == 0
    requires Count(s[j + 4..], '*') == Count(text, '*') + CommentStars(cs)
    ensures Count(s, '*') == Count(p + text, '*') + CommentStars([s[2..j + 2]] + cs)
  {
    WrappedComment(s, j);
    WrappedStars(s[2..j + 2], s[j + 4..], p, text, cs);
  }

  lemma WrappedStars(c: string, rest: string, p: string, text: string, cs: seq<string>)
    requires Count(p, '*') == 0
    requires Count(rest, '*') == Count(text, '*') + CommentStars(cs)
    ensures Count(Wrap(c) + rest, '*') == Count(p + text, '*') + CommentStars([c] + cs)
  {
    CountAppend(Wrap(c), rest, '*');
    WrapStars(c);
    CommentStarsCons(c, cs);
    CountAppend(p, text, '*');
  }

  // ---------------------------------------------------------------------------
  // Round trip: restoring the placeholders gives back the target
  // ---------------------------------------------------------------------------

  const Word: string := "COMMENT"

  /** The scan replaces a comment at the front of `s`. */
  predicate CommentAt(s: string) {
    |s| >= 2 && s[..2] == "/*" && FindSub(s[2..], "*/").Some?
  }

  /** One step of the scan, unfolded. */
  lemma ExtractStep(s: string, n: nat)
    ensures CommentAt(s) ==>
      var j := FindSub(s[2..], "*/").value;
      ExtractFrom(s, n).text == Placeholder(n) + ExtractFrom(s[j + 4..], n + 1).text &&
      ExtractFrom(s, n).comments == [s[2..j + 2]] + ExtractFrom(s[j + 4..], n + 1).comments
    ensures !CommentAt(s) && |s| > 0 ==>
      ExtractFrom(s, n).text == [s[0]] + ExtractFrom(s[1..], n).text &&
      ExtractFrom(s, n).comments == ExtractFrom(s[1..], n).comments
    ensures |s| == 0 ==> ExtractFrom(s, n) == Extraction("", [])
  {
  }

  lemma PlaceholderShape(i: nat)
    ensures |Placeholder(i)| >= 13
    ensures Placeholder(i)[0] == '_' && Placeholder(i)[1] == '_'
    ensures Placeholder(i)[2..9] == Word
    ensures forall k :: 3 <= k < |Placeholder(i)| ==> Placeholder(i)[k] != 'C'
    ensures Placeholder(i)[|Placeholder(i)| - 2] == '_' && Placeholder(i)[|Placeholder(i)| - 1] == '_'
  {
    var d := NatToString(i);
    var p := Placeholder(i);
    assert p == "__COMMENT_" + d + "__";
    forall k | 10 <= k < 10 + |d| ensures p[k] != 'C' {
      assert p[k] == d[k - 10];
      assert IsDigit(d[k - 10]);
    }
  }

  /** Distinct numbers give placeholders neither of which starts the other. */
  lemma PlaceholdersDistinct(i: nat, j: nat, x: string)
    requires i != j
    ensures !StartsWith(Placeholder(j) + x, Placeholder(i))
  {
    var di, dj := NatToString(i), NatToString(j);
    if |di| == |dj| {
      NatToStringDistinct(i, j);
      SameLengthDiffer(di, dj, x);
    } else {
      LengthsDiffer(di, dj, x);
    }
  }

  lemma SameLengthDiffer(di: string, dj: string, x: string)
    requires |di| == |dj| && di != dj
    ensures !StartsWith("__COMMENT_" + dj + "__" + x, "__COMMENT_" + di + "__")
  {
    var m :| 0 <= m < |di| && di[m] != dj[m];
    DigitsDiffer(di, dj, x, 10 + m);
  }

  lemma LengthsDiffer(di: string, dj: string, x: string)
    requires |di| != |dj| && IsDigits(di) && IsDigits(dj)
    ensures !StartsWith("__COMMENT_" + dj + "__" + x, "__COMMENT_" + di + "__")
  {
    if |di| < |dj| {
      assert IsDigit(dj[|di|]);
      DigitsDiffer(di, dj, x, 10 + |di|);
    } else {
      assert IsDigit(di[|dj|]);
      DigitsDiffer(di, dj, x, 10 + |dj|);
    }
  }

  lemma DigitsDiffer(di: string, dj: string, x: string, k: nat)
    requires 10 <= k < 12 + |di| && k < 12 + |dj|
    requires ("__COMMENT_" + di + "__")[k] != ("__COMMENT_" + dj + "__" + x)[k]
    ensures !StartsWith("__COMMENT_" + dj + "__" + x, "__COMMENT_" + di + "__")
  {
    var pi, y := "__COMMENT_" + di + "__", "__COMMENT_" + dj + "__" + x;
    if |pi| <= |y| {
      assert y[..|pi|][k] == y[k];
    }
  }

  lemma NatToStringDistinct(a: nat, b: nat)
    requires a != b
    ensures NatToString(a) != NatToString(b)
  {
  }

  lemma CommentFreeSuffix(s: string, k: nat)
    requires k <= |s| && !ContainsSub(s, Word)
    ensures !ContainsSub(s[k..], Word)
  {
    forall m | 0 <= m <= |s[k..]| ensures !OccursAt(s[k..], m, Word) {
      if m + |Word| <= |s[k..]| {
        assert s[k..][m..m + |Word|] == s[k + m..k + m + |Word|];
        assert !OccursAt(s, k + m, Word);
      }
    }
  }

  lemma CommentFreePrefix(s: string, k: nat)
    requires k <= |s| && !ContainsSub(s, Word)
    ensures !ContainsSub(s[..k], Word)
  {
    forall m | 0 <= m <= k ensures !OccursAt(s[..k], m, Word) {
      if m + |Word| <= k {
        assert s[..k][m..m + |Word|] == s[m..m + |Word|];
        assert !OccursAt(s, m, Word);
      }
    }
  }

  /** The extracted text starts with an underscore-free word only where the
      target itself does: placeholders all begin with `_`. */
  lemma {:induction false} TextPrefix(s: string, n: nat, w: string)
    requires '_' !in w
    ensures StartsWith(ExtractFrom(s, n).text, w) ==> StartsWith(s, w)
    decreases |s|
  {
    var t := ExtractFrom(s, n).text;
    if |w| > 0 && StartsWith(t, w) {
      PlainHead(s, n, w);
      assert '_' !in w[1..] by {
        forall k | 0 <= k < |w[1..]| ensures w[1..][k] != '_' { assert w[1..][k] == w[k + 1]; }
      }
      TextPrefix(s[1..], n, w[1..]);
      PrefixStep(s, ExtractFrom(s[1..], n).text, w);
    }
  }

  lemma PrefixStep(s: string, x: string, w: string)
    requires |s| > 0 && |w| > 0 && StartsWith([s[0]] + x, w)
    requires StartsWith(x, w[1..]) ==> StartsWith(s[1..], w[1..])
    ensures StartsWith(s, w)
  {
    var t := [s[0]] + x;
    assert s[0] == w[0] by {
      assert t[0] == s[0] && t[..|w|][0] == w[0];
    }
    assert x[..|w| - 1] == w[1..] by {
      assert t[..|w|] == w;
      assert x[..|w| - 1] == t[1..|w|] == t[..|w|][1..];
    }
    assert s[..|w|] == [s[0]] + s[1..][..|w| - 1];
  }

  /** Extracted text starting with an underscore-free word did not start
      with a comment. */
  lemma PlainHead(s: string, n: nat, w: string)
    requires '_' !in w && |w| > 0 && StartsWith(ExtractFrom(s, n).text, w)
    ensures |s| > 0 && ExtractFrom(s, n).text == [s[0]] + ExtractFrom(s[1..], n).text
  {
    var t := ExtractFrom(s, n).text;
    ExtractStep(s, n);
    PlaceholderShape(n);
    assert t[..|w|] == w;
    assert t[0] == w[0];
  }

  lemma TextUnderscorePrefix(s: string, n: nat, w: string)
    requires '_' !in w && |w| > 0
    ensures StartsWith(ExtractFrom(s, n).text, "_" + w) ==> StartsWith(s, "_" + w)
  {
    var t := ExtractFrom(s, n).text;
    var u := "_" + w;
    if StartsWith(t, u) {
      UnderscoreHead(s, n, w);
      var x := ExtractFrom(s[1..], n).text;
      assert t == [s[0]] + x;
      assert s[0] == '_' by {
        assert t[0] == s[0] && t[..|u|][0] == u[0];
      }
      assert x[..|w|] == w by {
        assert t[..|u|] == u && u[1..] == w;
        assert x[..|w|] == t[1..|w| + 1] == t[..|u|][1..];
      }
      UnderscoreStep(s, x, w, n);
    }
  }

  /** Extracted text starting with `_` and an underscore-free word did not
      start with a comment. */
  lemma UnderscoreHead(s: string, n: nat, w: string)
    requires '_' !in w && |w| > 0 && StartsWith(ExtractFrom(s, n).text, "_" + w)
    ensures |s| > 0 && ExtractFrom(s, n).text == [s[0]] + ExtractFrom(s[1..], n).text
  {
    var t := ExtractFrom(s, n).text;
    var u := "_" + w;
    ExtractStep(s, n);
    PlaceholderShape(n);
    assert t[..|u|] == u;
    assert t[1] == w[0];
  }

  lemma UnderscoreStep(s: string, x: string, w: string, n: nat)
    requires |s| > 0 && s[0] == '_' && StartsWith(x, w) && '_' !in w
    requires x == ExtractFrom(s[1..], n).text
    ensures StartsWith(s, "_" + w)
  {
    TextPrefix(s[1..], n, w);
    assert s[..|w| + 1] == [s[0]] + s[1..][..|w|];
  }

  /** Replacing in `q + x` leaves `q` alone when no occurrence starts in it. */
  lemma {:induction false} ReplaceAllAfterPrefix(q: string, x: string, pat: string, repl: string)
    requires |pat| > 0
    requires forall k :: 0 <= k < |q| ==> !StartsWith((q + x)[k..], pat)
    ensures ReplaceAll(q + x, pat, repl) == q + ReplaceAll(x, pat, repl)
    decreases |q|
  {
    if |q| > 0 {
      var y := q[1..] + x;
      assert q + x == [q[0]] + y;
      assert !StartsWith([q[0]] + y, pat) by { assert (q + x)[0..] == q + x; }
      forall k | 0 <= k < |q[1..]| ensures !StartsWith(y[k..], pat) {
        assert y[k..] == (q + x)[k + 1..];
      }
      ReplaceAllAfterPrefix(q[1..], x, pat, repl);
      ReplaceHead(q[0], y, pat, repl);
      assert q == [q[0]] + q[1..];
    } else {
      assert q + x == x;
    }
  }

  /** A character that does not start an occurrence is kept. */
  lemma ReplaceHead(c: char, y: string, pat: string, repl: string)
    requires |pat| > 0 && !StartsWith([c] + y, pat)
    ensures ReplaceAll([c] + y, pat, repl) == [c] + ReplaceAll(y, pat, repl)
  {
    var s := [c] + y;
    assert s[1..] == y;
  }

  /** A placeholder cannot start inside a comment-free text followed by `__`. */
  lemma PlaceholderNotInPrefix(q: string, y: string, i: nat)
    requires !ContainsSub(q, Word)
    requires |y| >= 2 && y[0] == '_' && y[1] == '_'
    ensures forall k :: 0 <= k < |q| ==> !StartsWith((q + y)[k..], Placeholder(i))
  {
    PlaceholderShape(i);
    var p := Placeholder(i);
    var z := q + y;
    forall k | 0 <= k < |q| ensures !StartsWith(z[k..], p) {
      if |p| <= |z[k..]| {
        var h := z[k..][..|p|];
        if k + 9 <= |q| {
          assert !OccursAt(q, k + 2, Word);
          assert h[2..9] == z[k + 2..k + 9];
          assert z[k + 2..k + 9] == q[k + 2..k + 9];
        } else if k + 2 <= |q| {
          assert h[|q| - k] == z[|q|] == y[0];
          assert p[|q| - k] == Word[|q| - k - 2];
        } else {
          assert h[2] == z[k + 2] == y[1];
        }
      }
    }
  }

  /** An underscore followed by extracted text never starts a placeholder. */
  lemma NoPlaceholderAfterChar(c: char, s: string, m: nat, i: nat)
    requires !ContainsSub(s, Word)
    ensures !StartsWith([c] + ExtractFrom(s, m).text, Placeholder(i))
  {
    TextUnderscorePrefix(s, m, Word);
    WordFreeStart(s);
    NotPlaceholderAfter(c, ExtractFrom(s, m).text, i);
  }

  lemma NotPlaceholderAfter(c: char, x: string, i: nat)
    requires !StartsWith(x, "_" + Word)
    ensures !StartsWith([c] + x, Placeholder(i))
  {
    var p := Placeholder(i);
    PlaceholderShape(i);
    if |p| <= |[c] + x| {
      assert p[1..9] == "_" + Word;
      assert x[..8] != "_" + Word;
      assert ([c] + x)[..|p|][1..9] == x[..8];
    }
  }

  /** No other placeholder starts inside placeholder `m` when what follows
      it does not start with the word or with an underscore and the word. */
  lemma NoPlaceholderInsideAt(m: nat, i: nat, x: string, k: nat)
    requires i != m && k < |Placeholder(m)|
    requires !StartsWith(x, Word) && !StartsWith(x, "_" + Word)
    ensures !StartsWith((Placeholder(m) + x)[k..], Placeholder(i))
  {
    var q := Placeholder(m);
    PlaceholderShape(m);
    if k == 0 {
      assert (q + x)[0..] == q + x;
      PlaceholdersDistinct(i, m, x);
    } else if k <= |q| - 3 {
      assert (q + x)[k..][2] == q[k + 2];
      NoCAtTwo((q + x)[k..], i);
    } else if k == |q| - 2 {
      var y := "_" + x;
      assert (q + x)[k..] == [q[k]] + y;
      assert !StartsWith(y, "_" + Word) by {
        if |y| >= 8 { assert y[..8][1..] == x[..7]; }
      }
      NotPlaceholderAfter(q[k], y, i);
    } else {
      assert (q + x)[k..] == [q[k]] + x;
      NotPlaceholderAfter(q[k], x, i);
    }
  }

  lemma NoCAtTwo(z: string, i: nat)
    requires |z| > 2 && z[2] != 'C'
    ensures !StartsWith(z, Placeholder(i))
  {
    PlaceholderShape(i);
    assert Placeholder(i)[2] == Placeholder(i)[2..9][0] == 'C';
  }

  lemma NoPlaceholderInside(m: nat, i: nat, s: string, x: string)
    requires i != m && !ContainsSub(s, Word)
    requires x == ExtractFrom(s, m + 1).text
    ensures forall k :: 0 <= k < |Placeholder(m)| ==> !StartsWith((Placeholder(m) + x)[k..], Placeholder(i))
  {
    TextPrefix(s, m + 1, Word);
    TextUnderscorePrefix(s, m + 1, Word);
    WordFreeStart(s);
    NoPlaceholderInsideText(m, i, x);
  }

  lemma WordFreeStart(s: string)
    requires !ContainsSub(s, Word)
    ensures !StartsWith(s, Word) && !StartsWith(s, "_" + Word)
  {
    assert !OccursAt(s, 0, Word) && !OccursAt(s, 1, Word);
    assert !StartsWith(s, "_" + Word) by {
      if |s| >= 8 { assert s[..8][1..] == s[1..8]; }
    }
  }

  lemma NoPlaceholderInsideText(m: nat, i: nat, x: string)
    requires i != m && !StartsWith(x, Word) && !StartsWith(x, "_" + Word)
    ensures forall k :: 0 <= k < |Placeholder(m)| ==> !StartsWith((Placeholder(m) + x)[k..], Placeholder(i))
  {
    forall k | 0 <= k < |Placeholder(m)| ensures !StartsWith((Placeholder(m) + x)[k..], Placeholder(i)) {
      NoPlaceholderInsideAt(m, i, x, k);
    }
  }

  /** A placeholder numbered below `m` occurs nowhere in the text extracted
      with numbers from `m` on. */
  lemma {:induction false} EarlierPlaceholderAbsent(s: string, m: nat, i: nat, r: string)
    requires i < m && !ContainsSub(s, Word)
    ensures ReplaceAll(ExtractFrom(s, m).text, Placeholder(i), r) == ExtractFrom(s, m).text
    decreases |s|
  {
    PlaceholderShape(i);
    if CommentAt(s) {
      var j := FindSub(s[2..], "*/").value;
      var s' := s[j + 4..];
      assert ExtractFrom(s, m).text == Placeholder(m) + ExtractFrom(s', m + 1).text;
      CommentFreeSuffix(s, j + 4);
      EarlierPlaceholderAbsent(s', m + 1, i, r);
      AbsentCommentStep(s', m, i, r);
    } else if |s| > 0 {
      assert ExtractFrom(s, m).text == [s[0]] + ExtractFrom(s[1..], m).text;
      CommentFreeSuffix(s, 1);
      EarlierPlaceholderAbsent(s[1..], m, i, r);
      AbsentPlainStep(s[0], s[1..], m, i, r);
    }
  }

  lemma AbsentCommentStep(s': string, m: nat, i: nat, r: string)
    requires i < m && !ContainsSub(s', Word)
    requires ReplaceAll(ExtractFrom(s', m + 1).text, Placeholder(i), r) == ExtractFrom(s', m + 1).text
    ensures ReplaceAll(Placeholder(m) + ExtractFrom(s', m + 1).text, Placeholder(i), r) ==
      Placeholder(m) + ExtractFrom(s', m + 1).text
  {
    NoPlaceholderInside(m, i, s', ExtractFrom(s', m + 1).text);
    AbsentAfterPlaceholder(m, i, ExtractFrom(s', m + 1).text, r);
  }

  lemma AbsentPlainStep(c: char, s1: string, m: nat, i: nat, r: string)
    requires !ContainsSub(s1, Word)
    requires ReplaceAll(ExtractFrom(s1, m).text, Placeholder(i), r) == ExtractFrom(s1, m).text
    ensures ReplaceAll([c] + ExtractFrom(s1, m).text, Placeholder(i), r) == [c] + ExtractFrom(s1, m).text
  {
    PlaceholderShape(i);
    NoPlaceholderAfterChar(c, s1, m, i);
    PlainCharKept(c, ExtractFrom(s1, m).text, Placeholder(i), r);
  }

  lemma AbsentAfterPlaceholder(m: nat, i: nat, x: string, r: string)
    requires forall k :: 0 <= k < |Placeholder(m)| ==> !StartsWith((Placeholder(m) + x)[k..], Placeholder(i))
    requires ReplaceAll(x, Placeholder(i), r) == x
    ensures ReplaceAll(Placeholder(m) + x, Placeholder(i), r) == Placeholder(m) + x
  {
    PlaceholderShape(i);
    ReplaceAllAfterPrefix(Placeholder(m), x, Placeholder(i), r);
  }

  lemma PlainCharKept(c: char, x: string, p: string, r: string)
    requires |p| > 0 && !StartsWith([c] + x, p)
    ensures ReplaceAll([c] + x, p, r) == [c] + ReplaceAll(x, p, r)
  {
    ReplaceHead(c, x, p, r);
  }

  /** Restoring placeholder `n` after a restored, comment-free prefix `q`
      turns it back into its comment when it occurs nowhere after it. */
  lemma RestoreFirst(q: string, x: string, n: nat, w: string)
    requires !ContainsSub(q, Word) && ReplaceAll(x, Placeholder(n), w) == x
    ensures ReplaceAll(q + Placeholder(n) + x, Placeholder(n), w) == q + w + x
  {
    var p := Placeholder(n);
    PlaceholderShape(n);
    PlaceholderNotInPrefix(q, p + x, n);
    assert q + (p + x) == q + p + x;
    ReplaceAllAfterPrefix(q, p + x, p, w);
    assert (p + x)[..|p|] == p;
    assert (p + x)[|p|..] == x;
    assert q + (w + x) == q + w + x;
  }

  lemma CommentSplit(q: string, s: string)
    requires CommentAt(s)
    ensures
      var j := FindSub(s[2..], "*/").value;
      q + s == (q + Wrap(s[2..j + 2])) + s[j + 4..]
  {
    var j := FindSub(s[2..], "*/").value;
    assert s[2..][j..j + 2] == s[j + 2..j + 4];
    WrappedComment(s, j);
    ConcatAssoc(q, Wrap(s[2..j + 2]), s[j + 4..]);
  }

  /** The comment step of the round trip, given the round trip for the rest. */
  lemma RestoreCommentStep(q: string, s: string, n: nat)
    requires CommentAt(s) && !ContainsSub(q + s, Word)
    requires
      var j := FindSub(s[2..], "*/").value;
      var e' := ExtractFrom(s[j + 4..], n + 1);
      RestoreFrom((q + Wrap(s[2..j + 2])) + e'.text, e'.comments, n + 1) == (q + Wrap(s[2..j + 2])) + s[j + 4..]
    ensures RestoreFrom(q + ExtractFrom(s, n).text, ExtractFrom(s, n).comments, n) == q + s
  {
    ExtractStep(s, n);
    var j := FindSub(s[2..], "*/").value;
    var c := s[2..j + 2];
    var s' := s[j + 4..];
    CommentFreePrefix(q + s, |q|);
    assert (q + s)[..|q|] == q;
    CommentFreeSuffix(q + s, |q|);
    assert (q + s)[|q|..] == s;
    CommentFreeSuffix(s, j + 4);
    EarlierPlaceholderAbsent(s', n + 1, n, Wrap(c));
    CommentSplit(q, s);
    RestoreOne(q, c, ExtractFrom(s', n + 1), n, s');
  }

  /** Restoring comment `n` and then the rest. */
  lemma RestoreOne(q: string, c: string, e': Extraction, n: nat, rest: string)
    requires !ContainsSub(q, Word) && ReplaceAll(e'.text, Placeholder(n), Wrap(c)) == e'.text
    requires RestoreFrom((q + Wrap(c)) + e'.text, e'.comments, n + 1) == (q + Wrap(c)) + rest
    ensures RestoreFrom(q + (Placeholder(n) + e'.text), [c] + e'.comments, n) == (q + Wrap(c)) + rest
  {
    RestoreFirst(q, e'.text, n, Wrap(c));
    assert q + (Placeholder(n) + e'.text) == q + Placeholder(n) + e'.text;
    assert ([c] + e'.comments)[1..] == e'.comments;
  }

  /** Generalised round trip: with a comment-free text `q` already restored in
      front, restoring the rest gives back `q + s`. */
  lemma {:induction false} RestoreExtractFrom(q: string, s: string, n: nat)
    requires !ContainsSub(q + s, Word)
    ensures RestoreFrom(q + ExtractFrom(s, n).text, ExtractFrom(s, n).comments, n) == q + s
    decreases |s|
  {
    if CommentAt(s) {
      var j := FindSub(s[2..], "*/").value;
      var c := s[2..j + 2];
      CommentSplit(q, s);
      RestoreExtractFrom(q + Wrap(c), s[j + 4..], n + 1);
      RestoreCommentStep(q, s, n);
    } else if |s| > 0 {
      ConcatAssoc(q, [s[0]], s[1..]);
      assert [s[0]] + s[1..] == s;
      RestoreExtractFrom(q + [s[0]], s[1..], n);
      RestorePlainStep(q, s, n);
    } else {
      assert q + s == q;
    }
  }

  /** The plain-character step of the round trip, given the round trip for the rest. */
  lemma RestorePlainStep(q: string, s: string, n: nat)
    requires !CommentAt(s) && |s| > 0
    requires RestoreFrom((q + [s[0]]) + ExtractFrom(s[1..], n).text, ExtractFrom(s[1..], n).comments, n) == (q + [s[0]]) + s[1..]
    ensures RestoreFrom(q + ExtractFrom(s, n).text, ExtractFrom(s, n).comments, n) == q + s
  {
    ExtractStep(s, n);
    var x := ExtractFrom(s[1..], n).text;
    assert ExtractFrom(s, n).text == [s[0]] + x;
    ConcatAssoc(q, [s[0]], x);
    ConcatAssoc(q, [s[0]], s[1..]);
    assert [s[0]] + s[1..] == s;
  }

  lemma ConcatAssoc(a: string, b: string, c: string)
    ensures a + (b + c) == (a + b) + c
  {
  }

  /** Restoring the comments of an extraction gives back the original target,
      for every target in which the word `COMMENT` does not occur (a target
      that already spells a placeholder can be rewritten by the restore). */
  lemma RestoreExtract(target: string)
    requires !ContainsSub(target, Word)
    ensures Restore(Extract(target).text, Extract(target).comments) == target
  {
    assert "" + target == target;
    RestoreExtractFrom("", target, 0);
    assert "" + Extract(target).text == Extract(target).text;
  }

  /** A target without a `*` holds no comment: extraction leaves it as it is. */
  lemma {:induction false} ExtractStarFree(s: string, n: nat)
    requires '*' !in s
    ensures ExtractFrom(s, n) == Extraction(s, [])
    decreases |s|
  {
    ExtractStep(s, n);
    if |s| > 0 {
      assert !CommentAt(s) by {
        if |s| >= 2 { assert s[1] != '*'; assert s[..2][1] == s[1]; }
      }
      assert '*' !in s[1..] by {
        forall k | 0 <= k < |s[1..]| ensures s[1..][k] != '*' { assert s[1..][k] == s[k + 1]; }
      }
      ExtractStarFree(s[1..], n);
      assert [s[0]] + s[1..] == s;
    }
  }

  /** Once a comment has been replaced, the text holds the `_` of its
      placeholder. */
  lemma {:induction false} ExtractUnderscore(s: string, n: nat)
    requires |ExtractFrom(s, n).comments| > 0
    ensures '_' in ExtractFrom(s, n).text
    decreases |s|
  {
    if CommentAt(s) {
      var j := FindSub(s[2..], "*/").value;
      PlaceholderShape(n);
      var t := Placeholder(n) + ExtractFrom(s[j + 4..], n + 1).text;
      assert ExtractFrom(s, n).text == t;
      assert t[0] == '_';
    } else if |s| > 0 {
      var x := ExtractFrom(s[1..], n).text;
      assert ExtractFrom(s, n).text == [s[0]] + x;
      ExtractUnderscore(s[1..], n);
      UnderscoreCons(s[0], x);
    }
  }

  lemma UnderscoreCons(c: char, x: string)
    requires '_' in x
    ensures '_' in [c] + x
  {
    var k :| 0 <= k < |x| && x[k] == '_';
    assert ([c] + x)[k + 1] == '_';
  }
}
