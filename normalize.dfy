/** The normalisers of app.js: `normalizeModTitle`, `normalizeImageUrl` and
    `escapeHtml`. */
module Normalize {
  import opened Strings

  // ---------------------------------------------------------------------
  // normalizeModTitle

  predicate IsOpenBracket(c: char) { c == '[' }

  predicate IsCloseBracket(c: char) { c == ']' }

  /** End of a match of `/!\[Image[^\]]*\]\([^)]*\)/i` at `i`. The class
      `[^\]]*` can only stop at the first `]`, and `[^)]*` at the first `)`
      after the `(`, so the match is fixed by those two searches. */
  function ImageMarkupEnd(s: string, i: nat): (r: Option<nat>)
    ensures r.Some? ==> i < r.value <= |s| && CiStartsAt(s, i, "![image") && s[r.value - 1] == ')'
  {
    if !CiStartsAt(s, i, "![image") then None
    else
      var j := IndexOf(s, "]", i + 7);
      if j < 0 || j + 1 >= |s| || s[j + 1] != '(' then None
      else
        var k := IndexOf(s, ")", j + 2);
        if k < 0 then None else Some(k + 1)
  }

  /** The global replacement of that pattern by one space, scanning from `i`
      the way `String.prototype.replace` does: after a match the scan goes
      on where the match ended. */
  function ReplaceImageMarkup(s: string, i: nat): string
    requires i <= |s|
    decreases |s| - i
  {
    if i == |s| then ""
    else match ImageMarkupEnd(s, i)
      case Some(e) => " " + ReplaceImageMarkup(s, e)
      case None => [s[i]] + ReplaceImageMarkup(s, i + 1)
  }

  /** End of a match of `/^Image\s+\d+\]\([^)]*\)\.?/i`. Both runs are
      followed by a character their class excludes, so each takes all of
      it. */
  function CaptionEnd(s: string): (r: Option<nat>)
    ensures r.Some? ==> 5 < r.value <= |s|
  {
    if !CiStartsAt(s, 0, "image") then None
    else
      var c := RunEnd(s, RunEnd(s, 5, IsSpace), IsDigit);
      if RunEnd(s, 5, IsSpace) == 5 || c == RunEnd(s, 5, IsSpace) || !StartsAt(s, c, "](") then None
      else
        var k := IndexOf(s, ")", c + 2);
        if k < 0 then None
        else Some(if k + 1 < |s| && s[k + 1] == '.' then k + 2 else k + 1)
  }

  /** That caption at the start replaced by one space. */
  function StripLeadingCaption(s: string): string {
    match CaptionEnd(s)
    case None => s
    case Some(e) => " " + s[e..]
  }

  /** `/^\[|\]$/g` replaced by nothing: one leading `[` and one trailing `]`. */
  function StripOneBracket(s: string): string {
    var a := if |s| > 0 && s[0] == '[' then 1 else 0;
    var b := if |s| > a && s[|s| - 1] == ']' then |s| - 1 else |s|;
    s[a..b]
  }

  /** `/^\[+|\]+$/g` replaced by nothing: the leading run of `[` and the
      trailing run of `]`. */
  function StripBracketRuns(s: string): string {
    var a := RunEnd(s, 0, IsOpenBracket);
    var b := RunStart(s, |s|, IsCloseBracket);
    if a <= b then s[a..b] else ""
  }

  /** Single-spaced with no whitespace at either end. */
  ghost predicate Clean(s: string) {
    SingleSpaced(s) && (|s| > 0 ==> !IsSpace(s[0]) && !IsSpace(s[|s| - 1]))
  }

  /** `normalizeModTitle`: image markup and caption debris removed, the
      bracket wrapper stripped, whitespace collapsed and trimmed. */
  function NormalizeTitle(title: string): (r: string)
    ensures Clean(r)
  {
    Trim(CollapseSpaces(StripBracketRuns(StripOneBracket(StripLeadingCaption(ReplaceImageMarkup(title, 0))))))
  }

  lemma {:induction false} ReplaceImageMarkupNoBracket(s: string, i: nat)
    requires i <= |s| && Excludes(s, '[')
    decreases |s| - i
    ensures ReplaceImageMarkup(s, i) == s[i..]
  {
    if i < |s| {
      NoImageMarkupWithoutBracket(s, i);
      ReplaceImageMarkupNoBracket(s, i + 1);
      assert s[i..] == [s[i]] + s[i + 1..];
    }
  }

  lemma NoImageMarkupWithoutBracket(s: string, i: nat)
    requires Excludes(s, '[')
    ensures ImageMarkupEnd(s, i).None?
  {
    if i + 7 <= |s| {
      var w := s[i..i + 7];
      assert w[1] == s[i + 1] && w[1] != '[';
      assert Fold(w)[1] == FoldChar(w[1]) != '[';
    }
  }

  /** A title that is already clean and holds no bracket comes back
      unchanged, so normalising text free of brackets is idempotent. */
  lemma NormalizeCleanTitle(t: string)
    requires Clean(t) && Excludes(t, '[') && Excludes(t, ']')
    ensures NormalizeTitle(t) == t
  {
    ReplaceImageMarkupNoBracket(t, 0);
    assert t[0..] == t;
    CaptionNeedsBracket(t);
    assert StripOneBracket(t) == t by {
      assert t[0..|t|] == t;
    }
    assert StripBracketRuns(t) == t by {
      assert t[0..|t|] == t;
    }
    CollapseSingleSpaced(t);
  }

  lemma CaptionNeedsBracket(t: string)
    requires Excludes(t, ']')
    ensures StripLeadingCaption(t) == t
  {
    if CiStartsAt(t, 0, "image") {
      var c := RunEnd(t, RunEnd(t, 5, IsSpace), IsDigit);
      if c + 2 <= |t| {
        assert t[c..c + 2][0] == t[c];
      }
      assert !StartsAt(t, c, "](");
    }
  }

  /** Image markup starts with `![`. */
  lemma ImageMarkupNeeds(s: string, k: nat)
    ensures ImageMarkupEnd(s, k).Some? ==> k + 1 < |s| && s[k] == '!' && s[k + 1] == '['
  {
    if ImageMarkupEnd(s, k).Some? {
      var w := s[k..k + 7];
      assert Fold(w)[0] == FoldChar(w[0]) && Fold(w)[1] == FoldChar(w[1]);
    }
  }

  /** `![` at `k`, where image markup could start. */
  ghost predicate BangBracketAt(s: string, k: nat) {
    k + 1 < |s| && s[k] == '!' && s[k + 1] == '['
  }

  /** The scan copies every position where no `![` starts. */
  lemma {:induction false} ReplaceImageMarkupSkip(s: string, i: nat, j: nat)
    requires i <= j <= |s|
    requires forall k :: i <= k < j ==> !BangBracketAt(s, k)
    decreases j - i
    ensures ReplaceImageMarkup(s, i) == s[i..j] + ReplaceImageMarkup(s, j)
  {
    if i < j {
      ReplaceImageMarkupCopies(s, i);
      ReplaceImageMarkupSkip(s, i + 1, j);
      SliceCons(s, i, j);
      ConcatAssoc([s[i]], s[i + 1..j], ReplaceImageMarkup(s, j));
    }
  }

  lemma ReplaceImageMarkupCopies(s: string, i: nat)
    requires i < |s| && !BangBracketAt(s, i)
    ensures ReplaceImageMarkup(s, i) == [s[i]] + ReplaceImageMarkup(s, i + 1)
  {
    ImageMarkupNeeds(s, i);
  }

  /** Text holding no bracket passes the bracket steps unchanged. */
  lemma BracketFreeSteps(s: string)
    requires Excludes(s, '[') && Excludes(s, ']')
    ensures StripBracketRuns(StripOneBracket(s)) == s
  {
    assert s[0..|s|] == s;
  }

  /** Text holding no bracket is only whitespace-normalised. */
  lemma NormalizeBracketFree(s: string)
    requires Excludes(s, '[') && Excludes(s, ']')
    ensures NormalizeTitle(s) == Trim(CollapseSpaces(s))
  {
    ReplaceImageMarkupNoBracket(s, 0);
    assert s[0..] == s;
    CaptionNeedsBracket(s);
    BracketFreeSteps(s);
  }

  /** A leading `[` rules out the caption. */
  lemma CaptionNeedsImage(s: string)
    requires |s| > 0 && s[0] == '['
    ensures StripLeadingCaption(s) == s
  {
    assert !CiStartsAt(s, 0, "image") by {
      if CiStartsAt(s, 0, "image") {
        CiStartsAtHead(s, 0, "image");
      }
    }
  }

  /** A clean title comes out of the whitespace steps as it is. */
  lemma CleanWhitespace(t: string)
    requires Clean(t)
    ensures Trim(CollapseSpaces(t)) == t
  {
    CollapseSingleSpaced(t);
    TrimMeaning(t);
  }

  /** No markup scan matches where no `![` occurs: before `n` there is no
      `!` and from `n` on no `[`. */
  lemma NoMarkupAfter(s: string, n: nat)
    requires n <= |s| && Excludes(s[n..], '[')
    requires forall q :: 0 <= q < n ==> s[q] != '!'
    ensures ReplaceImageMarkup(s, 0) == s
  {
    forall k | 0 <= k < |s| ensures !BangBracketAt(s, k) {
      if n <= k + 1 < |s| { assert s[k + 1] == s[n..][k + 1 - n]; }
    }
    ReplaceImageMarkupSkip(s, 0, |s|);
    assert s[0..|s|] == s;
  }

  lemma StripSingleWrapper(t: string)
    requires Excludes(t, '[') && Excludes(t, ']')
    ensures StripOneBracket("[" + t + "]") == t
    ensures StripBracketRuns("[" + t + "]") == t
    ensures StripBracketRuns(t) == t
  {
    var s1 := "[" + t + "]";
    assert s1[1..|s1| - 1] == t;
    assert t[0..|t|] == t;
    assert RunEnd(s1, 0, IsOpenBracket) == 1 by {
      assert |t| == 0 || s1[1] == t[0];
    }
    assert RunStart(s1, |s1|, IsCloseBracket) == |s1| - 1 by {
      assert |t| == 0 || s1[|s1| - 2] == t[|t| - 1];
    }
  }

  lemma StripDoubleWrapper(t: string)
    ensures StripOneBracket("[[" + t + "]]") == "[" + t + "]"
  {
    var s2 := "[[" + t + "]]";
    assert s2[1..|s2| - 1] == "[" + t + "]";
  }

  /** `NormalizeTitle` unfolded once its first two steps are known. */
  lemma NormalizeVia(title: string, m: string, c: string)
    requires ReplaceImageMarkup(title, 0) == m && StripLeadingCaption(m) == c
    ensures NormalizeTitle(title) == Trim(CollapseSpaces(StripBracketRuns(StripOneBracket(c))))
  {
  }

  /** One `[…]` or `[[…]]` wrapper around a clean bracket-free title is
      stripped. */
  lemma NormalizeWrapped(t: string)
    requires Clean(t) && Excludes(t, '[') && Excludes(t, ']')
    ensures NormalizeTitle("[" + t + "]") == t
    ensures NormalizeTitle("[[" + t + "]]") == t
  {
    NormalizeSingleWrapped(t);
    NormalizeDoubleWrapped(t);
  }

  lemma NormalizeSingleWrapped(t: string)
    requires Clean(t) && Excludes(t, '[') && Excludes(t, ']')
    ensures NormalizeTitle("[" + t + "]") == t
  {
    var s1 := "[" + t + "]";
    ExcludesConcat(t, "]", '[');
    assert s1[1..] == t + "]";
    NoMarkupAfter(s1, 1);
    CaptionNeedsImage(s1);
    NormalizeVia(s1, s1, s1);
    StripSingleWrapper(t);
    CleanWhitespace(t);
  }

  lemma NormalizeDoubleWrapped(t: string)
    requires Clean(t) && Excludes(t, '[') && Excludes(t, ']')
    ensures NormalizeTitle("[[" + t + "]]") == t
  {
    var s2 := "[[" + t + "]]";
    ExcludesConcat(t, "]]", '[');
    assert s2[2..] == t + "]]";
    NoMarkupAfter(s2, 2);
    CaptionNeedsImage(s2);
    NormalizeVia(s2, s2, s2);
    StripDoubleWrapper(t);
    StripSingleWrapper(t);
    CleanWhitespace(t);
  }

  /** A leading `Image N](…)` caption, with no `.` after it, is replaced
      by a space, which the trim then drops. */
  lemma NormalizeCaption(d: string, u: string, t: string)
    requires |d| > 0 && AllDigits(d)
    requires Excludes(u, ')') && Excludes(u, '[')
    requires Clean(t) && Excludes(t, '[') && Excludes(t, ']') && (|t| == 0 || t[0] != '.')
    ensures NormalizeTitle("Image " + d + "](" + u + ")" + t) == t
  {
    var s := "Image " + d + "](" + u + ")" + t;
    CaptionFreeOfOpen(d, u, t);
    ScanWithoutOpen(s);
    LeadingCaption(d, u, t);
    NormalizeVia(s, s, " " + t);
    SpacedTitleSteps(t);
  }

  /** Text without `[` passes the markup scan unchanged. */
  lemma ScanWithoutOpen(s: string)
    requires Excludes(s, '[')
    ensures ReplaceImageMarkup(s, 0) == s
  {
    ReplaceImageMarkupNoBracket(s, 0);
    assert s[0..] == s;
  }

  /** The steps after the caption turn ` t` back into `t`. */
  lemma SpacedTitleSteps(t: string)
    requires Clean(t) && Excludes(t, '[') && Excludes(t, ']')
    ensures Trim(CollapseSpaces(StripBracketRuns(StripOneBracket(" " + t)))) == t
  {
    ExcludesConcat(" ", t, '[');
    ExcludesConcat(" ", t, ']');
    BracketFreeSteps(" " + t);
    SpaceThenClean(t);
  }

  lemma CaptionFreeOfOpen(d: string, u: string, t: string)
    requires AllDigits(d) && Excludes(u, '[') && Excludes(t, '[')
    ensures Excludes("Image " + d + "](" + u + ")" + t, '[')
  {
    assert Excludes(d, '[') by {
      forall q | 0 <= q < |d| ensures d[q] != '[' { assert IsDigit(d[q]); }
    }
    ExcludesConcat("Image ", d, '[');
    ExcludesConcat("Image " + d, "](", '[');
    ExcludesConcat("Image " + d + "](", u, '[');
    ExcludesConcat("Image " + d + "](" + u, ")", '[');
    ExcludesConcat("Image " + d + "](" + u + ")", t, '[');
  }

  /** The caption scan on `Image N](…)t`. */
  lemma LeadingCaption(d: string, u: string, t: string)
    requires |d| > 0 && AllDigits(d) && Excludes(u, ')')
    requires |t| == 0 || t[0] != '.'
    ensures StripLeadingCaption("Image " + d + "](" + u + ")" + t) == " " + t
  {
    var s := "Image " + d + "](" + u + ")" + t;
    var c := 6 + |d|;
    var k := c + 2 + |u|;
    assert s[..6] == "Image ";
    assert s[6..c] == d;
    assert s[c..c + 2] == "](";
    assert s[c + 2..k] == u;
    assert s[k] == ')';
    assert s[k + 1..] == t;
    CaptionAt(s, c, k);
  }

  /** `s` opens with `Image `, digits up to `c`, `](`, and no `)` before
      the one at `k`, which no `.` follows. */
  lemma CaptionAt(s: string, c: nat, k: nat)
    requires 6 < c && c + 2 <= k < |s| && s[..6] == "Image " && AllDigits(s[6..c])
    requires s[c..c + 2] == "](" && Excludes(s[c + 2..k], ')') && s[k] == ')'
    requires k + 1 == |s| || s[k + 1] != '.'
    ensures StripLeadingCaption(s) == " " + s[k + 1..]
  {
    assert CiStartsAt(s, 0, "image") by {
      assert s[0..5] == s[..6][0..5] == "Image";
      FoldImage();
    }
    assert RunEnd(s, 5, IsSpace) == 6 by {
      assert s[5] == s[..6][5] && s[6] == s[6..c][0];
    }
    assert RunEnd(s, 6, IsDigit) == c by {
      forall q | 6 <= q < c ensures IsDigit(s[q]) { assert s[q] == s[6..c][q - 6]; }
      assert s[c] == s[c..c + 2][0];
      RunEndDigits(s, 6, c);
    }
    FirstCharAfter(s, ')', c + 2, k);
    assert ")" == [')'];
    CaptionEndAt(s, c, k);
  }

  lemma FoldImage()
    ensures Fold("Image") == "image"
  {
  }

  /** `CaptionEnd` once its searches are known. */
  lemma CaptionEndAt(s: string, c: nat, k: nat)
    requires 5 <= |s| && CiStartsAt(s, 0, "image") && RunEnd(s, 5, IsSpace) == 6
    requires RunEnd(s, 6, IsDigit) == c && c > 6 && StartsAt(s, c, "](")
    requires IndexOf(s, ")", c + 2) == k && k < |s| && (k + 1 == |s| || s[k + 1] != '.')
    ensures CaptionEnd(s) == Some(k + 1)
  {
  }

  /** A run of digits ends where the digits do. */
  lemma {:induction false} RunEndDigits(s: string, i: nat, c: nat)
    requires i <= c <= |s| && (c == |s| || !IsDigit(s[c]))
    requires forall q :: i <= q < c ==> IsDigit(s[q])
    decreases c - i
    ensures RunEnd(s, i, IsDigit) == c
  {
    if i < c {
      RunEndDigits(s, i + 1, c);
    }
  }

  /** A space in front of a clean title is dropped again. */
  lemma SpaceThenClean(t: string)
    requires Clean(t)
    ensures Trim(CollapseSpaces(" " + t)) == t
  {
    var r := " " + t;
    assert SingleSpaced(r) by {
      forall q | 0 < q < |r| ensures r[q] == t[q - 1] { }
    }
    CollapseSingleSpaced(r);
    assert RunEnd(r, 0, IsSpace) == 1 by {
      assert |t| == 0 || r[1] == t[0];
      assert RunEnd(r, 1, IsSpace) == 1;
    }
    assert r[1..] == t;
    TrimMeaning(t);
    assert Trim(r) == Trim(t);
  }

  /** Image markup `![Image…](…)` inside a title is replaced by a space;
      the text around it is then only whitespace-normalised. */
  lemma NormalizeImageMarkup(a: string, x: string, u: string, b: string)
    requires Excludes(a, '[') && Excludes(a, ']') && Excludes(b, '[') && Excludes(b, ']')
    requires Excludes(x, ']') && Excludes(u, ')')
    ensures NormalizeTitle(a + "![Image" + x + "](" + u + ")" + b) == Trim(CollapseSpaces(a + " " + b))
  {
    var s := a + "![Image" + x + "](" + u + ")" + b;
    var r := a + " " + b;
    ReplaceInnerMarkup(a, x, u, b);
    ExcludesConcat(a, " ", '[');
    ExcludesConcat(a + " ", b, '[');
    ExcludesConcat(a, " ", ']');
    ExcludesConcat(a + " ", b, ']');
    CaptionNeedsBracket(r);
    NormalizeVia(s, r, r);
    BracketFreeSteps(r);
  }

  /** The markup scan over `a![Image x](u)b`. */
  lemma ReplaceInnerMarkup(a: string, x: string, u: string, b: string)
    requires Excludes(a, '[') && Excludes(b, '[') && Excludes(x, ']') && Excludes(u, ')')
    ensures ReplaceImageMarkup(a + "![Image" + x + "](" + u + ")" + b, 0) == a + " " + b
  {
    var s := a + "![Image" + x + "](" + u + ")" + b;
    var i := |a|;
    var j := i + 7 + |x|;
    var k := j + 2 + |u|;
    assert s[..i] == a;
    assert s[i..i + 7] == "![Image";
    assert s[i + 7..j] == x;
    assert s[j..j + 2] == "](";
    assert s[j + 2..k] == u;
    assert s[k] == ')';
    assert s[k + 1..] == b;
    assert MarkupShape(s, i, j, k);
    ReplaceMarkupAt(s, i, j, k);
    NoMarkupBefore(s, i);
    ConcatAssoc(a, " ", b);
  }

  /** `s` holds `![Image…](…)` from `i` to `k`, its first `]` at `j` and
      the first `)` after it at `k`. */
  ghost predicate MarkupShape(s: string, i: nat, j: nat, k: nat) {
    && i + 7 <= j && j + 2 <= k < |s|
    && s[i..i + 7] == "![Image" && Excludes(s[i + 7..j], ']') && s[j..j + 2] == "]("
    && Excludes(s[j + 2..k], ')') && s[k] == ')'
  }

  /** The markup scan from that markup on, with no `[` after it. */
  lemma ReplaceMarkupAt(s: string, i: nat, j: nat, k: nat)
    requires MarkupShape(s, i, j, k) && Excludes(s[k + 1..], '[')
    ensures ReplaceImageMarkup(s, i) == " " + s[k + 1..]
  {
    MarkupAt(s, i, j, k);
    NoMarkupFrom(s, k + 1);
    ReplaceImageMarkupReplaces(s, i, k + 1, s[k + 1..]);
  }

  /** The scan copies a prefix without `[` that does not end in `!`
      before a `[`. */
  lemma NoMarkupBefore(s: string, i: nat)
    requires i < |s| && Excludes(s[..i], '[') && s[i] != '['
    ensures ReplaceImageMarkup(s, 0) == s[..i] + ReplaceImageMarkup(s, i)
  {
    forall q | 0 <= q < i ensures !BangBracketAt(s, q) {
      if q + 1 < i { assert s[q + 1] == s[..i][q + 1]; }
    }
    ReplaceImageMarkupSkip(s, 0, i);
    assert s[0..i] == s[..i];
  }

  /** The scan copies a suffix without `[`. */
  lemma NoMarkupFrom(s: string, e: nat)
    requires e <= |s| && Excludes(s[e..], '[')
    ensures ReplaceImageMarkup(s, e) == s[e..]
  {
    forall q | e <= q < |s| ensures !BangBracketAt(s, q) {
      if q + 1 < |s| { assert s[q + 1] == s[e..][q + 1 - e]; }
    }
    ReplaceImageMarkupSkip(s, e, |s|);
    assert s[e..|s|] == s[e..];
  }

  lemma MarkupAt(s: string, i: nat, j: nat, k: nat)
    requires MarkupShape(s, i, j, k)
    ensures ImageMarkupEnd(s, i) == Some(k + 1)
  {
    FoldBangImage();
    assert s[j] == s[j..j + 2][0] && s[j + 1] == s[j..j + 2][1];
    FirstCharAfter(s, ']', i + 7, j);
    FirstCharAfter(s, ')', j + 2, k);
    ImageMarkupEndAt(s, i, j, k);
  }

  /** `indexOf` of a character absent from `s[from..u]` and found at `u`. */
  lemma FirstCharAfter(s: string, c: char, from: nat, u: nat)
    requires from <= u < |s| && Excludes(s[from..u], c) && s[u] == c
    ensures IndexOf(s, [c], from) == u
  {
    forall q | from <= q < u ensures s[q] != c { assert s[q] == s[from..u][q - from]; }
    IndexOfCharAt(s, c, from, u);
  }

  lemma FoldBangImage()
    ensures Fold("![Image") == "![image"
  {
  }

  /** `ImageMarkupEnd` once its searches are known. */
  lemma ImageMarkupEndAt(s: string, i: nat, j: nat, k: nat)
    requires CiStartsAt(s, i, "![image") && IndexOf(s, "]", i + 7) == j
    requires j + 1 < |s| && s[j + 1] == '(' && IndexOf(s, ")", j + 2) == k
    ensures ImageMarkupEnd(s, i) == Some(k + 1)
  {
  }

  lemma ReplaceImageMarkupReplaces(s: string, i: nat, e: nat, rest: string)
    requires i < |s| && ImageMarkupEnd(s, i) == Some(e) && ReplaceImageMarkup(s, e) == rest
    ensures ReplaceImageMarkup(s, i) == " " + rest
  {
  }

  lemma NormalizeTitleIdempotent(t: string)
    requires Excludes(NormalizeTitle(t), '[') && Excludes(NormalizeTitle(t), ']')
    ensures NormalizeTitle(NormalizeTitle(t)) == NormalizeTitle(t)
  {
    NormalizeCleanTitle(NormalizeTitle(t));
  }

  // ---------------------------------------------------------------------
  // normalizeImageUrl

  /** `normalizeImageUrl`: whitespace removed, then a leading `http://` of
      any case rewritten to `https://`. */
  function NormalizeImageUrl(url: string): (r: string)
    ensures NoSpaces(r)
    ensures !CiStartsAt(r, 0, "http://")
    ensures !CiStartsAt(RemoveSpaces(url), 0, "http://") ==> r == RemoveSpaces(url)
    ensures CiStartsAt(RemoveSpaces(url), 0, "http://") ==> r == "https://" + RemoveSpaces(url)[7..]
  {
    var t := RemoveSpaces(url);
    RemoveSpacesNoSpaces(url);
    if CiStartsAt(t, 0, "http://") then
      var r := "https://" + t[7..];
      assert Fold(r[0..7])[4] == FoldChar(r[4]);
      r
    else t
  }

  lemma NormalizeImageUrlIdempotent(url: string)
    ensures NormalizeImageUrl(NormalizeImageUrl(url)) == NormalizeImageUrl(url)
  {
    RemoveSpacesNoSpaces(NormalizeImageUrl(url));
  }

  // ---------------------------------------------------------------------
  // escapeHtml

  /** The entity each of the five characters becomes. */
  function EscapeChar(c: char): string {
    if c == '&' then "&amp;"
    else if c == '<' then "&lt;"
    else if c == '>' then "&gt;"
    else if c == '"' then "&quot;"
    else if c == '\'' then "&#39;"
    else [c]
  }

  /** Escaping one character at a time: the reference for `EscapeHtml`. */
  function EscapeEach(s: string): string {
    if |s| == 0 then "" else EscapeChar(s[0]) + EscapeEach(s[1..])
  }

  /** `escapeHtml`: five global replacements, `&` first. */
  function EscapeHtml(value: string): string {
    ReplaceChar(ReplaceChar(ReplaceChar(ReplaceChar(ReplaceChar(value,
      '&', "&amp;"), '<', "&lt;"), '>', "&gt;"), '"', "&quot;"), '\'', "&#39;")
  }

  /** Reads the entities back. */
  function Unescape(s: string): string
    decreases |s|
  {
    if |s| == 0 then ""
    else if StartsAt(s, 0, "&amp;") then "&" + Unescape(s[5..])
    else if StartsAt(s, 0, "&lt;") then "<" + Unescape(s[4..])
    else if StartsAt(s, 0, "&gt;") then ">" + Unescape(s[4..])
    else if StartsAt(s, 0, "&quot;") then "\"" + Unescape(s[6..])
    else if StartsAt(s, 0, "&#39;") then "'" + Unescape(s[5..])
    else [s[0]] + Unescape(s[1..])
  }

  lemma {:induction false} ReplaceCharAbsent(s: string, c: char, rep: string)
    requires Excludes(s, c)
    ensures ReplaceChar(s, c, rep) == s
  {
    if |s| > 0 {
      ReplaceCharAbsent(s[1..], c, rep);
      assert s == [s[0]] + s[1..];
    }
  }

  lemma ReplaceCharSingle(c: char, d: char, rep: string)
    ensures ReplaceChar([c], d, rep) == if c == d then rep else [c]
  {
    assert [c][1..] == "";
  }

  lemma EscapeHtmlOne(c: char)
    ensures EscapeHtml([c]) == EscapeChar(c)
  {
    ReplaceCharSingle(c, '&', "&amp;");
    if c == '&' {
      EscapeHtmlEntity("&amp;", 1);
    } else {
      ReplaceCharSingle(c, '<', "&lt;");
      if c == '<' {
        EscapeHtmlEntity("&lt;", 2);
      } else {
        ReplaceCharSingle(c, '>', "&gt;");
        if c == '>' {
          EscapeHtmlEntity("&gt;", 3);
        } else {
          ReplaceCharSingle(c, '"', "&quot;");
          ReplaceCharSingle(c, '\'', "&#39;");
          if c == '"' {
            EscapeHtmlEntity("&quot;", 4);
          }
        }
      }
    }
  }

  /** The passes after the one that wrote entity `e` leave it alone: an
      entity holds none of `<`, `>`, `"`, `'`. */
  lemma EscapeHtmlEntity(e: string, pass: nat)
    requires Excludes(e, '<') && Excludes(e, '>') && Excludes(e, '"') && Excludes(e, '\'')
    ensures pass <= 1 ==> ReplaceChar(e, '<', "&lt;") == e
    ensures pass <= 2 ==> ReplaceChar(e, '>', "&gt;") == e
    ensures pass <= 3 ==> ReplaceChar(e, '"', "&quot;") == e
    ensures pass <= 4 ==> ReplaceChar(e, '\'', "&#39;") == e
  {
    ReplaceCharAbsent(e, '<', "&lt;");
    ReplaceCharAbsent(e, '>', "&gt;");
    ReplaceCharAbsent(e, '"', "&quot;");
    ReplaceCharAbsent(e, '\'', "&#39;");
  }

  lemma EscapeHtmlConcat(a: string, b: string)
    ensures EscapeHtml(a + b) == EscapeHtml(a) + EscapeHtml(b)
  {
    ReplaceCharConcat(a, b, '&', "&amp;");
    var a1, b1 := ReplaceChar(a, '&', "&amp;"), ReplaceChar(b, '&', "&amp;");
    ReplaceCharConcat(a1, b1, '<', "&lt;");
    var a2, b2 := ReplaceChar(a1, '<', "&lt;"), ReplaceChar(b1, '<', "&lt;");
    ReplaceCharConcat(a2, b2, '>', "&gt;");
    var a3, b3 := ReplaceChar(a2, '>', "&gt;"), ReplaceChar(b2, '>', "&gt;");
    ReplaceCharConcat(a3, b3, '"', "&quot;");
    var a4, b4 := ReplaceChar(a3, '"', "&quot;"), ReplaceChar(b3, '"', "&quot;");
    ReplaceCharConcat(a4, b4, '\'', "&#39;");
  }

  /** The five chained replacements escape every character on its own: the
      `&` pass runs first, so no entity the later passes write is escaped
      again. */
  lemma {:induction false} EscapeHtmlPerChar(s: string)
    ensures EscapeHtml(s) == EscapeEach(s)
  {
    if |s| == 0 {
    } else {
      assert s == [s[0]] + s[1..];
      EscapeHtmlConcat([s[0]], s[1..]);
      EscapeHtmlOne(s[0]);
      EscapeHtmlPerChar(s[1..]);
    }
  }

  /** An escaped character at the front is read back as that character. */
  lemma UnescapeHead(c: char, rest: string)
    ensures Unescape(EscapeChar(c) + rest) == [c] + Unescape(rest)
  {
    if c in "&<>\"'" {
      UnescapeEntity(c, rest);
    } else {
      UnescapePlain(c, rest);
    }
  }

  lemma UnescapeEntity(c: char, rest: string)
    requires c in "&<>\"'"
    ensures Unescape(EscapeChar(c) + rest) == [c] + Unescape(rest)
  {
    var ent := EscapeChar(c);
    var e := ent + rest;
    assert e[..|ent|] == ent;
    assert e[|ent|..] == rest;
    assert e[1] == ent[1];
    assert |e| >= 4 && e[..4][1] == e[1];
    if |e| >= 5 {
      assert e[..5][1] == e[1];
    }
    if |e| >= 6 {
      assert e[..6][1] == e[1];
    }
  }

  lemma UnescapePlain(c: char, rest: string)
    requires c !in "&<>\"'"
    ensures Unescape(EscapeChar(c) + rest) == [c] + Unescape(rest)
  {
    var e := [c] + rest;
    assert e[0] == c && e[1..] == rest;
    assert !StartsAt(e, 0, "&amp;") && !StartsAt(e, 0, "&lt;") && !StartsAt(e, 0, "&gt;");
    assert !StartsAt(e, 0, "&quot;") && !StartsAt(e, 0, "&#39;");
  }

  lemma {:induction false} UnescapeEscapeEach(s: string)
    ensures Unescape(EscapeEach(s)) == s
  {
    if |s| > 0 {
      UnescapeHead(s[0], EscapeEach(s[1..]));
      UnescapeEscapeEach(s[1..]);
      assert s == [s[0]] + s[1..];
    }
  }

  /** Unescaping the escaped text gives the text back. */
  lemma EscapeHtmlRoundTrip(s: string)
    ensures Unescape(EscapeHtml(s)) == s
  {
    EscapeHtmlPerChar(s);
    UnescapeEscapeEach(s);
  }

  lemma {:induction false} EscapeEachSafe(s: string)
    ensures Excludes(EscapeEach(s), '<') && Excludes(EscapeEach(s), '>')
    ensures Excludes(EscapeEach(s), '"') && Excludes(EscapeEach(s), '\'')
  {
    if |s| > 0 {
      EscapeEachSafe(s[1..]);
    }
  }

  /** The escaped text holds none of `<`, `>`, `"` and `'`. */
  lemma EscapeHtmlSafe(s: string)
    ensures Excludes(EscapeHtml(s), '<') && Excludes(EscapeHtml(s), '>')
    ensures Excludes(EscapeHtml(s), '"') && Excludes(EscapeHtml(s), '\'')
  {
    EscapeHtmlPerChar(s);
    EscapeEachSafe(s);
  }
}
