/** String primitives shared by every scanner of the catalog pipeline: the
    character classes of JavaScript regular expressions, substring search in
    the manner of `indexOf` / `lastIndexOf`, trimming and whitespace runs. */
module Strings {

  datatype Option<T> = None | Some(value: T)

  datatype Result<T, E> = Ok(value: T) | Err(error: E)

  /** `\d` of a regular expression without the `u` flag: ASCII digits only. */
  predicate IsDigit(c: char) { '0' <= c <= '9' }

  /** `\s`; it is also the set of characters `String.prototype.trim` removes. */
  predicate IsSpace(c: char) {
    || c == ' ' || c == '\t' || c == '\n' || c == '\U{000B}' || c == '\U{000C}' || c == '\r'
    || c == '\U{00A0}' || c == '\U{1680}' || ('\U{2000}' <= c <= '\U{200A}')
    || c == '\U{2028}' || c == '\U{2029}' || c == '\U{202F}' || c == '\U{205F}'
    || c == '\U{3000}' || c == '\U{FEFF}'
  }

  /** `\w`. */
  predicate IsWordChar(c: char) { 'a' <= c <= 'z' || 'A' <= c <= 'Z' || IsDigit(c) || c == '_' }

  predicate IsAsciiLetter(c: char) { 'a' <= c <= 'z' || 'A' <= c <= 'Z' }

  predicate AllDigits(s: string) { forall k :: 0 <= k < |s| ==> IsDigit(s[k]) }

  predicate NoSpaces(s: string) { forall k :: 0 <= k < |s| ==> !IsSpace(s[k]) }

  /** The canonical form a regular expression with the `i` flag and without
      `u` compares: only ASCII letters fold, since no other character folds
      onto an ASCII one in that mode. */
  function FoldChar(c: char): char {
    if 'A' <= c <= 'Z' then (c as int + 32) as char else c
  }

  function Fold(s: string): string {
    seq(|s|, k requires 0 <= k < |s| => FoldChar(s[k]))
  }

  /** `s` holds `p` at position `i`. */
  predicate StartsAt(s: string, i: nat, p: string) {
    i + |p| <= |s| && s[i..i + |p|] == p
  }

  /** `s` holds the lower-case literal `p` at position `i`, ignoring ASCII case
      (a literal of a regular expression with the `i` flag). */
  predicate CiStartsAt(s: string, i: nat, p: string) {
    i + |p| <= |s| && Fold(s[i..i + |p|]) == p
  }

  lemma ConcatAssoc(a: string, b: string, c: string)
    ensures a + (b + c) == a + b + c
  {
  }

  lemma SliceCons(s: string, i: nat, j: nat)
    requires i < j <= |s|
    ensures s[i..j] == [s[i]] + s[i + 1..j]
  {
  }

  /** A case-insensitive match fixes the folded first character. */
  lemma CiStartsAtHead(s: string, i: nat, p: string)
    requires CiStartsAt(s, i, p) && |p| > 0
    ensures FoldChar(s[i]) == p[0]
  {
    assert Fold(s[i..i + |p|])[0] == FoldChar(s[i..i + |p|][0]);
  }

  /** `s.indexOf(p, from)`: the first position at or after `from` holding `p`,
      or -1. */
  function IndexOf(s: string, p: string, from: nat): (r: int)
    decreases |s| - from
    ensures r == -1 || (from <= r && StartsAt(s, r, p))
  {
    if from + |p| > |s| then -1
    else if StartsAt(s, from, p) then from
    else IndexOf(s, p, from + 1)
  }

  /** `IndexOf` finds the first occurrence: none lies between `from` and the
      result, or anywhere after `from` when the result is -1. */
  lemma {:induction false} IndexOfFirst(s: string, p: string, from: nat)
    decreases |s| - from
    ensures IndexOf(s, p, from) == -1 ==> forall k :: from <= k <= |s| ==> !StartsAt(s, k, p)
    ensures IndexOf(s, p, from) >= 0 ==> forall k :: from <= k < IndexOf(s, p, from) ==> !StartsAt(s, k, p)
  {
    if from + |p| <= |s| && !StartsAt(s, from, p) {
      IndexOfFirst(s, p, from + 1);
    }
  }

  /** An occurrence at `i` means `IndexOf` finds one no later than `i`. */
  lemma IndexOfUpTo(s: string, p: string, from: nat, i: nat)
    requires from <= i && StartsAt(s, i, p)
    ensures 0 <= IndexOf(s, p, from) <= i
  {
    IndexOfFirst(s, p, from);
  }

  /** The first occurrence at or after `from` is what `IndexOf` finds. */
  lemma IndexOfAt(s: string, p: string, from: nat, i: nat)
    requires from <= i && StartsAt(s, i, p)
    requires forall k :: from <= k < i ==> !StartsAt(s, k, p)
    ensures IndexOf(s, p, from) == i
  {
    IndexOfFirst(s, p, from);
  }

  /** The first position at or after `from` holding `c` is what a
      one-character `IndexOf` finds. */
  lemma {:induction false} IndexOfCharAt(s: string, c: char, from: nat, u: nat)
    requires from <= u < |s| && s[u] == c
    requires forall k :: from <= k < u ==> s[k] != c
    decreases u - from
    ensures IndexOf(s, [c], from) == u
  {
    if from < u {
      assert s[from..from + 1][0] == s[from];
      IndexOfCharAt(s, c, from + 1, u);
    } else {
      assert s[u..u + 1] == [c];
    }
  }

  /** A one-character search past the last `c` finds nothing. */
  lemma IndexOfCharNone(s: string, c: char, from: nat)
    requires forall k :: from <= k < |s| ==> s[k] != c
    ensures IndexOf(s, [c], from) == -1
  {
    IndexOfChar(s, c, from);
  }

  /** An occurrence of `a + b` holds an occurrence of `b` right after `a`. */
  /** A literal at the start of a slice is at the slice's start in the
      whole text. */
  lemma StartsAtSlice(s: string, i: nat, j: nat, p: string)
    requires i <= j <= |s| && StartsAt(s[i..j], 0, p)
    ensures StartsAt(s, i, p)
  {
    assert s[i..i + |p|] == s[i..j][..|p|];
  }

  lemma StartsAtConcat(s: string, i: nat, a: string, b: string)
    requires StartsAt(s, i, a + b)
    ensures StartsAt(s, i, a) && StartsAt(s, i + |a|, b)
  {
    assert s[i..i + |a|] == s[i..i + |a + b|][..|a|];
    assert s[i + |a|..i + |a + b|] == s[i..i + |a + b|][|a|..];
  }

  /** Searching for `stop` where a text free of `stop` starts finds it, if
      at all, only after that text; everything in between is free of `stop`
      and starts with the text. */
  lemma SearchPast(s: string, i: nat, p: string, stop: char)
    requires StartsAt(s, i, p) && Excludes(p, stop)
    ensures var e := IndexOf(s, [stop], i);
      && (e == -1 || e >= i + |p|)
      && (e >= i ==> Excludes(s[i..e], stop) && StartsAt(s[i..e], 0, p))
  {
    var e := IndexOf(s, [stop], i);
    IndexOfFirst(s, [stop], i);
    forall k | i <= k < i + |p| ensures !StartsAt(s, k, [stop]) {
      assert s[k] == s[i..i + |p|][k - i] == p[k - i];
      assert s[k..k + 1] == [s[k]];
    }
    if e >= i {
      forall k | i <= k < e ensures s[k] != stop {
        assert !StartsAt(s, k, [stop]);
        assert s[k..k + 1] == [s[k]];
      }
      assert s[i..e][..|p|] == s[i..i + |p|];
    }
  }

  /** A one-character search lands on that character. */
  lemma IndexOfChar(s: string, c: char, from: nat)
    ensures var r := IndexOf(s, [c], from);
      r >= 0 ==> from <= r < |s| && s[r] == c
  {
    var r := IndexOf(s, [c], from);
    if r >= 0 {
      assert s[r] == s[r..r + 1][0];
    }
  }

  /** Nothing between `from` and what a one-character search finds is that
      character; when it finds nothing, nothing after `from` is. */
  lemma {:induction false} IndexOfCharFirst(s: string, c: char, from: nat)
    decreases |s| - from
    ensures var r := IndexOf(s, [c], from);
      forall k :: from <= k < |s| && (r < 0 || k < r) ==> s[k] != c
  {
    if from < |s| {
      assert s[from..from + 1] == [s[from]];
      if s[from] != c {
        IndexOfCharFirst(s, c, from + 1);
      }
    }
  }

  /** After an occurrence of a text free of `c`, nothing before the first
      `c` found past it is a `c`, and nothing at all when none is found. */
  lemma FirstAfter(s: string, i: nat, p: string, c: char)
    requires StartsAt(s, i, p) && Excludes(p, c)
    ensures var r := IndexOf(s, [c], i + |p|);
      forall k :: i <= k < |s| && (r < 0 || k < r) ==> s[k] != c
  {
    IndexOfCharFirst(s, c, i + |p|);
    forall k | i <= k < i + |p| ensures s[k] != c {
      assert s[k] == s[i..i + |p|][k - i];
    }
  }

  /** `s.includes(p)`. */
  predicate Contains(s: string, p: string) {
    exists k :: 0 <= k <= |s| && StartsAt(s, k, p)
  }

  /** `s.lastIndexOf(c, upto)` for a one-character search: the last position
      at or before `upto` holding `c`, or -1. */
  function LastIndexOf(s: string, c: char, upto: int): (r: int)
    requires -1 <= upto < |s|
    decreases upto + 1
    ensures -1 <= r <= upto
    ensures r >= 0 ==> s[r] == c
  {
    if upto < 0 then -1
    else if s[upto] == c then upto
    else LastIndexOf(s, c, upto - 1)
  }

  /** `LastIndexOf` finds the last occurrence. */
  lemma {:induction false} LastIndexOfLast(s: string, c: char, upto: int)
    requires -1 <= upto < |s|
    decreases upto + 1
    ensures forall k :: LastIndexOf(s, c, upto) < k <= upto ==> s[k] != c
  {
    if upto >= 0 && s[upto] != c {
      LastIndexOfLast(s, c, upto - 1);
    }
  }

  /** The least position in `[from, n)` where `p` holds: where a regular
      expression search that tries each start position in turn stops. */
  function FirstFrom(from: nat, n: nat, p: nat -> bool): (r: Option<nat>)
    decreases n - from
    ensures r.Some? ==> from <= r.value < n && p(r.value)
    ensures r.Some? ==> forall j :: from <= j < r.value ==> !p(j)
    ensures r.None? ==> forall j :: from <= j < n ==> !p(j)
  {
    if from >= n then None
    else if p(from) then Some(from)
    else FirstFrom(from + 1, n, p)
  }

  /** The least position where `p` holds is what `FirstFrom` finds. */
  lemma FirstFromAt(from: nat, n: nat, p: nat -> bool, i: nat)
    requires from <= i < n && p(i)
    requires forall j :: from <= j < i ==> !p(j)
    ensures FirstFrom(from, n, p) == Some(i)
  {
  }

  /** The greatest position in `[lo, hi)` where `p` holds: where a greedy
      quantifier that gives back one character at a time stops. */
  function LastFrom(lo: nat, hi: nat, p: nat -> bool): (r: Option<nat>)
    decreases hi
    ensures r.Some? ==> lo <= r.value < hi && p(r.value)
    ensures r.Some? ==> forall j :: r.value < j < hi ==> !p(j)
    ensures r.None? ==> forall j :: lo <= j < hi ==> !p(j)
  {
    if hi <= lo then None
    else if p(hi - 1) then Some(hi - 1)
    else LastFrom(lo, hi - 1, p)
  }

  /** The match of a one-shot `s.match(re)`: the group of the leftmost
      position where `at` matches. */
  function FirstMatch(n: nat, at: nat -> Option<string>): (r: Option<string>)
    ensures r.None? <==> forall i :: 0 <= i < n ==> at(i).None?
    ensures r.Some? ==> exists i :: 0 <= i < n && at(i) == r && forall j :: 0 <= j < i ==> at(j).None?
  {
    match FirstFrom(0, n, SomeAt(at))
    case None => None
    case Some(i) => at(i)
  }

  /** The group at the leftmost position where `at` matches is the match. */
  lemma FirstMatchAt(n: nat, at: nat -> Option<string>, i: nat)
    requires i < n && at(i).Some?
    requires forall j :: 0 <= j < i ==> at(j).None?
    ensures FirstMatch(n, at) == at(i)
  {
    FirstFromAt(0, n, SomeAt(at), i);
  }

  /** The positions where `at` matches. */
  function SomeAt<T>(at: nat -> Option<T>): (p: nat -> bool)
    ensures forall i: nat :: p(i) == at(i).Some?
  {
    (i: nat) => at(i).Some?
  }

  /** One match of a global search: where it starts, its group and where
      it ends. */
  datatype Hit = Hit(start: nat, group: string, end: nat)

  /** A matcher reports, for each position, the match that starts there. */
  ghost predicate Advances(at: nat -> Option<Hit>) {
    forall i: nat :: at(i).Some? ==> at(i).value.start == i < at(i).value.end
  }

  /** `s.matchAll(re)` over positions `[from, n)`: the leftmost match, then
      the search resumes where it ended. */
  function Scan(from: nat, n: nat, at: nat -> Option<Hit>): (r: seq<Hit>)
    requires Advances(at)
    decreases if from <= n then n - from else 0
    ensures forall k :: 0 <= k < |r| ==> from <= r[k].start && at(r[k].start) == Some(r[k])
  {
    match FirstFrom(from, n, SomeAt(at))
    case None => []
    case Some(i) =>
      var h := at(i).value;
      var rest := Scan(h.end, n, at);
      assert forall k :: 0 <= k < |rest| ==> h.end <= rest[k].start;
      [h] + rest
  }

  /** One round of a global search: the leftmost match from `from`, then
      the search resumes where it ended. */
  lemma ScanStep(from: nat, n: nat, at: nat -> Option<Hit>, done: seq<Hit>, i: nat)
    requires Advances(at) && FirstFrom(from, n, SomeAt(at)) == Some(i)
    ensures at(i).Some? && from <= i
    ensures done + Scan(from, n, at) == (done + [at(i).value]) + Scan(at(i).value.end, n, at)
  {
    var h := at(i).value;
    assert Scan(from, n, at) == [h] + Scan(h.end, n, at);
  }

  /** `[...new Set(xs)]`: each element once, where it first occurs. */
  function Dedup(xs: seq<string>): (r: seq<string>)
    ensures forall x :: x in r <==> x in xs
    ensures forall p, q :: 0 <= p < q < |r| ==> r[p] != r[q]
    ensures |r| <= |xs|
  {
    if |xs| == 0 then []
    else
      var p := Dedup(xs[..|xs| - 1]);
      var x := xs[|xs| - 1];
      assert forall y :: y in xs <==> y in xs[..|xs| - 1] || y == x;
      if x in p then p else p + [x]
  }

  lemma DedupSnoc(xs: seq<string>, x: string)
    ensures Dedup(xs + [x]) == if x in Dedup(xs) then Dedup(xs) else Dedup(xs) + [x]
  {
    assert (xs + [x])[..|xs|] == xs;
  }

  /** End of the longest run of `inClass` characters starting at `i` (what a
      greedy `[...]*` consumes). */
  function RunEnd(s: string, i: nat, inClass: char -> bool): (e: nat)
    requires i <= |s|
    decreases |s| - i
    ensures i <= e <= |s|
    ensures e == |s| || !inClass(s[e])
  {
    if i < |s| && inClass(s[i]) then RunEnd(s, i + 1, inClass) else i
  }

  /** Every character of the run is in the class. */
  lemma {:induction false} RunEndAll(s: string, i: nat, inClass: char -> bool)
    requires i <= |s|
    decreases |s| - i
    ensures forall k :: i <= k < RunEnd(s, i, inClass) ==> inClass(s[k])
  {
    if i < |s| && inClass(s[i]) {
      RunEndAll(s, i + 1, inClass);
    }
  }

  /** Start of the longest run of `inClass` characters ending at `j`. */
  function RunStart(s: string, j: nat, inClass: char -> bool): (b: nat)
    requires j <= |s|
    ensures b <= j
    ensures forall k :: b <= k < j ==> inClass(s[k])
    ensures b == 0 || !inClass(s[b - 1])
  {
    if j > 0 && inClass(s[j - 1]) then RunStart(s, j - 1, inClass) else j
  }

  /** `s.trim()`. */
  function Trim(s: string): (r: string)
    ensures |r| <= |s|
  {
    var a := RunEnd(s, 0, IsSpace);
    var t := s[a..];
    var b := RunStart(t, |t|, IsSpace);
    t[..b]
  }

  /** Trimming leaves a slice of the input with no whitespace at either
      end, and changes nothing that already has none there. */
  lemma TrimMeaning(s: string)
    ensures var r := Trim(s);
      && (|r| > 0 ==> !IsSpace(r[0]) && !IsSpace(r[|r| - 1]))
      && (exists a, b :: 0 <= a <= b <= |s| && r == s[a..b])
      && (NoSpaces(s) ==> r == s)
      && ((|s| == 0 || (!IsSpace(s[0]) && !IsSpace(s[|s| - 1]))) ==> r == s)
      && (SingleSpaced(s) ==> SingleSpaced(r))
  {
    var a := RunEnd(s, 0, IsSpace);
    var t := s[a..];
    var b := RunStart(t, |t|, IsSpace);
    assert t[..b] == s[a..a + b];
  }

  /** Whitespace is single spaces only and never two in a row. */
  ghost predicate SingleSpaced(s: string) {
    && (forall k :: 0 <= k < |s| && IsSpace(s[k]) ==> s[k] == ' ')
    && (forall k :: 0 < k < |s| && IsSpace(s[k]) ==> !IsSpace(s[k - 1]))
  }

  /** `s.replace(/\s+/g, ' ')`: every maximal run of whitespace becomes one
      space. */
  function CollapseSpaces(s: string): (r: string)
    decreases |s|
    ensures |r| <= |s|
    ensures |s| > 0 ==> |r| > 0 && (IsSpace(r[0]) <==> IsSpace(s[0]))
    ensures SingleSpaced(r)
  {
    if |s| == 0 then ""
    else if IsSpace(s[0]) then " " + CollapseSpaces(s[RunEnd(s, 0, IsSpace)..])
    else [s[0]] + CollapseSpaces(s[1..])
  }

  /** Collapsing leaves text that is already single-spaced as it is. */
  lemma {:induction false} CollapseSingleSpaced(s: string)
    requires SingleSpaced(s)
    ensures CollapseSpaces(s) == s
  {
    if |s| > 0 {
      assert SingleSpaced(s[1..]);
      if IsSpace(s[0]) {
        assert RunEnd(s, 0, IsSpace) == 1 by {
          assert |s| == 1 || !IsSpace(s[1]);
          assert RunEnd(s, 1, IsSpace) == 1;
        }
      }
      CollapseSingleSpaced(s[1..]);
    }
  }

  /** `s.replace(/\s+/g, '')`. */
  function RemoveSpaces(s: string): (r: string)
    ensures |r| <= |s|
  {
    if |s| == 0 then ""
    else (if IsSpace(s[0]) then "" else [s[0]]) + RemoveSpaces(s[1..])
  }

  /** What is left holds no whitespace. */
  lemma {:induction false} RemoveSpacesClean(s: string)
    ensures NoSpaces(RemoveSpaces(s))
  {
    if |s| > 0 {
      RemoveSpacesClean(s[1..]);
      var t := RemoveSpaces(s[1..]);
      if !IsSpace(s[0]) {
        var r := [s[0]] + t;
        assert RemoveSpaces(s) == r;
        forall k | 0 <= k < |r| ensures !IsSpace(r[k]) {
          if k > 0 {
            assert r[k] == t[k - 1];
          }
        }
      }
    }
  }

  /** Text without whitespace is left as it is. */
  lemma {:induction false} RemoveSpacesFixed(s: string)
    requires NoSpaces(s)
    ensures RemoveSpaces(s) == s
  {
    if |s| > 0 {
      assert !IsSpace(s[0]);
      assert NoSpaces(s[1..]) by {
        forall k | 0 <= k < |s| - 1 ensures !IsSpace(s[1..][k]) {
          assert s[1..][k] == s[k + 1];
        }
      }
      RemoveSpacesFixed(s[1..]);
      assert [s[0]] + s[1..] == s;
    }
  }

  /** What is left holds no whitespace, and text without whitespace is left
      as it is. */
  lemma RemoveSpacesNoSpaces(s: string)
    ensures NoSpaces(RemoveSpaces(s))
    ensures NoSpaces(s) ==> RemoveSpaces(s) == s
  {
    RemoveSpacesClean(s);
    if NoSpaces(s) {
      RemoveSpacesFixed(s);
    }
  }

  /** `s.replace(/c/g, rep)` for a one-character pattern. */
  function ReplaceChar(s: string, c: char, rep: string): string {
    if |s| == 0 then ""
    else (if s[0] == c then rep else [s[0]]) + ReplaceChar(s[1..], c, rep)
  }

  lemma {:induction false} ReplaceCharConcat(a: string, b: string, c: char, rep: string)
    ensures ReplaceChar(a + b, c, rep) == ReplaceChar(a, c, rep) + ReplaceChar(b, c, rep)
  {
    if |a| > 0 {
      assert (a + b)[1..] == a[1..] + b;
      ReplaceCharConcat(a[1..], b, c, rep);
    } else {
      assert a + b == b;
    }
  }

  lemma {:induction false} RemoveSpacesConcat(a: string, b: string)
    ensures RemoveSpaces(a + b) == RemoveSpaces(a) + RemoveSpaces(b)
  {
    if |a| > 0 {
      assert (a + b)[1..] == a[1..] + b;
      RemoveSpacesConcat(a[1..], b);
    } else {
      assert a + b == b;
    }
  }

  /** Removing whitespace twice removes nothing more. */
  lemma RemoveSpacesIdempotent(s: string)
    ensures RemoveSpaces(RemoveSpaces(s)) == RemoveSpaces(s)
  {
    RemoveSpacesNoSpaces(s);
    RemoveSpacesNoSpaces(RemoveSpaces(s));
  }

  /** `s.split(sep)`. */
  function Split(s: string, sep: char): (r: seq<string>)
    decreases |s|
    ensures |r| > 0
  {
    var k := IndexOf(s, [sep], 0);
    if k < 0 then [s] else [s[..k]] + Split(s[k + 1..], sep)
  }

  /** `parts.join([sep])`. */
  function Join(parts: seq<string>, sep: string): string {
    if |parts| == 0 then ""
    else if |parts| == 1 then parts[0]
    else parts[0] + sep + Join(parts[1..], sep)
  }

  /** `toLowerCase` on one character, for the ASCII and basic Cyrillic
      letters. */
  function LowerChar(c: char): char {
    if 'A' <= c <= 'Z' then (c as int + 32) as char
    else if '\U{0410}' <= c <= '\U{042F}' then (c as int + 32) as char
    else if '\U{0400}' <= c <= '\U{040F}' then (c as int + 80) as char
    else c
  }

  /** `s.toLowerCase()` (see `LowerChar`). */
  function Lower(s: string): (r: string)
    ensures |r| == |s|
    ensures forall k :: 0 <= k < |s| ==> r[k] == LowerChar(s[k])
  {
    seq(|s|, k requires 0 <= k < |s| => LowerChar(s[k]))
  }

  predicate Excludes(s: string, c: char) { forall k :: 0 <= k < |s| ==> s[k] != c }

  lemma ExcludesConcat(a: string, b: string, c: char)
    requires Excludes(a, c) && Excludes(b, c)
    ensures Excludes(a + b, c)
  {
    forall k | 0 <= k < |a + b| ensures (a + b)[k] != c {
      if k >= |a| {
        assert (a + b)[k] == b[k - |a|];
      }
    }
  }

  /** Splitting on a separator that no part contains recovers the parts. */
  lemma {:induction false} SplitJoin(parts: seq<string>, sep: char)
    requires |parts| > 0
    requires forall i :: 0 <= i < |parts| ==> Excludes(parts[i], sep)
    ensures Split(Join(parts, [sep]), sep) == parts
  {
    var p := parts[0];
    if |parts| == 1 {
      NoSeparator(p, sep);
    } else {
      var rest := Join(parts[1..], [sep]);
      var s := p + [sep] + rest;
      assert Join(parts, [sep]) == s;
      FirstSeparator(p, rest, sep);
      assert s[..|p|] == p;
      assert s[|p| + 1..] == rest;
      assert Split(s, sep) == [p] + Split(rest, sep);
      SplitJoin(parts[1..], sep);
      assert parts == [p] + parts[1..];
    }
  }

  lemma NoSeparator(p: string, sep: char)
    requires Excludes(p, sep)
    ensures IndexOf(p, [sep], 0) == -1
  {
    forall k | 0 <= k <= |p| ensures !StartsAt(p, k, [sep]) {
      if k + 1 <= |p| { assert p[k..k + 1] == [p[k]]; }
    }
  }

  lemma FirstSeparator(p: string, rest: string, sep: char)
    requires Excludes(p, sep)
    ensures IndexOf(p + [sep] + rest, [sep], 0) == |p|
  {
    var s := p + [sep] + rest;
    IndexOfFirst(s, [sep], 0);
    assert StartsAt(s, |p|, [sep]) by { assert s[|p|..|p| + 1] == [sep]; }
    forall k | 0 <= k < |p| ensures !StartsAt(s, k, [sep]) {
      assert s[k..k + 1] == [p[k]];
    }
  }
}
