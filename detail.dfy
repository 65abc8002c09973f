/** `parseDetailMetadata`: what the text of one mod's page yields. Each
    regular expression is a scanner with the expression's backtracking
    worked out; the markdown converters and the image-address test are
    not part of this model and come in as the functions of a `Markup`. */
module Detail {
  import opened Strings
  import opened Records
  import opened Normalize
  import opened Tokens
  import opened Catalog

  /** `markdownToPlain`, `markdownToHtml` and `isLikelyImageUrl`. */
  datatype Markup = Markup(plain: string -> string, html: string -> string, isImage: string -> bool)

  // ---------------------------------------------------------------------
  // The description: /Description\s+([\s\S]*?)\n\s*\d+\s+Comments/i

  /** `\n\s*\d+\s+Comments` at `e`. Each quantifier is followed by a
      character it cannot consume, so it takes its whole run. */
  predicate CommentsAt(s: string, e: nat) {
    && e < |s| && s[e] == '\n'
    && var a := RunEnd(s, e + 1, IsSpace);
       var d := RunEnd(s, a, IsDigit);
       var w := RunEnd(s, d, IsSpace);
       d > a && w > d && CiStartsAt(s, w, "comments")
  }

  function CommentsStarts(s: string): nat -> bool {
    (e: nat) => CommentsAt(s, e)
  }

  /** The group of a description match at `i`. With the longest `\s+` the
      lazy group ends at the first `Comments` line after the blank run;
      when there is none, a shorter `\s+` lets the group start inside the
      blank run, right at the last `Comments` line there, and it is empty. */
  function DescriptionAt(s: string, i: nat): (r: Option<string>)
  {
    if !CiStartsAt(s, i, "description") || i + 11 >= |s| || !IsSpace(s[i + 11]) then None
    else
      var g := RunEnd(s, i + 11, IsSpace);
      match FirstFrom(g, |s|, CommentsStarts(s))
      case Some(e) => Some(s[g..e])
      case None => if FirstFrom(i + 12, g, CommentsStarts(s)).Some? then Some("") else None
  }

  function DescriptionMatcher(s: string): nat -> Option<string> {
    (i: nat) => DescriptionAt(s, i)
  }

  /** `descriptionMatch ? descriptionMatch[1].trim() : ''`. */
  function RawDescription(s: string): string {
    match FirstMatch(|s|, DescriptionMatcher(s))
    case None => ""
    case Some(g) => Trim(g)
  }

  /** The description is empty when no description heading matches, and
      otherwise it is the trimmed group of the leftmost match. */
  lemma RawDescriptionMeaning(s: string)
    ensures (forall i :: 0 <= i < |s| ==> DescriptionAt(s, i).None?) ==> RawDescription(s) == ""
    ensures forall i ::
              0 <= i < |s| && DescriptionAt(s, i).Some?
              && (forall j :: 0 <= j < i ==> DescriptionAt(s, j).None?)
              ==> RawDescription(s) == Trim(DescriptionAt(s, i).value)
  {
    var at := DescriptionMatcher(s);
    forall i | 0 <= i < |s| && DescriptionAt(s, i).Some?
      && (forall j :: 0 <= j < i ==> DescriptionAt(s, j).None?)
      ensures RawDescription(s) == Trim(DescriptionAt(s, i).value)
    {
      assert forall j :: 0 <= j < i ==> at(j).None?;
      FirstMatchAt(|s|, at, i);
    }
    if forall i :: 0 <= i < |s| ==> DescriptionAt(s, i).None? {
      assert forall i :: 0 <= i < |s| ==> at(i).None?;
    }
  }

  // ---------------------------------------------------------------------
  // Addresses inside the description: /\((https?:\/\/[\s\S]*?)\)/g

  /** A `(` followed by `http://` or `https://` at `i`: the position of the
      first `)` after the scheme, which closes the lazy group. */
  function UrlCloseAt(s: string, i: nat): (r: Option<nat>)
    ensures r.Some? ==> i < r.value < |s| && s[i] == '(' && s[r.value] == ')'
    ensures r.Some? ==> StartsAt(s, i + 1, "https://") || StartsAt(s, i + 1, "http://")
    ensures r.Some? ==> forall k :: i < k < r.value ==> s[k] != ')'
    ensures r.None? && i < |s| && s[i] == '(' && (StartsAt(s, i + 1, "https://") || StartsAt(s, i + 1, "http://"))
            ==> forall k :: i < k < |s| ==> s[k] != ')'
  {
    if i >= |s| || s[i] != '(' then None
    else if !StartsAt(s, i + 1, "https://") && !StartsAt(s, i + 1, "http://") then None
    else
      var scheme := if StartsAt(s, i + 1, "https://") then "https://" else "http://";
      var q := i + 1 + |scheme|;
      var c := IndexOf(s, [')'], q);
      UrlCloseScan(s, i, scheme);
      if c < 0 then None else Some(c)
  }

  /** The first `)` after a `(` at `i` and a scheme free of `)`. */
  lemma UrlCloseScan(s: string, i: nat, scheme: string)
    requires StartsAt(s, i + 1, scheme) && Excludes(scheme, ')')
    ensures var c := IndexOf(s, [')'], i + 1 + |scheme|);
      && (c >= 0 ==> i < c < |s| && s[c] == ')' && forall k :: i < k < c ==> s[k] != ')')
      && (c < 0 ==> forall k :: i < k < |s| ==> s[k] != ')')
  {
    IndexOfChar(s, ')', i + 1 + |scheme|);
    FirstAfter(s, i + 1, scheme, ')');
  }

  /** The next address at or after `from`: its `(` and its `)`. */
  function NextUrl(s: string, from: nat): (r: Option<(nat, nat)>)
    decreases |s| - from
    ensures r.Some? ==> from <= r.value.0 < r.value.1 < |s| && s[r.value.0] == '(' && s[r.value.1] == ')'
  {
    if from >= |s| then None
    else
      match UrlCloseAt(s, from)
      case Some(c) => Some((from, c))
      case None => NextUrl(s, from + 1)
  }

  /** The rewrite that strips whitespace from every address of the
      description. The global search resumes after each `)`, and the
      pattern looks neither back nor at the end of the text, so the rest of
      the search runs on the text after the `)` alone. */
  function RewriteUrls(s: string): (r: string)
    decreases |s|
  {
    var n := NextUrl(s, 0);
    if n.None? then s
    else s[..n.value.0] + "(" + RemoveSpaces(s[n.value.0 + 1..n.value.1]) + ")" + RewriteUrls(s[n.value.1 + 1..])
  }

  /** Replacing a middle part by one with the same whitespace-free form
      keeps the whitespace-free form of the whole. */
  lemma {:induction false} SpliceSpaces(head: string, url: string, url': string, tail: string, tail': string)
    requires RemoveSpaces(url') == RemoveSpaces(url) && RemoveSpaces(tail') == RemoveSpaces(tail)
    ensures RemoveSpaces(head + url' + (")" + tail')) == RemoveSpaces(head + url + (")" + tail))
  {
    RemoveSpacesConcat(head + url', ")" + tail');
    RemoveSpacesConcat(head, url');
    RemoveSpacesConcat(head + url, ")" + tail);
    RemoveSpacesConcat(head, url);
    RemoveSpacesConcat(")", tail');
    RemoveSpacesConcat(")", tail);
  }

  lemma {:induction false} SegmentSplit(s: string, i: nat, c: nat)
    requires i < c < |s| && s[i] == '(' && s[c] == ')'
    ensures s == s[..i] + "(" + s[i + 1..c] + (")" + s[c + 1..])
  {
    assert s == s[..i] + [s[i]] + s[i + 1..c] + ([s[c]] + s[c + 1..]);
  }

  /** The rewrite only removes whitespace: without whitespace, the text
      before and after are the same. */
  lemma {:induction false} RewriteUrlsSpaces(s: string)
    decreases |s|
    ensures RemoveSpaces(RewriteUrls(s)) == RemoveSpaces(s)
  {
    var n := NextUrl(s, 0);
    if n.Some? {
      var i, c := n.value.0, n.value.1;
      RewriteUrlsSpaces(s[c + 1..]);
      RewriteUrlsSpacesStep(s, i, c);
    }
  }

  /** The step of `RewriteUrlsSpaces` at the first address. */
  lemma {:induction false} RewriteUrlsSpacesStep(s: string, i: nat, c: nat)
    requires NextUrl(s, 0).Some? && NextUrl(s, 0).value.0 == i && NextUrl(s, 0).value.1 == c
    requires RemoveSpaces(RewriteUrls(s[c + 1..])) == RemoveSpaces(s[c + 1..])
    ensures RemoveSpaces(RewriteUrls(s)) == RemoveSpaces(s)
  {
    var head, url, rest := s[..i] + "(", s[i + 1..c], s[c + 1..];
    RewriteUrlsNext(s);
    SpliceClean(head, url, rest, RewriteUrls(rest));
    SegmentSplit(s, i, c);
  }

  /** One rewritten address and a rewritten rest: the whitespace-free form
      is that of the original. */
  lemma {:induction false} SpliceClean(head: string, url: string, rest: string, rest': string)
    requires RemoveSpaces(rest') == RemoveSpaces(rest)
    ensures RemoveSpaces(head + RemoveSpaces(url) + ")" + rest') == RemoveSpaces(head + url + (")" + rest))
  {
    ConcatAssoc(head + RemoveSpaces(url), ")", rest');
    RemoveSpacesIdempotent(url);
    SpliceSpaces(head, url, RemoveSpaces(url), rest, rest');
  }

  /** Where no address starts, none is found. */
  lemma {:induction false} NextUrlNone(s: string, from: nat)
    requires forall i :: from <= i < |s| ==> UrlCloseAt(s, i).None?
    decreases |s| - from
    ensures NextUrl(s, from).None?
  {
    if from < |s| {
      NextUrlNone(s, from + 1);
    }
  }

  /** The first address at or after `from` is the one found. */
  lemma {:induction false} NextUrlSkip(s: string, from: nat, i: nat)
    requires from <= i && UrlCloseAt(s, i).Some?
    requires forall k :: from <= k < i ==> UrlCloseAt(s, k).None?
    decreases i - from
    ensures NextUrl(s, from) == Some((i, UrlCloseAt(s, i).value))
  {
    if from < i {
      assert UrlCloseAt(s, from).None?;
      NextUrlSkip(s, from + 1, i);
    }
  }

  /** Text in which no `(` is followed by `http://` or `https://` is left
      as it is. */
  lemma {:induction false} RewriteUrlsNoUrl(s: string)
    requires forall i :: 0 <= i < |s| && s[i] == '(' ==> !StartsAt(s, i + 1, "https://") && !StartsAt(s, i + 1, "http://")
    ensures RewriteUrls(s) == s
  {
    NextUrlNone(s, 0);
  }

  /** An address at `i` closes at the first `)` after its `(`. */
  lemma {:induction false} UrlCloseFirst(s: string, i: nat, c: nat)
    requires i < c < |s| && s[i] == '(' && s[c] == ')'
    requires StartsAt(s, i + 1, "https://") || StartsAt(s, i + 1, "http://")
    requires forall k :: i < k < c ==> s[k] != ')'
    ensures UrlCloseAt(s, i) == Some(c)
  {
    var r := UrlCloseAt(s, i);
    assert r.Some? ==> s[r.value] == ')' && forall k :: i < k < r.value ==> s[k] != ')';
    assert r.Some? ==> r.value == c;
  }

  /** The leftmost address, from its `(` at `i` to the first `)` at `c`
      (an earlier `(` without a scheme after it does not start one):
      the text before it is kept, its whitespace is removed, and the
      rewrite goes on after it. */
  lemma {:induction false} RewriteUrlsAt(s: string, i: nat, c: nat)
    requires i < c < |s| && s[i] == '(' && s[c] == ')'
    requires StartsAt(s, i + 1, "https://") || StartsAt(s, i + 1, "http://")
    requires forall k :: 0 <= k < i && s[k] == '(' ==> !StartsAt(s, k + 1, "https://") && !StartsAt(s, k + 1, "http://")
    requires forall k :: i < k < c ==> s[k] != ')'
    ensures RewriteUrls(s) == s[..i] + "(" + RemoveSpaces(s[i + 1..c]) + ")" + RewriteUrls(s[c + 1..])
  {
    NextUrlAt(s, i, c);
    RewriteUrlsSplice(s, i, c);
  }

  /** A leading `(` without a scheme is kept as it is, and the address
      after it still loses its whitespace. */
  lemma {:induction false} RewriteUrlsAfterNote(u: string, b: string)
    requires Excludes(u, ')')
    requires StartsAt(u, 0, "https://") || StartsAt(u, 0, "http://")
    ensures RewriteUrls("(note) " + "(" + u + ")" + b) == "(note) " + "(" + RemoveSpaces(u) + ")" + RewriteUrls(b)
  {
    var a := "(note) ";
    var s := a + "(" + u + ")" + b;
    var i, c := |a|, |a| + 1 + |u|;
    assert s[..i] == a && s[i] == '(';
    assert s[i + 1..c] == u && s[c] == ')';
    assert s[c + 1..] == b;
    assert s[0] == '(' && s[1] == 'n';
    assert !StartsAt(s, 1, "https://") && !StartsAt(s, 1, "http://") by {
      assert s[1..9][0] == 'n' && s[1..8][0] == 'n';
    }
    forall k | 0 < k < i ensures s[k] != '(' {
      assert s[k] == a[k];
    }
    forall k | i < k < c ensures s[k] != ')' {
      assert s[k] == u[k - i - 1];
    }
    if StartsAt(u, 0, "https://") {
      StartsAtSlice(s, i + 1, c, "https://");
    } else {
      StartsAtSlice(s, i + 1, c, "http://");
    }
    RewriteUrlsAt(s, i, c);
  }

  /** The leftmost address is the next one found from the start. */
  lemma {:induction false} NextUrlAt(s: string, i: nat, c: nat)
    requires i < c < |s| && s[i] == '(' && s[c] == ')'
    requires StartsAt(s, i + 1, "https://") || StartsAt(s, i + 1, "http://")
    requires forall k :: 0 <= k < i && s[k] == '(' ==> !StartsAt(s, k + 1, "https://") && !StartsAt(s, k + 1, "http://")
    requires forall k :: i < k < c ==> s[k] != ')'
    ensures NextUrl(s, 0) == Some((i, c))
  {
    UrlCloseFirst(s, i, c);
    forall k | 0 <= k < i ensures UrlCloseAt(s, k).None? {}
    NextUrlSkip(s, 0, i);
  }

  /** The rewrite at the address found first. */
  lemma {:induction false} RewriteUrlsSplice(s: string, i: nat, c: nat)
    requires NextUrl(s, 0).Some? && NextUrl(s, 0).value.0 == i && NextUrl(s, 0).value.1 == c
    ensures RewriteUrls(s) == s[..i] + "(" + RemoveSpaces(s[i + 1..c]) + ")" + RewriteUrls(s[c + 1..])
  {
    RewriteUrlsNext(s);
  }

  lemma {:induction false} RewriteUrlsNext(s: string)
    ensures var n := NextUrl(s, 0);
      n.Some? ==> RewriteUrls(s) == s[..n.value.0] + "(" + RemoveSpaces(s[n.value.0 + 1..n.value.1])
                                    + ")" + RewriteUrls(s[n.value.1 + 1..])
  {
  }

  /** One address between two texts: its whitespace is removed, the text
      before it is kept, and the rewrite goes on after its `)`. */
  lemma {:induction false} RewriteUrlsOne(a: string, u: string, b: string)
    requires Excludes(a, '(') && Excludes(u, ')')
    requires StartsAt(u, 0, "https://") || StartsAt(u, 0, "http://")
    ensures RewriteUrls(a + "(" + u + ")" + b) == a + "(" + RemoveSpaces(u) + ")" + RewriteUrls(b)
  {
    var s := a + "(" + u + ")" + b;
    var i, c := |a|, |a| + 1 + |u|;
    assert s[..i] == a && s[i] == '(';
    assert s[i + 1..c] == u && s[c] == ')';
    assert s[c + 1..] == b;
    forall k | 0 <= k < i ensures s[k] != '(' {
      assert s[k] == a[k];
    }
    forall k | i < k < c ensures s[k] != ')' {
      assert s[k] == u[k - i - 1];
    }
    assert s[i + 1..i + 1 + 7] == u[..7];
    if |u| >= 8 {
      assert s[i + 1..i + 1 + 8] == u[..8];
    }
    RewriteUrlsAt(s, i, c);
  }

  // ---------------------------------------------------------------------
  // Tags: /\[([^\]]+)\]\(https:\/\/steamcommunity\.com\/workshop\/browse\/\?[^)]*requiredtags[^)]*\)/g

  const BrowsePrefix := "](https://steamcommunity.com/workshop/browse/?"

  /** A tag link at `i`: the link text (the first `]` ends it, and it is not
      empty) and a browse address whose query, up to the first `)`, holds
      `requiredtags`. */
  function TagAt(s: string, i: nat): (r: Option<Hit>)
    ensures r.Some? ==> r.value.start == i < r.value.end <= |s|
  {
    if i >= |s| || s[i] != '[' then None
    else
      var b := IndexOf(s, "]", i + 1);
      if b <= i + 1 || !StartsAt(s, b, BrowsePrefix) then None
      else
        var q := b + |BrowsePrefix|;
        var c := IndexOf(s, ")", q);
        IndexOfChar(s, ')', q);
        if c < 0 || !Contains(s[q..c], "requiredtags") then None
        else Some(Hit(i, s[i + 1..b], c + 1))
  }

  function TagMatcher(s: string): (at: nat -> Option<Hit>)
    ensures Advances(at)
  {
    (i: nat) => TagAt(s, i)
  }

  /** All tag links of the page. */
  function TagHits(s: string): seq<Hit> {
    Scan(0, |s|, TagMatcher(s))
  }

  /** The non-empty normalised link texts of `hits`, in order. */
  function TagNames(hits: seq<Hit>): seq<string> {
    if |hits| == 0 then []
    else
      var name := NormalizeTitle(hits[|hits| - 1].group);
      TagNames(hits[..|hits| - 1]) + (if name != "" then [name] else [])
  }

  lemma TagNamesSnoc(hits: seq<Hit>, h: Hit)
    ensures TagNames(hits + [h]) ==
      TagNames(hits) + (if NormalizeTitle(h.group) != "" then [NormalizeTitle(h.group)] else [])
  {
    assert (hits + [h])[..|hits|] == hits;
  }

  /** The tags `parseDetailMetadata` returns. */
  function Tags(s: string): seq<string> {
    Dedup(TagNames(TagHits(s)))
  }

  lemma {:induction false} TagNamesShape(hits: seq<Hit>)
    ensures forall t :: t in TagNames(hits) ==> t != "" && Clean(t)
  {
    if |hits| > 0 {
      TagNamesShape(hits[..|hits| - 1]);
    }
  }

  /** The tags are distinct, not empty and normalised. */
  lemma TagsShape(s: string)
    ensures forall p, q :: 0 <= p < q < |Tags(s)| ==> Tags(s)[p] != Tags(s)[q]
    ensures forall t :: t in Tags(s) ==> t != "" && Clean(t)
  {
    TagNamesShape(TagHits(s));
  }

  /** `if (name && !tags.includes(name)) tags.push(name)`. */
  method AddTag(tags: seq<string>, ghost names: seq<string>, name: string) returns (tags': seq<string>)
    requires tags == Dedup(names)
    ensures tags' == Dedup(names + (if name != "" then [name] else []))
  {
    tags' := tags;
    if name != "" {
      DedupSnoc(names, name);
      if name !in tags {
        tags' := tags + [name];
      }
    } else {
      assert names + [] == names;
    }
  }

  /** The `tagRegex.exec` loop: a name is pushed when it is not empty and
      not already among the tags. */
  method CollectTags(content: string) returns (tags: seq<string>)
    ensures tags == Tags(content)
  {
    tags := [];
    ghost var done: seq<Hit> := [];
    var pos: nat := 0;
    while true
      invariant pos <= |content|
      invariant done + Scan(pos, |content|, TagMatcher(content)) == TagHits(content)
      invariant tags == Dedup(TagNames(done))
      decreases |content| - pos
    {
      var next := FirstFrom(pos, |content|, SomeAt(TagMatcher(content)));
      if next.None? {
        break;
      }
      ScanStep(pos, |content|, TagMatcher(content), done, next.value);
      var h := TagMatcher(content)(next.value).value;
      tags := AddTag(tags, TagNames(done), NormalizeTitle(h.group));
      TagNamesSnoc(done, h);
      done := done + [h];
      pos := h.end;
    }
    assert done == done + Scan(pos, |content|, TagMatcher(content));
  }

  // ---------------------------------------------------------------------
  // Labelled counts: /([\d,\.\s]+)\s+<label>/i

  const VisitorsLabel := "unique visitors"
  const SubscribersLabel := "current subscribers"
  const FavoritesLabel := "current favorites"
  const RatingsLabel := "ratings"

  /** The group of a labelled-count match at `p`, for a label that starts
      with a letter. The greedy group takes the whole run of number
      characters and gives back one: the `\s+` then has to consume a
      whitespace run that reaches the label, and since whitespace is a
      number character that run is the end of the group's run. */
  function LabelledAt(s: string, marker: string, p: nat): (r: Option<string>)
    ensures r.Some? ==> && |r.value| > 0 && p + |r.value| < |s|
                        && r.value == s[p..p + |r.value|]
                        && IsSpace(s[p + |r.value|]) && CiStartsAt(s, p + |r.value| + 1, marker)
    ensures r.Some? ==> forall k :: p <= k < p + |r.value| ==> IsNumberChar(s[k])
  {
    if p >= |s| || !IsNumberChar(s[p]) then None
    else
      var e := RunEnd(s, p, IsNumberChar);
      RunEndAll(s, p, IsNumberChar);
      if e >= p + 2 && IsSpace(s[e - 1]) && CiStartsAt(s, e, marker) then Some(s[p..e - 1]) else None
  }

  function LabelMatcher(s: string, marker: string): nat -> Option<string> {
    (p: nat) => LabelledAt(s, marker, p)
  }

  /** `match ? parseNumber(match[1]) : 0` for one label. */
  function LabelledCount(s: string, marker: string): (r: nat) {
    match FirstMatch(|s|, LabelMatcher(s, marker))
    case None => 0
    case Some(g) => ParseNumber(g)
  }

  /** A count is not zero only when a labelled number occurs in the text. */
  lemma LabelledCountNeedsLabel(s: string, marker: string)
    ensures LabelledCount(s, marker) > 0 ==> exists p :: 0 <= p < |s| && LabelledAt(s, marker, p).Some?
  {
    var m := FirstMatch(|s|, LabelMatcher(s, marker));
    if m.Some? {
      var p :| 0 <= p < |s| && LabelMatcher(s, marker)(p) == m;
      assert LabelledAt(s, marker, p).Some?;
    }
  }

  /** The count is the value of the digits of the leftmost match. */
  lemma LabelledCountValue(s: string, marker: string, p: nat)
    requires LabelledAt(s, marker, p).Some?
    requires forall j :: 0 <= j < p ==> LabelledAt(s, marker, j).None?
    ensures LabelledCount(s, marker) == ParseNumber(LabelledAt(s, marker, p).value)
  {
    var at := LabelMatcher(s, marker);
    assert at(p).Some?;
    var m := FirstMatch(|s|, at);
    var i :| 0 <= i < |s| && at(i) == m && forall j :: 0 <= j < i ==> at(j).None?;
    assert i == p;
  }

  // ---------------------------------------------------------------------
  // File size: /([\d.,]+\s*(?:KB|MB|GB))/i

  predicate IsSizeChar(c: char) { IsDigit(c) || c == '.' || c == ',' }

  predicate UnitAt(s: string, i: nat) {
    CiStartsAt(s, i, "kb") || CiStartsAt(s, i, "mb") || CiStartsAt(s, i, "gb")
  }

  /** A size at `p`: the unit cannot start with a size character or with
      whitespace, so both quantifiers take their whole run. */
  function SizeAt(s: string, p: nat): (r: Option<string>)
    ensures r.Some? ==> && |r.value| >= 3 && p + |r.value| <= |s| && r.value == s[p..p + |r.value|]
                        && IsSizeChar(r.value[0]) && UnitAt(s, p + |r.value| - 2)
    ensures r.Some? ==> forall k :: p <= k < p + |r.value| - 2 ==> IsSizeChar(s[k]) || IsSpace(s[k])
    ensures r.Some? ==> forall k :: p < k < p + |r.value| - 2 && IsSpace(s[k - 1]) ==> IsSpace(s[k])
  {
    if p >= |s| || !IsSizeChar(s[p]) then None
    else
      var d := RunEnd(s, p, IsSizeChar);
      var w := RunEnd(s, d, IsSpace);
      SizeRun(s, p, d, w);
      if UnitAt(s, w) then
        var r := s[p..w + 2];
        assert p + |r| - 2 == w;
        Some(r)
      else None
  }

  /** The run of size characters from `p` followed by the whitespace run
      from its end: whitespace comes only after the size characters. */
  lemma SizeRun(s: string, p: nat, d: nat, w: nat)
    requires p <= |s| && d == RunEnd(s, p, IsSizeChar) && w == RunEnd(s, d, IsSpace)
    ensures forall k :: p <= k < w ==> IsSizeChar(s[k]) || IsSpace(s[k])
    ensures forall k :: p < k < w && IsSpace(s[k - 1]) ==> IsSpace(s[k])
  {
    RunEndAll(s, p, IsSizeChar);
    RunEndAll(s, d, IsSpace);
  }

  function SizeMatcher(s: string): nat -> Option<string> {
    (p: nat) => SizeAt(s, p)
  }

  function FileSize(s: string): string {
    match FirstMatch(|s|, SizeMatcher(s))
    case None => ""
    case Some(g) => g
  }

  /** The size is empty exactly when no size occurs in the text, and
      otherwise it is the leftmost one. */
  lemma FileSizeMeaning(s: string)
    ensures FileSize(s) == "" <==> forall p :: 0 <= p < |s| ==> SizeAt(s, p).None?
    ensures forall p ::
              0 <= p < |s| && SizeAt(s, p).Some?
              && (forall j :: 0 <= j < p ==> SizeAt(s, j).None?)
              ==> FileSize(s) == SizeAt(s, p).value
  {
    var at := SizeMatcher(s);
    forall p | 0 <= p < |s| && SizeAt(s, p).Some?
      && (forall j :: 0 <= j < p ==> SizeAt(s, j).None?)
      ensures FileSize(s) == SizeAt(s, p).value
    {
      assert forall j :: 0 <= j < p ==> at(j).None?;
      FirstMatchAt(|s|, at, p);
    }
    var m := FirstMatch(|s|, at);
    if m.Some? {
      var i :| 0 <= i < |s| && at(i) == m && forall j :: 0 <= j < i ==> at(j).None?;
      assert SizeAt(s, i).Some? && |m.value| >= 3;
    } else {
      forall p | 0 <= p < |s| ensures SizeAt(s, p).None? {
        assert at(p).None?;
      }
    }
  }

  // ---------------------------------------------------------------------
  // Posting date: /Posted\s+([A-Za-z]{3}\s+\d{1,2}(?:\s+@\s+[0-9:apm]+)?)/i

  predicate IsClockChar(c: char) {
    IsDigit(c) || c == ':' || c == 'a' || c == 'p' || c == 'm' || c == 'A' || c == 'P' || c == 'M'
  }

  /** The end of the optional `\s+@\s+[0-9:apm]+` at `e`, or `e` when it
      is not there. No quantifier in it can give anything back usefully:
      each is followed by a character it cannot consume. */
  function TimeEnd(s: string, e: nat): (z: nat)
    requires e <= |s|
    ensures e <= z <= |s|
  {
    var a := RunEnd(s, e, IsSpace);
    if a == e || a >= |s| || s[a] != '@' then e
    else
      var c := RunEnd(s, a + 1, IsSpace);
      var z := RunEnd(s, c, IsClockChar);
      if c == a + 1 || z == c then e else z
  }

  /** `[A-Za-z]{3}\s+\d{1,2}` at `b`: where the day ends, two digits when
      there are. */
  function DateEnd(s: string, b: nat): (r: Option<nat>)
    ensures r.Some? ==> && b + 5 <= r.value <= |s|
                        && IsAsciiLetter(s[b]) && IsAsciiLetter(s[b + 1]) && IsAsciiLetter(s[b + 2])
                        && IsSpace(s[b + 3])
  {
    if b + 3 > |s| || !IsAsciiLetter(s[b]) || !IsAsciiLetter(s[b + 1]) || !IsAsciiLetter(s[b + 2]) then None
    else
      var w := RunEnd(s, b + 3, IsSpace);
      if w == b + 3 || w >= |s| || !IsDigit(s[w]) then None
      else Some(if w + 1 < |s| && IsDigit(s[w + 1]) then w + 2 else w + 1)
  }

  /** The group of a posting-date match at `p`: three letters, whitespace,
      the day, then the time if present. */
  function PostedAt(s: string, p: nat): (r: Option<string>)
    ensures r.Some? ==> && CiStartsAt(s, p, "posted") && |r.value| >= 5
                        && IsAsciiLetter(r.value[0]) && IsAsciiLetter(r.value[1]) && IsAsciiLetter(r.value[2])
    ensures r.Some? ==> && p + 6 <= |s|
                        && var b := RunEnd(s, p + 6, IsSpace);
                        && b > p + 6 && b + |r.value| <= |s| && r.value == s[b..b + |r.value|]
                        && IsSpace(s[b + 3])
  {
    if !CiStartsAt(s, p, "posted") then None
    else
      var b := RunEnd(s, p + 6, IsSpace);
      if b == p + 6 then None
      else
        match DateEnd(s, b)
        case None => None
        case Some(e) =>
          var t := TimeEnd(s, e);
          assert b + 5 <= t <= |s|;
          var r := s[b..t];
          assert r[0] == s[b] && r[1] == s[b + 1] && r[2] == s[b + 2];
          Some(r)
  }

  function PostedMatcher(s: string): nat -> Option<string> {
    (p: nat) => PostedAt(s, p)
  }

  function Posted(s: string): string {
    match FirstMatch(|s|, PostedMatcher(s))
    case None => ""
    case Some(g) => g
  }

  /** The date is empty exactly when no posting date occurs in the text,
      and otherwise it is the leftmost one. */
  lemma PostedMeaning(s: string)
    ensures Posted(s) == "" <==> forall p :: 0 <= p < |s| ==> PostedAt(s, p).None?
    ensures forall p ::
              0 <= p < |s| && PostedAt(s, p).Some?
              && (forall j :: 0 <= j < p ==> PostedAt(s, j).None?)
              ==> Posted(s) == PostedAt(s, p).value
  {
    var at := PostedMatcher(s);
    forall p | 0 <= p < |s| && PostedAt(s, p).Some?
      && (forall j :: 0 <= j < p ==> PostedAt(s, j).None?)
      ensures Posted(s) == PostedAt(s, p).value
    {
      assert forall j :: 0 <= j < p ==> at(j).None?;
      FirstMatchAt(|s|, at, p);
    }
    var m := FirstMatch(|s|, at);
    if m.Some? {
      var i :| 0 <= i < |s| && at(i) == m && forall j :: 0 <= j < i ==> at(j).None?;
      assert PostedAt(s, i).Some? && |m.value| >= 5;
    } else {
      forall p | 0 <= p < |s| ensures PostedAt(s, p).None? {
        assert at(p).None?;
      }
    }
  }

  // ---------------------------------------------------------------------
  // Preview: /\[!\[Image[^\]]*\]\((https?:\/\/images\.steamusercontent\.com\/[^)]+)\)/

  /** The image address of a preview match at `p`: the first `]` after
      `[![Image` ends the caption, and from there it is the catalog's
      preview pattern. */
  function DetailPreviewAt(s: string, p: nat): (r: Option<string>)
    ensures r.Some? ==> |r.value| > 0 && r.value[0] == 'h'
  {
    if !StartsAt(s, p, "[![Image") then None
    else
      var b := IndexOf(s, "]", p + 8);
      if b < 0 then None
      else
        match PreviewClose(s, b)
        case None => None
        case Some(c) =>
          PreviewShape(s, b);
          Some(s[b + 2..c])
  }

  function PreviewMatcher(s: string): nat -> Option<string> {
    (p: nat) => DetailPreviewAt(s, p)
  }

  function DetailPreview(s: string): (r: string)
    ensures NoSpaces(r) && !CiStartsAt(r, 0, "http://")
  {
    match FirstMatch(|s|, PreviewMatcher(s))
    case None => ""
    case Some(u) => NormalizeImageUrl(u)
  }

  /** The preview is empty exactly when no position starts a preview
      match, and otherwise it is the normalised address of the leftmost
      match. */
  lemma DetailPreviewMeaning(s: string)
    ensures DetailPreview(s) == "" <==> forall p :: 0 <= p < |s| ==> DetailPreviewAt(s, p).None?
    ensures forall p ::
              0 <= p < |s| && DetailPreviewAt(s, p).Some?
              && (forall j :: 0 <= j < p ==> DetailPreviewAt(s, j).None?)
              ==> DetailPreview(s) == NormalizeImageUrl(DetailPreviewAt(s, p).value)
  {
    var at := PreviewMatcher(s);
    forall p | 0 <= p < |s| && DetailPreviewAt(s, p).Some?
      && (forall j :: 0 <= j < p ==> DetailPreviewAt(s, j).None?)
      ensures DetailPreview(s) == NormalizeImageUrl(DetailPreviewAt(s, p).value)
    {
      assert forall j :: 0 <= j < p ==> at(j).None?;
      FirstMatchAt(|s|, at, p);
    }
    var f := FirstMatch(|s|, at);
    if f.Some? {
      var u := f.value;
      assert RemoveSpaces(u) == [u[0]] + RemoveSpaces(u[1..]);
      assert |DetailPreview(s)| > 0;
    } else {
      forall p | 0 <= p < |s| ensures DetailPreviewAt(s, p).None? {
        assert at(p).None?;
      }
    }
  }

  // ---------------------------------------------------------------------
  // Gallery candidates

  /** `!\[[^\]]*\]\((https?:\/\/[^\s)]+)\)` at `p`, over the markdown. */
  function MarkdownImageAt(s: string, p: nat): (r: Option<Hit>)
    ensures r.Some? ==> r.value.start == p < r.value.end <= |s|
  {
    if !StartsAt(s, p, "![") then None
    else
      var b := IndexOf(s, "]", p + 2);
      if b < 0 || !StartsAt(s, b, "](") then None
      else
        match SchemeThen(s, b + 2, "")
        case None => None
        case Some(q) =>
          var e := RunEnd(s, q, IsUrlChar);
          if e == q || e >= |s| || s[e] != ')' then None
          else Some(Hit(p, s[b + 2..e], e + 1))
  }

  function MarkdownImageMatcher(s: string): (at: nat -> Option<Hit>)
    ensures Advances(at)
  {
    (p: nat) => MarkdownImageAt(s, p)
  }

  const UgcPath := "images.steamusercontent.com/ugc/"

  /** `[\w/%?=&.-]`. */
  predicate IsUgcChar(c: char) {
    IsWordChar(c) || c == '/' || c == '%' || c == '?' || c == '=' || c == '&' || c == '.' || c == '-'
  }

  /** `https?:\/\/images\.steamusercontent\.com\/ugc\/[\w/%?=&.-]+` at `p`:
      the whole match. */
  function UgcAt(s: string, p: nat): (r: Option<Hit>)
    ensures r.Some? ==> r.value.start == p < r.value.end <= |s|
  {
    match SchemeThen(s, p, UgcPath)
    case None => None
    case Some(q) =>
      var e := RunEnd(s, q, IsUgcChar);
      if e == q then None else Some(Hit(p, s[p..e], e))
  }

  function UgcMatcher(s: string): (at: nat -> Option<Hit>)
    ensures Advances(at)
  {
    (p: nat) => UgcAt(s, p)
  }

  /** `[\w.-]`. */
  predicate IsImgurChar(c: char) { IsWordChar(c) || c == '.' || c == '-' }

  /** The length of the extension at `i` that `png|jpe?g|gif|webp|apng`
      takes, trying the alternatives in order, or 0. */
  function ExtLength(s: string, i: nat): (n: nat)
    ensures n > 0 ==> i + n <= |s|
  {
    if CiStartsAt(s, i, "png") then 3
    else if CiStartsAt(s, i, "jpeg") then 4
    else if CiStartsAt(s, i, "jpg") then 3
    else if CiStartsAt(s, i, "gif") then 3
    else if CiStartsAt(s, i, "webp") then 4
    else if CiStartsAt(s, i, "apng") then 4
    else 0
  }

  function ExtDot(s: string): nat -> bool {
    (g: nat) => g < |s| && s[g] == '.' && ExtLength(s, g + 1) > 0
  }

  /** `https?:\/\/i\.imgur\.com\/[\w.-]+\.(?:png|jpe?g|gif|webp|apng)` at
      `p`, ignoring case: the greedy name gives characters back until a
      `.` followed by an extension; that is the last such `.` of its run. */
  function ImgurAt(s: string, p: nat): (r: Option<Hit>)
    ensures r.Some? ==> r.value.start == p < r.value.end <= |s|
  {
    var q := if CiStartsAt(s, p, "https://i.imgur.com/") then p + 20
             else if CiStartsAt(s, p, "http://i.imgur.com/") then p + 19
             else 0;
    if q == 0 then None
    else
      var e := RunEnd(s, q, IsImgurChar);
      match LastFrom(q + 1, e, ExtDot(s))
      case None => None
      case Some(g) =>
        var z := g + 1 + ExtLength(s, g + 1);
        Some(Hit(p, s[p..z], z))
  }

  function ImgurMatcher(s: string): (at: nat -> Option<Hit>)
    ensures Advances(at)
  {
    (p: nat) => ImgurAt(s, p)
  }

  /** The groups of a list of matches. */
  function Groups(hits: seq<Hit>): (r: seq<string>)
    ensures |r| == |hits| && forall k :: 0 <= k < |hits| ==> r[k] == hits[k].group
  {
    seq(|hits|, k requires 0 <= k < |hits| => hits[k].group)
  }

  /** Every candidate address, in the order the code concatenates them. */
  function GalleryCandidates(markdown: string, content: string): seq<string> {
    Groups(Scan(0, |markdown|, MarkdownImageMatcher(markdown)))
    + Groups(Scan(0, |content|, UgcMatcher(content)))
    + Groups(Scan(0, |content|, ImgurMatcher(content)))
  }

  /** `.map(normalizeImageUrl)`. */
  function NormalizeAll(urls: seq<string>): (r: seq<string>)
    ensures |r| == |urls| && forall k :: 0 <= k < |urls| ==> r[k] == NormalizeImageUrl(urls[k])
  {
    seq(|urls|, k requires 0 <= k < |urls| => NormalizeImageUrl(urls[k]))
  }

  /** `.filter(keep)`, order kept. */
  function Filter(xs: seq<string>, keep: string -> bool): (r: seq<string>)
    ensures forall x :: x in r <==> x in xs && keep(x)
    ensures |r| <= |xs|
  {
    if |xs| == 0 then []
    else
      var rest := Filter(xs[1..], keep);
      assert forall x :: x in xs <==> x == xs[0] || x in xs[1..];
      if keep(xs[0]) then [xs[0]] + rest else rest
  }

  const GalleryLimit := 20

  /** `[...new Set(urls)].slice(0, 20)`, after normalising and keeping the
      likely images. */
  function Gallery(markdown: string, content: string, isImage: string -> bool): seq<string> {
    var unique := Dedup(Filter(NormalizeAll(GalleryCandidates(markdown, content)), isImage));
    if |unique| <= GalleryLimit then unique else unique[..GalleryLimit]
  }

  /** At most twenty distinct addresses, each a normalised candidate that
      passes the image test; and they are the first twenty distinct ones. */
  lemma GalleryShape(markdown: string, content: string, isImage: string -> bool)
    ensures var g := Gallery(markdown, content, isImage);
      && |g| <= GalleryLimit
      && (forall p, q :: 0 <= p < q < |g| ==> g[p] != g[q])
      && (forall u :: u in g ==> isImage(u) && NoSpaces(u) && !CiStartsAt(u, 0, "http://")
                                 && exists c :: c in GalleryCandidates(markdown, content) && u == NormalizeImageUrl(c))
  {
    var cands := GalleryCandidates(markdown, content);
    var normal := NormalizeAll(cands);
    var unique := Dedup(Filter(normal, isImage));
    var g := Gallery(markdown, content, isImage);
    forall u | u in g
      ensures isImage(u) && NoSpaces(u) && !CiStartsAt(u, 0, "http://")
      ensures exists c :: c in cands && u == NormalizeImageUrl(c)
    {
      assert u in unique;
      var k :| 0 <= k < |normal| && normal[k] == u;
      assert cands[k] in cands;
    }
  }

  /** Fewer than twenty distinct image addresses are all kept; otherwise
      exactly twenty are. */
  lemma GalleryCount(markdown: string, content: string, isImage: string -> bool)
    ensures var unique := Dedup(Filter(NormalizeAll(GalleryCandidates(markdown, content)), isImage));
      var g := Gallery(markdown, content, isImage);
      && (|unique| <= GalleryLimit ==> g == unique)
      && (|unique| > GalleryLimit ==> |g| == GalleryLimit && g == unique[..GalleryLimit])
  {
  }

  // ---------------------------------------------------------------------
  // The whole page

  /** What `parseDetailMetadata` returns for the page text `content`. */
  function DetailMetadata(content: string, mk: Markup): Details {
    var markdown := RewriteUrls(RawDescription(content));
    Details(
      mk.plain(markdown), markdown, mk.html(markdown),
      Tags(content),
      LabelledCount(content, VisitorsLabel), LabelledCount(content, SubscribersLabel),
      LabelledCount(content, FavoritesLabel), LabelledCount(content, RatingsLabel),
      FileSize(content), Posted(content), DetailPreview(content),
      Gallery(markdown, content, mk.isImage))
  }

  /** `parseDetailMetadata`: the tag loop runs as in the code, every other
      field is one match or one chain of calls. */
  method ParseDetailMetadata(content: string, mk: Markup) returns (d: Details)
    ensures d == DetailMetadata(content, mk)
  {
    var markdown := RewriteUrls(RawDescription(content));
    var tags := CollectTags(content);
    d := Details(
      mk.plain(markdown), markdown, mk.html(markdown),
      tags,
      LabelledCount(content, VisitorsLabel), LabelledCount(content, SubscribersLabel),
      LabelledCount(content, FavoritesLabel), LabelledCount(content, RatingsLabel),
      FileSize(content), Posted(content), DetailPreview(content),
      Gallery(markdown, content, mk.isImage));
  }

  /** The record's guarantees: distinct, non-empty, normalised tags; at most
      twenty distinct image addresses; the markdown's whitespace-free form
      is that of the raw description; HTML and plain text come from the
      markdown. */
  lemma DetailMetadataShape(content: string, mk: Markup)
    ensures var d := DetailMetadata(content, mk);
      && (forall p, q :: 0 <= p < q < |d.tags| ==> d.tags[p] != d.tags[q])
      && (forall t :: t in d.tags ==> t != "" && Clean(t))
      && |d.descriptionImages| <= GalleryLimit
      && (forall u :: u in d.descriptionImages ==> mk.isImage(u) && NoSpaces(u))
      && NoSpaces(d.preview)
      && RemoveSpaces(d.descriptionMarkdown) == RemoveSpaces(RawDescription(content))
      && d.description == mk.plain(d.descriptionMarkdown) && d.descriptionHtml == mk.html(d.descriptionMarkdown)
  {
    var markdown := RewriteUrls(RawDescription(content));
    TagsShape(content);
    GalleryShape(markdown, content, mk.isImage);
    RewriteUrlsSpaces(RawDescription(content));
  }
}
