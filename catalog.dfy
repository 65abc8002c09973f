/** The two catalog extractors over the page text the proxy returns:
    `parseRichModsFromMarkdown`, which reads preview-image links and the
    text after each of them, and `parseBasicModsFromMarkdown`, its fallback
    over plain page links. Each regular expression is a scanner that finds
    the same matches as the expression: the leftmost match, and a global
    search that resumes where the previous match ended. */
module Catalog {
  import opened Strings
  import opened Records
  import opened Normalize
  import opened Tokens
  import opened Snippets

  /** `state.catalogParseMode`: `'—'`, `'basic'` or `'rich'`. */
  datatype ParseMode = Unset | Basic | Rich

  /** What an extractor returns and records in the state: the mods and the
      path that produced them (`catalogExtractedCount` is `|mods|`). */
  datatype Extraction = Extraction(mods: seq<Mod>, mode: ParseMode)

  // ---------------------------------------------------------------------
  // The id tail shared by both link patterns: `(\d+)[^)]*\)`

  /** Where the digit run of an id starts and ends, and where the match
      ends: one past the first `)` behind the digits. */
  datatype IdTail = IdTail(idStart: nat, idEnd: nat, end: nat)

  /** `(\d+)[^)]*\)` at `d0`. The greedy digit run can stop at its longest:
      a shorter run leaves digits for `[^)]*`, which then needs the same
      `)`. */
  function IdTailAt(s: string, d0: nat): (r: Option<IdTail>)
    requires d0 <= |s|
    ensures r.Some? ==> d0 == r.value.idStart < r.value.idEnd < r.value.end <= |s|
    ensures r.Some? ==> forall k :: d0 <= k < r.value.idEnd ==> IsDigit(s[k])
    ensures r.None? <==> (d0 == |s| || !IsDigit(s[d0]) || IndexOf(s, ")", RunEnd(s, d0, IsDigit)) < 0)
  {
    var d1 := RunEnd(s, d0, IsDigit);
    RunEndAll(s, d0, IsDigit);
    if d1 == d0 then None
    else
      var c := IndexOf(s, ")", d1);
      IndexOfChar(s, ')', d1);
      if c < 0 then None else Some(IdTail(d0, d1, c + 1))
  }

  /** `t` is what the id pattern matches where it starts. */
  ghost predicate IsIdTail(s: string, t: IdTail) {
    t.idStart <= |s| && IdTailAt(s, t.idStart) == Some(t)
  }

  /** An id tail captures a non-empty run of digits and ends at the first
      `)` after them. */
  lemma IdTailMeaning(s: string, t: IdTail)
    requires IsIdTail(s, t)
    ensures var id := s[t.idStart..t.idEnd]; |id| > 0 && AllDigits(id)
    ensures s[t.end - 1] == ')' && forall k :: t.idEnd <= k < t.end - 1 ==> s[k] != ')'
  {
    forall k | 0 <= k < t.idEnd - t.idStart ensures IsDigit(s[t.idStart..t.idEnd][k]) {
      assert s[t.idStart..t.idEnd][k] == s[t.idStart + k];
    }
    IndexOfChar(s, ')', t.idEnd);
    IndexOfFirst(s, ")", t.idEnd);
    forall k | t.idEnd <= k < t.end - 1 ensures s[k] != ')' {
      assert !StartsAt(s, k, ")");
      assert s[k..k + 1] == [s[k]];
    }
  }

  // ---------------------------------------------------------------------
  // parseBasicModsFromMarkdown:
  // /\[(.*?)\]\(https:\/\/steamcommunity\.com\/sharedfiles\/filedetails\/\?id=(\d+)[^)]*\)/gms

  /** One match of the basic pattern: where it starts, the link text, the
      id and the position after the match. */
  datatype BasicMatch = BasicMatch(start: nat, text: string, id: string, end: nat)

  /** The part of the basic pattern after the link text, at `j`. */
  function BasicTailAt(s: string, j: nat): (r: Option<IdTail>)
    ensures r.Some? ==> r.value.idStart == j + |SharedFilesMarker| && IsIdTail(s, r.value)
  {
    if StartsAt(s, j, SharedFilesMarker) then IdTailAt(s, j + |SharedFilesMarker|) else None
  }

  /** Where the part after the link text matches. */
  function BasicTailStarts(s: string): nat -> bool {
    (j: nat) => BasicTailAt(s, j).Some?
  }

  /** The basic match that starts at `i`, if any: `[`, then the lazy
      `(.*?)` up to the first position where the rest matches. */
  function BasicMatchAt(s: string, i: nat): (r: Option<BasicMatch>)
    ensures r.Some? ==> r.value.start == i < r.value.end <= |s|
  {
    if i < |s| && s[i] == '[' then
      match FirstFrom(i + 1, |s|, BasicTailStarts(s))
      case None => None
      case Some(j) =>
        var t := BasicTailAt(s, j).value;
        Some(BasicMatch(i, s[i + 1..j], s[t.idStart..t.idEnd], t.end))
    else None
  }

  /** Where a basic match starts. */
  function BasicStarts(s: string): nat -> bool {
    (i: nat) => BasicMatchAt(s, i).Some?
  }

  /** `regex.exec` with `lastIndex == from`: the leftmost basic match. */
  function NextBasic(s: string, from: nat): (r: Option<BasicMatch>)
    ensures r.Some? ==> from <= r.value.start < r.value.end <= |s|
  {
    match FirstFrom(from, |s|, BasicStarts(s))
    case None => None
    case Some(i) => BasicMatchAt(s, i)
  }

  /** All basic matches from `from` on, each search resuming at the end of
      the previous match. */
  function BasicMatches(s: string, from: nat): seq<BasicMatch>
    decreases |s| - from
  {
    match NextBasic(s, from)
    case None => []
    case Some(m) => [m] + BasicMatches(s, m.end)
  }

  /** One search step: the match found and the matches after it. */
  lemma BasicMatchesStep(s: string, from: nat, done: seq<BasicMatch>, m: BasicMatch)
    requires NextBasic(s, from) == Some(m)
    ensures from < m.end <= |s|
    ensures done + BasicMatches(s, from) == (done + [m]) + BasicMatches(s, m.end)
  {
    var rest := BasicMatches(s, m.end);
    BasicMatchesUnfold(s, from, m);
    assert done + ([m] + rest) == (done + [m]) + rest;
  }

  lemma BasicMatchesUnfold(s: string, from: nat, m: BasicMatch)
    requires NextBasic(s, from) == Some(m)
    ensures BasicMatches(s, from) == [m] + BasicMatches(s, m.end)
  {
  }

  /** The record a basic match creates: none for a link text that starts
      with `![Image`, otherwise a fresh record with the normalised text as
      its name or `Мод #<id>` when that is empty. */
  function BasicRecord(m: BasicMatch): Option<Mod> {
    if StartsAt(m.text, 0, "![Image") then None
    else
      var name := NormalizeTitle(m.text);
      Some(NewMod(m.id, if name != "" then name else FallbackName(m.id), UnknownAuthor, "", "", 0))
  }

  function OptSeq(r: Option<Mod>): seq<Mod> {
    match r
    case None => []
    case Some(m) => [m]
  }

  /** The records of `ms` in match order, before deduplication. */
  function BasicRecords(ms: seq<BasicMatch>): seq<Mod> {
    if |ms| == 0 then []
    else BasicRecords(ms[..|ms| - 1]) + OptSeq(BasicRecord(ms[|ms| - 1]))
  }

  lemma BasicRecordsSnoc(ms: seq<BasicMatch>, m: BasicMatch)
    ensures BasicRecord(m).None? ==> BasicRecords(ms + [m]) == BasicRecords(ms)
    ensures BasicRecord(m).Some? ==> BasicRecords(ms + [m]) == BasicRecords(ms) + [BasicRecord(m).value]
  {
    assert (ms + [m])[..|ms|] == ms;
  }

  /** What `parseBasicModsFromMarkdown` computes. */
  function BasicMods(text: string): seq<Mod> {
    FirstById(BasicRecords(BasicMatches(text, 0)))
  }

  /** The `regex.exec` loop of `parseBasicModsFromMarkdown`: each record
      goes into the `Map` unless its id is already there. */
  method ParseBasic(text: string) returns (e: Extraction)
    ensures e.mods == BasicMods(text)
    ensures e.mode == Basic
  {
    var byId: map<string, Mod> := map[];
    var order: seq<string> := [];
    ghost var done: seq<BasicMatch> := [];
    var pos: nat := 0;
    while true
      invariant pos <= |text|
      invariant done + BasicMatches(text, pos) == BasicMatches(text, 0)
      invariant Indexes(byId, order, BasicRecords(done))
      decreases |text| - pos
    {
      var next := NextBasic(text, pos);
      if next.None? {
        break;
      }
      var m := next.value;
      var record := BasicRecord(m);
      if record.Some? {
        byId, order := Remember(byId, order, BasicRecords(done), record.value);
      }
      BasicRecordsSnoc(done, m);
      BasicMatchesStep(text, pos, done, m);
      done := done + [m];
      pos := m.end;
    }
    assert BasicMatches(text, pos) == [];
    assert done == done + BasicMatches(text, pos);
    IndexesValues(byId, order, BasicRecords(done));
    e := Extraction(Values(byId, order), Basic);
  }

  // ---------------------------------------------------------------------
  // What a basic match is

  /** A basic match at `i` is `[`, the link text, the marker and the id,
      closed by the first `)` after the digits. */
  lemma BasicMatchMeaning(s: string, i: nat)
    requires BasicMatchAt(s, i).Some?
    ensures var m := BasicMatchAt(s, i).value;
      var j := i + 1 + |m.text|;
      && s[i] == '['
      && m.text == s[i + 1..j]
      && StartsAt(s, j, SharedFilesMarker)
      && m.id == s[j + |SharedFilesMarker|..j + |SharedFilesMarker| + |m.id|]
      && |m.id| > 0 && AllDigits(m.id)
      && s[m.end - 1] == ')'
      && (forall k :: j + |SharedFilesMarker| + |m.id| <= k < m.end - 1 ==> s[k] != ')')
  {
    var j := FirstFrom(i + 1, |s|, BasicTailStarts(s)).value;
    assert BasicTailStarts(s)(j);
    var t := BasicTailAt(s, j).value;
    assert StartsAt(s, j, SharedFilesMarker) && t.idStart == j + |SharedFilesMarker|;
    var m := BasicMatch(i, s[i + 1..j], s[t.idStart..t.idEnd], t.end);
    assert BasicMatchAt(s, i).value == m;
    assert i + 1 + |m.text| == j && t.idStart + |m.id| == t.idEnd;
    IdTailMeaning(s, t);
  }

  /** The lazy `(.*?)` takes the shortest link text after which the rest of
      the pattern matches. */
  lemma BasicMatchShortest(s: string, i: nat)
    requires BasicMatchAt(s, i).Some?
    ensures forall k :: i + 1 <= k < i + 1 + |BasicMatchAt(s, i).value.text| ==> BasicTailAt(s, k).None?
  {
    var j := FirstFrom(i + 1, |s|, BasicTailStarts(s)).value;
    forall k | i + 1 <= k < j ensures BasicTailAt(s, k).None? {
      assert !BasicTailStarts(s)(k);
    }
  }

  /** The search finds the leftmost match: none starts between `from` and
      the match found, and none at all when the search fails. */
  lemma NextBasicLeftmost(s: string, from: nat)
    ensures NextBasic(s, from).Some? ==> BasicMatchAt(s, NextBasic(s, from).value.start) == NextBasic(s, from)
    ensures NextBasic(s, from).Some? ==>
      forall i :: from <= i < NextBasic(s, from).value.start ==> BasicMatchAt(s, i).None?
    ensures NextBasic(s, from).None? ==> forall i :: from <= i < |s| ==> BasicMatchAt(s, i).None?
  {
    var r := FirstFrom(from, |s|, BasicStarts(s));
    var stop := if r.Some? then r.value else |s|;
    forall i | from <= i < stop ensures BasicMatchAt(s, i).None? {
      assert !BasicStarts(s)(i);
    }
  }

  // ---------------------------------------------------------------------
  // parseRichModsFromMarkdown:
  // /\[!\[Image[^\]]*\]\((https?:\/\/images\.steamusercontent\.com\/[^)]+)\)\]
  //  \(https?:\/\/steamcommunity\.com\/sharedfiles\/filedetails\/\?id=(\d+)[^)]*\)/g

  const ImageHost := "images.steamusercontent.com/"
  const PagePath := "steamcommunity.com/sharedfiles/filedetails/?id="

  /** `https?://` followed by `rest` at `i`: the position after both. The
      two spellings differ in their fifth character, so at most one of them
      is there and backtracking over the `?` finds nothing else. */
  function SchemeThen(s: string, i: nat, rest: string): (r: Option<nat>)
    ensures r.Some? ==> i + 7 + |rest| <= r.value <= |s|
  {
    if StartsAt(s, i, "https://" + rest) then Some(i + 8 + |rest|)
    else if StartsAt(s, i, "http://" + rest) then Some(i + 7 + |rest|)
    else None
  }

  /** One match of the preview pattern: where it starts, the preview image
      address (group 1), the id (group 2) and the position after it. */
  datatype RichMatch = RichMatch(start: nat, preview: string, id: string, end: nat)

  /** `\]\((https?:\/\/images\.steamusercontent\.com\/[^)]+)\)` at `b`:
      the position of the `)` that closes the image address. `[^)]+`
      cannot pass a `)`, so it stops at the first one; the scheme and the
      host hold none, so that is the first `)` after `](`. */
  function PreviewClose(s: string, b: nat): (r: Option<nat>)
    ensures r.Some? ==> b + 2 < r.value < |s| && s[r.value] == ')'
  {
    if !StartsAt(s, b, "](") then None
    else
      match SchemeThen(s, b + 2, ImageHost)
      case None => None
      case Some(h) =>
        var c := IndexOf(s, ")", b + 2);
        IndexOfChar(s, ')', b + 2);
        if c <= h then None else Some(c)
  }

  /** The image address a preview match captures starts with the scheme
      and the image host and holds no `)`. */
  lemma PreviewShape(s: string, b: nat)
    requires PreviewClose(s, b).Some?
    ensures var p := s[b + 2..PreviewClose(s, b).value];
      && (StartsAt(p, 0, "https://" + ImageHost) || StartsAt(p, 0, "http://" + ImageHost))
      && Excludes(p, ')')
  {
    assert ")" == [')'];
    if StartsAt(s, b + 2, "https://" + ImageHost) {
      SearchPast(s, b + 2, "https://" + ImageHost, ')');
    } else {
      SearchPast(s, b + 2, "http://" + ImageHost, ')');
    }
  }

  /** `\)\]\(https?:\/\/steamcommunity\.com\/sharedfiles\/filedetails\/\?id=`
      and the id at `c`. */
  function RichTailAt(s: string, c: nat): (r: Option<IdTail>)
    ensures r.Some? ==> c + 3 < r.value.idStart && IsIdTail(s, r.value)
  {
    if !StartsAt(s, c, ")](") then None
    else
      match SchemeThen(s, c + 3, PagePath)
      case None => None
      case Some(d0) => IdTailAt(s, d0)
  }

  /** The preview match that starts at `i`, if any. `[^\]]*` cannot pass a
      `]`, so it stops at the first one, and the match at `i` is unique. */
  function RichMatchAt(s: string, i: nat): (r: Option<RichMatch>)
    ensures r.Some? ==> r.value.start == i < r.value.end <= |s|
  {
    if !StartsAt(s, i, "[![Image") then None
    else
      var b := IndexOf(s, "]", i + 8);
      if b < 0 then None
      else
        match PreviewClose(s, b)
        case None => None
        case Some(c) =>
          match RichTailAt(s, c)
          case None => None
          case Some(t) => Some(RichMatch(i, s[b + 2..c], s[t.idStart..t.idEnd], t.end))
  }

  /** Where a preview match starts. */
  function RichStarts(s: string): nat -> bool {
    (i: nat) => RichMatchAt(s, i).Some?
  }

  /** `previewRegex.exec` with `lastIndex == from`. */
  function NextRich(s: string, from: nat): (r: Option<RichMatch>)
    ensures r.Some? ==> from <= r.value.start < r.value.end <= |s|
  {
    match FirstFrom(from, |s|, RichStarts(s))
    case None => None
    case Some(i) => RichMatchAt(s, i)
  }

  /** All preview matches from `from` on. */
  function RichMatches(s: string, from: nat): seq<RichMatch>
    decreases |s| - from
  {
    match NextRich(s, from)
    case None => []
    case Some(m) => [m] + RichMatches(s, m.end)
  }

  lemma RichMatchesStep(s: string, from: nat, done: seq<RichMatch>, m: RichMatch)
    requires NextRich(s, from) == Some(m)
    ensures from < m.end <= |s|
    ensures done + RichMatches(s, from) == (done + [m]) + RichMatches(s, m.end)
  {
    var rest := RichMatches(s, m.end);
    RichMatchesUnfold(s, from, m);
    assert done + ([m] + rest) == (done + [m]) + rest;
  }

  lemma RichMatchesUnfold(s: string, from: nat, m: RichMatch)
    requires NextRich(s, from) == Some(m)
    ensures RichMatches(s, from) == [m] + RichMatches(s, m.end)
  {
  }

  /** The search finds the leftmost preview match. */
  lemma NextRichLeftmost(s: string, from: nat)
    ensures NextRich(s, from).Some? ==> RichMatchAt(s, NextRich(s, from).value.start) == NextRich(s, from)
    ensures NextRich(s, from).Some? ==>
      forall i :: from <= i < NextRich(s, from).value.start ==> RichMatchAt(s, i).None?
    ensures NextRich(s, from).None? ==> forall i :: from <= i < |s| ==> RichMatchAt(s, i).None?
  {
    var r := FirstFrom(from, |s|, RichStarts(s));
    var stop := if r.Some? then r.value else |s|;
    forall i | from <= i < stop ensures RichMatchAt(s, i).None? {
      assert !RichStarts(s)(i);
    }
  }

  /** A preview match holds a non-empty image address on the image host
      and a non-empty run of digits as its id: the `!id` guard of the loop
      never fires. */
  lemma RichMatchMeaning(s: string, i: nat)
    requires RichMatchAt(s, i).Some?
    ensures var m := RichMatchAt(s, i).value;
      && StartsAt(s, i, "[![Image")
      && (StartsAt(m.preview, 0, "https://" + ImageHost) || StartsAt(m.preview, 0, "http://" + ImageHost))
      && Excludes(m.preview, ')')
      && |m.id| > 0 && AllDigits(m.id)
      && s[m.end - 1] == ')'
  {
    assert StartsAt(s, i, "[![Image");
    var b := IndexOf(s, "]", i + 8);
    var c := PreviewClose(s, b).value;
    var t := RichTailAt(s, c).value;
    var m := RichMatch(i, s[b + 2..c], s[t.idStart..t.idEnd], t.end);
    assert RichMatchAt(s, i).value == m;
    PreviewShape(s, b);
    IdTailMeaning(s, t);
  }

  // ---------------------------------------------------------------------
  // The record of one preview match

  /** `content.slice(index, index + 2200)`: the text a record is read from. */
  const SnippetLength := 2200

  function Snippet(s: string, i: nat): (r: string)
    requires i <= |s|
    ensures |r| <= SnippetLength
  {
    s[i..if i + SnippetLength <= |s| then i + SnippetLength else |s|]
  }

  /** `[^\s)]`. */
  predicate IsUrlChar(c: char) { !IsSpace(c) && c != ')' }

  /** `/(?:\d-star|not-yet)\.png` at `k`. */
  predicate StarFileAt(s: string, k: nat) {
    StarIconAt(s, k) || (k < |s| && s[k] == '/' && NotYetAt(s, k + 1))
  }

  // The star image pattern /https?:\/\/[^\s)]*\/(?:\d-star|not-yet)\.png[^\s)]*/
  // at `p`: where the match ends. Every character of the file name is a
  // `[^\s)]`, so the name lies inside the run of such characters after the
  // scheme, and the last `[^\s)]*` takes the rest of that run.
  function StarUrlAt(s: string, p: nat): (r: Option<nat>)
    ensures r.Some? ==> p < r.value <= |s|
  {
    var q := if StartsAt(s, p, "https://") then p + 8 else if StartsAt(s, p, "http://") then p + 7 else 0;
    if q == 0 then None
    else
      var e := RunEnd(s, q, IsUrlChar);
      if exists k :: q <= k < e && StarFileAt(s, k) then Some(e) else None
  }

  function StarUrlStarts(s: string): nat -> bool {
    (p: nat) => StarUrlAt(s, p).Some?
  }

  /** `snippet.match(...)?.[0] || ''`: the leftmost star image address. */
  function StarUrl(snippet: string): (r: string)
    ensures r != "" ==> exists p :: (0 <= p < |snippet| && StarUrlAt(snippet, p).Some?
      && r == snippet[p..StarUrlAt(snippet, p).value])
  {
    match FirstFrom(0, |snippet|, StarUrlStarts(snippet))
    case None => ""
    case Some(p) => snippet[p..StarUrlAt(snippet, p).value]
  }

  /** The star image address is empty exactly when no position starts a
      match, and otherwise it is the text of the leftmost match. */
  lemma StarUrlMeaning(snippet: string)
    ensures StarUrl(snippet) == "" <==> forall p :: 0 <= p < |snippet| ==> StarUrlAt(snippet, p).None?
    ensures forall p ::
              0 <= p < |snippet| && StarUrlAt(snippet, p).Some?
              && (forall j :: 0 <= j < p ==> StarUrlAt(snippet, j).None?)
              ==> StarUrl(snippet) == snippet[p..StarUrlAt(snippet, p).value]
  {
    var starts := StarUrlStarts(snippet);
    forall p | 0 <= p < |snippet| && StarUrlAt(snippet, p).Some?
      && (forall j :: 0 <= j < p ==> StarUrlAt(snippet, j).None?)
      ensures StarUrl(snippet) == snippet[p..StarUrlAt(snippet, p).value]
    {
      assert forall j :: 0 <= j < p ==> !starts(j);
      FirstFromAt(0, |snippet|, starts, p);
    }
    var f := FirstFrom(0, |snippet|, starts);
    if f.Some? {
      assert starts(f.value);
      assert |StarUrl(snippet)| > 0;
      assert StarUrlAt(snippet, f.value).Some?;
    } else {
      forall p | 0 <= p < |snippet| ensures StarUrlAt(snippet, p).None? {
        assert !starts(p);
      }
    }
  }

  /** The record built for a preview match: the title and author read from
      the snippet, `Мод #<id>` when no title is found, the normalised
      preview address and the star count of the first star image. */
  function RichRecord(s: string, m: RichMatch): Mod
    requires m.start <= |s|
  {
    var snippet := Snippet(s, m.start);
    var title := TitleFrom(snippet, TitleMarker(m.id), 0, NormalizeTitle, AcceptableTitle);
    var author := ExtractAuthor(snippet);
    NewMod(m.id, if title != "" then title else FallbackName(m.id), author.author, author.authorUrl,
           NormalizeImageUrl(m.preview), ParseStars(StarUrl(snippet)))
  }

  /** Matches found in `s`. */
  ghost predicate InText(s: string, ms: seq<RichMatch>) {
    forall k :: 0 <= k < |ms| ==> ms[k].start <= |s|
  }

  /** The records of `ms` in match order, before deduplication. */
  function RichRecords(s: string, ms: seq<RichMatch>): (r: seq<Mod>)
    requires InText(s, ms)
    ensures |r| == |ms|
  {
    if |ms| == 0 then []
    else RichRecords(s, ms[..|ms| - 1]) + [RichRecord(s, ms[|ms| - 1])]
  }

  lemma RichMatchesInText(s: string, from: nat)
    decreases |s| - from
    ensures InText(s, RichMatches(s, from))
  {
    if NextRich(s, from).Some? {
      RichMatchesInText(s, NextRich(s, from).value.end);
    }
  }

  /** What the loop of `parseRichModsFromMarkdown` collects. */
  function RichMods(text: string): seq<Mod> {
    RichMatchesInText(text, 0);
    FirstById(RichRecords(text, RichMatches(text, 0)))
  }

  lemma RichRecordsSnoc(s: string, ms: seq<RichMatch>, m: RichMatch)
    requires InText(s, ms) && m.start <= |s|
    ensures InText(s, ms + [m])
    ensures RichRecords(s, ms + [m]) == RichRecords(s, ms) + [RichRecord(s, m)]
  {
    assert (ms + [m])[..|ms|] == ms;
  }

  /** The body of the preview loop for one match: the snippet, its title,
      author and star image, and the record made of them. */
  method BuildRichRecord(text: string, m: RichMatch) returns (mod: Mod)
    requires m.start <= |text|
    ensures mod == RichRecord(text, m)
  {
    var snippet := Snippet(text, m.start);
    var title := ExtractTitle(snippet, m.id);
    var author := ExtractAuthor(snippet);
    var starUrl := StarUrl(snippet);
    var name := if title != "" then title else FallbackName(m.id);
    mod := NewMod(m.id, name, author.author, author.authorUrl, NormalizeImageUrl(m.preview), ParseStars(starUrl));
  }

  /** The extraction `parseRichModsFromMarkdown` returns: the preview
      records when there are any, the basic ones otherwise. */
  function CatalogExtraction(text: string): Extraction {
    var rich := RichMods(text);
    if |rich| > 0 then Extraction(rich, Rich) else Extraction(BasicMods(text), Basic)
  }

  /** `parseRichModsFromMarkdown`: the `previewRegex.exec` loop, where a
      record is pushed unless `items.some` finds its id, then the fallback
      to the basic extractor when nothing was pushed. */
  method ParseRich(text: string) returns (e: Extraction)
    ensures e == CatalogExtraction(text)
  {
    var items: seq<Mod> := [];
    ghost var done: seq<RichMatch> := [];
    var pos: nat := 0;
    while true
      invariant pos <= |text|
      invariant done + RichMatches(text, pos) == RichMatches(text, 0)
      invariant InText(text, done)
      invariant items == FirstById(RichRecords(text, done))
      decreases |text| - pos
    {
      var next := NextRich(text, pos);
      if next.None? {
        break;
      }
      var m := next.value;
      var mod := BuildRichRecord(text, m);
      ghost var seen := RichRecords(text, done);
      if !HasId(items, mod.id) {
        items := items + [mod];
      }
      FirstByIdSnoc(seen, mod);
      RichRecordsSnoc(text, done, m);
      RichMatchesStep(text, pos, done, m);
      done := done + [m];
      pos := m.end;
    }
    assert RichMatches(text, pos) == [];
    assert done == done + RichMatches(text, pos);
    if |items| > 0 {
      e := Extraction(items, Rich);
    } else {
      e := ParseBasic(text);
    }
  }

  // ---------------------------------------------------------------------
  // What the extractors promise about their records

  /** A record of the basic extractor: a numeric id, every other field as
      a fresh record has it, and the link text or `Мод #<id>` as its name. */
  ghost predicate BasicShape(r: Mod) {
    && |r.id| > 0 && AllDigits(r.id)
    && r == NewMod(r.id, r.name, UnknownAuthor, "", "", 0)
    && (r.name == FallbackName(r.id) || (r.name != "" && Clean(r.name)))
  }

  /** A record of the preview extractor: a numeric id, a title that passed
      the title test or `Мод #<id>`, an author or the placeholder, a profile
      address or none, a normalised preview address and 0 to 9 stars. */
  ghost predicate RichShape(r: Mod) {
    && |r.id| > 0 && AllDigits(r.id)
    && r == NewMod(r.id, r.name, r.author, r.authorUrl, r.preview, r.stars)
    && (r.name == FallbackName(r.id) || (AcceptableTitle(r.name) && Clean(r.name)))
    && (r.author == UnknownAuthor || (r.author != "" && Clean(r.author)))
    && (r.authorUrl == "" || StartsAt(r.authorUrl, 0, ProfileHost))
    && NoSpaces(r.preview) && !CiStartsAt(r.preview, 0, "http://")
    && r.stars <= 9
  }

  /** Every match of the global search is a match where it starts. */
  lemma {:induction false} BasicMatchesFound(s: string, from: nat)
    decreases |s| - from
    ensures forall k :: 0 <= k < |BasicMatches(s, from)| ==>
      BasicMatchAt(s, BasicMatches(s, from)[k].start) == Some(BasicMatches(s, from)[k])
  {
    if NextBasic(s, from).Some? {
      var m := NextBasic(s, from).value;
      BasicMatchesFound(s, m.end);
      var ms := BasicMatches(s, from);
      assert ms == [m] + BasicMatches(s, m.end);
      forall k | 0 <= k < |ms| ensures BasicMatchAt(s, ms[k].start) == Some(ms[k]) {
        if k > 0 {
          assert ms[k] == BasicMatches(s, m.end)[k - 1];
        }
      }
    }
  }

  lemma {:induction false} RichMatchesFound(s: string, from: nat)
    decreases |s| - from
    ensures forall k :: 0 <= k < |RichMatches(s, from)| ==>
      RichMatchAt(s, RichMatches(s, from)[k].start) == Some(RichMatches(s, from)[k])
  {
    if NextRich(s, from).Some? {
      var m := NextRich(s, from).value;
      RichMatchesFound(s, m.end);
      var ms := RichMatches(s, from);
      assert ms == [m] + RichMatches(s, m.end);
      forall k | 0 <= k < |ms| ensures RichMatchAt(s, ms[k].start) == Some(ms[k]) {
        if k > 0 {
          assert ms[k] == RichMatches(s, m.end)[k - 1];
        }
      }
    }
  }

  /** A basic match whose text does not start with `![Image` makes a
      record of the basic shape. */
  lemma BasicRecordShape(s: string, m: BasicMatch)
    requires BasicMatchAt(s, m.start) == Some(m)
    ensures BasicRecord(m).Some? <==> !StartsAt(m.text, 0, "![Image")
    ensures BasicRecord(m).Some? ==> BasicShape(BasicRecord(m).value)
  {
    BasicMatchMeaning(s, m.start);
  }

  lemma {:induction false} BasicRecordsShape(s: string, ms: seq<BasicMatch>)
    requires forall k :: 0 <= k < |ms| ==> BasicMatchAt(s, ms[k].start) == Some(ms[k])
    ensures forall p :: 0 <= p < |BasicRecords(ms)| ==> BasicShape(BasicRecords(ms)[p])
  {
    if |ms| > 0 {
      var init := ms[..|ms| - 1];
      var last := ms[|ms| - 1];
      BasicRecordsShape(s, init);
      BasicRecordShape(s, last);
      var r := BasicRecords(ms);
      assert r == BasicRecords(init) + OptSeq(BasicRecord(last));
      forall p | 0 <= p < |r| ensures BasicShape(r[p]) {
        if p >= |BasicRecords(init)| {
          assert r[p] == BasicRecord(last).value;
        } else {
          assert r[p] == BasicRecords(init)[p];
        }
      }
    }
  }

  /** A record of the preview shape. */
  lemma RichRecordShape(s: string, m: RichMatch)
    requires m.start <= |s| && RichMatchAt(s, m.start) == Some(m)
    ensures RichShape(RichRecord(s, m))
  {
    RichMatchMeaning(s, m.start);
    var snippet := Snippet(s, m.start);
    TitleFromOrigin(snippet, TitleMarker(m.id), 0, NormalizeTitle, AcceptableTitle);
  }

  lemma {:induction false} RichRecordsShape(s: string, ms: seq<RichMatch>)
    requires InText(s, ms)
    requires forall k :: 0 <= k < |ms| ==> RichMatchAt(s, ms[k].start) == Some(ms[k])
    ensures forall p :: 0 <= p < |ms| ==> RichShape(RichRecords(s, ms)[p])
  {
    if |ms| > 0 {
      var init := ms[..|ms| - 1];
      var last := ms[|ms| - 1];
      RichRecordsShape(s, init);
      RichRecordShape(s, last);
      var r := RichRecords(s, ms);
      forall p | 0 <= p < |ms| ensures RichShape(r[p]) {
        if p < |init| {
          assert r[p] == RichRecords(s, init)[p];
        }
      }
    }
  }

  /** Every record the basic extractor returns has the basic shape, and no
      two share an id. */
  lemma BasicModsShape(text: string)
    ensures DistinctIds(BasicMods(text))
    ensures forall p :: 0 <= p < |BasicMods(text)| ==> BasicShape(BasicMods(text)[p])
  {
    var recs := BasicRecords(BasicMatches(text, 0));
    BasicMatchesFound(text, 0);
    BasicRecordsShape(text, BasicMatches(text, 0));
    FirstByIdSubset(recs);
  }

  /** Every record the preview extractor returns has the preview shape, and
      no two share an id. */
  lemma RichModsShape(text: string)
    ensures DistinctIds(RichMods(text))
    ensures forall p :: 0 <= p < |RichMods(text)| ==> RichShape(RichMods(text)[p])
  {
    RichMatchesInText(text, 0);
    var recs := RichRecords(text, RichMatches(text, 0));
    RichMatchesFound(text, 0);
    RichRecordsShape(text, RichMatches(text, 0));
    FirstByIdSubset(recs);
  }

  /** The preview extractor answers for itself exactly when the preview
      pattern matches somewhere; otherwise the answer is the basic one. */
  lemma CatalogFallback(text: string)
    ensures CatalogExtraction(text).mode == Rich <==> NextRich(text, 0).Some?
    ensures CatalogExtraction(text).mode == Basic <==> NextRich(text, 0).None?
    ensures CatalogExtraction(text).mode == Basic ==> CatalogExtraction(text).mods == BasicMods(text)
    ensures CatalogExtraction(text).mode == Rich ==> CatalogExtraction(text).mods == RichMods(text)
  {
    RichMatchesInText(text, 0);
    FirstByIdNonEmpty(RichRecords(text, RichMatches(text, 0)));
  }
}
