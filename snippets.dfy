/** What the rich extractor reads out of the text that follows one preview
    link: the title (`extractTitleFromSnippet`) and the author
    (`extractAuthorFromSnippet`). */
module Snippets {
  import opened Strings
  import opened Records
  import opened Normalize

  /** The link text that precedes a mod's page link ends with this. */
  const SharedFilesMarker := "](" + DetailsUrlPrefix

  function TitleMarker(id: string): (m: string)
    ensures |m| > 0 && m[0] == ']'
  {
    SharedFilesMarker + id
  }

  /** `/^image\s+\d+$/i`: a leftover image caption such as `Image 3`. */
  predicate IsImageCaption(c: string) {
    && CiStartsAt(c, 0, "image")
    && var b := RunEnd(c, 5, IsSpace);
       var d := RunEnd(c, b, IsDigit);
       b > 5 && d > b && d == |c|
  }

  /** A candidate the extractor accepts as a title. */
  predicate AcceptableTitle(c: string) {
    |c| > 0 && !IsImageCaption(c) && !Contains(c, "images.steamusercontent.com")
  }

  /** The text between the last `[` before a marker found at `end` and the
      marker, passed through `norm`; empty when no `[` precedes it. The
      search below is stated for any normaliser `norm` and any acceptance
      test `accept`; the extractor uses `NormalizeTitle` and
      `AcceptableTitle`. */
  function TitleCandidate(snippet: string, end: nat, norm: string -> string): string
    requires end < |snippet| && snippet[end] == ']'
  {
    var start := LastIndexOf(snippet, '[', end);
    if start >= 0 then norm(snippet[start + 1..end]) else ""
  }

  /** The title the search loop settles on when it resumes at `index`:
      the first accepted candidate, each search for `marker` starting
      after the previous one, or `""`. */
  function TitleFrom(snippet: string, marker: string, index: nat,
                     norm: string -> string, accept: string -> bool): (r: string)
    requires |marker| > 0 && marker[0] == ']'
    decreases |snippet| + 1 - index
    ensures r == "" || accept(r)
  {
    var end := IndexOf(snippet, marker, index);
    if end < 0 then ""
    else
      assert snippet[end] == snippet[end..end + |marker|][0];
      var c := TitleCandidate(snippet, end, norm);
      if accept(c) then c else TitleFrom(snippet, marker, end + |marker|, norm, accept)
  }

  /** A title is the candidate at some occurrence of the marker at or after
      `index`. */
  lemma {:induction false} TitleFromOrigin(snippet: string, marker: string, index: nat,
                                           norm: string -> string, accept: string -> bool)
    requires |marker| > 0 && marker[0] == ']'
    decreases |snippet| + 1 - index
    ensures var r := TitleFrom(snippet, marker, index, norm, accept);
      r != "" ==> exists e :: (index <= e < |snippet| && StartsAt(snippet, e, marker)
        && snippet[e] == ']' && TitleCandidate(snippet, e, norm) == r)
  {
    var end := IndexOf(snippet, marker, index);
    if end >= 0 {
      assert snippet[end] == snippet[end..end + |marker|][0];
      if !accept(TitleCandidate(snippet, end, norm)) {
        TitleFromOrigin(snippet, marker, end + |marker|, norm, accept);
      }
    }
  }

  /** Two occurrences of a marker that has no `]` after its first character
      lie at least a marker's length apart. */
  lemma MarkerApart(snippet: string, marker: string, i: nat, j: nat)
    requires |marker| > 0 && forall k :: 0 < k < |marker| ==> marker[k] != ']'
    requires StartsAt(snippet, i, marker) && i < j < |snippet| && snippet[j] == ']'
    ensures i + |marker| <= j
  {
  }

  /** `marker` occurs at `e` and the candidate in front of it is accepted. */
  predicate AcceptedAt(snippet: string, marker: string, norm: string -> string,
                       accept: string -> bool, e: nat)
  {
    e < |snippet| && StartsAt(snippet, e, marker) && snippet[e] == ']'
    && accept(TitleCandidate(snippet, e, norm))
  }

  /** The title is the candidate at the first occurrence of the marker, at or
      after `index`, whose candidate is accepted. */
  lemma {:induction false} TitleFromFirst(snippet: string, marker: string, index: nat,
                                          norm: string -> string, accept: string -> bool, e: nat)
    requires |marker| > 0 && marker[0] == ']'
    requires forall k :: 0 < k < |marker| ==> marker[k] != ']'
    requires index <= e && AcceptedAt(snippet, marker, norm, accept, e)
    requires forall j :: index <= j < e ==> !AcceptedAt(snippet, marker, norm, accept, j)
    decreases e - index
    ensures TitleFrom(snippet, marker, index, norm, accept) == TitleCandidate(snippet, e, norm)
  {
    var end := IndexOf(snippet, marker, index);
    IndexOfUpTo(snippet, marker, index, e);
    TitleFound(snippet, marker, index, end);
    if end < e {
      assert !AcceptedAt(snippet, marker, norm, accept, end);
      MarkerApart(snippet, marker, end, e);
      var next: nat := end + |marker|;
      TitleSkip(snippet, marker, index, end, next, norm, accept);
      TitleFromFirst(snippet, marker, next, norm, accept, e);
    } else {
      TitleSettle(snippet, marker, index, end, norm, accept);
    }
  }

  /** An accepted candidate at some occurrence of the marker means the search
      settles on an accepted title. */
  lemma {:induction false} TitleFromFound(snippet: string, marker: string, index: nat,
                                          norm: string -> string, accept: string -> bool, e: nat)
    requires |marker| > 0 && marker[0] == ']'
    requires forall k :: 0 < k < |marker| ==> marker[k] != ']'
    requires index <= e && AcceptedAt(snippet, marker, norm, accept, e)
    decreases e - index
    ensures accept(TitleFrom(snippet, marker, index, norm, accept))
  {
    var end := IndexOf(snippet, marker, index);
    IndexOfUpTo(snippet, marker, index, e);
    TitleFound(snippet, marker, index, end);
    if !accept(TitleCandidate(snippet, end, norm)) {
      assert end < e;
      MarkerApart(snippet, marker, end, e);
      var next: nat := end + |marker|;
      TitleSkip(snippet, marker, index, end, next, norm, accept);
      TitleFromFound(snippet, marker, next, norm, accept, e);
    }
  }

  /** Without the marker there is no title. */
  lemma TitleFromNoMarker(snippet: string, marker: string, index: nat,
                          norm: string -> string, accept: string -> bool)
    requires |marker| > 0 && marker[0] == ']'
    requires forall e :: index <= e <= |snippet| ==> !StartsAt(snippet, e, marker)
    ensures TitleFrom(snippet, marker, index, norm, accept) == ""
  {
  }

  /** The marker found, like every occurrence, starts with `]`. */
  lemma TitleFound(snippet: string, marker: string, index: nat, end: int)
    requires |marker| > 0 && marker[0] == ']'
    requires end == IndexOf(snippet, marker, index) && end >= 0
    ensures end + |marker| <= |snippet| && snippet[end] == ']'
  {
    assert snippet[end] == snippet[end..end + |marker|][0];
  }

  /** An accepted candidate at the next marker is the title. */
  lemma TitleSettle(snippet: string, marker: string, index: nat, end: int,
                    norm: string -> string, accept: string -> bool)
    requires |marker| > 0 && marker[0] == ']'
    requires end == IndexOf(snippet, marker, index) && end >= 0
    requires end < |snippet| && snippet[end] == ']'
    requires accept(TitleCandidate(snippet, end, norm))
    ensures TitleFrom(snippet, marker, index, norm, accept) == TitleCandidate(snippet, end, norm)
  {
  }

  /** A rejected candidate sends the search past its marker. */
  lemma TitleSkip(snippet: string, marker: string, index: nat, end: int, next: nat,
                  norm: string -> string, accept: string -> bool)
    requires |marker| > 0 && marker[0] == ']'
    requires end == IndexOf(snippet, marker, index) && end >= 0
    requires end < |snippet| && snippet[end] == ']'
    requires !accept(TitleCandidate(snippet, end, norm))
    requires next == end + |marker|
    ensures TitleFrom(snippet, marker, index, norm, accept)
         == TitleFrom(snippet, marker, next, norm, accept)
  {
  }

  /** One round of the search loop: either the title is settled, or the
      search resumes further on with the same outcome. */
  method TitleStep(snippet: string, marker: string, index: nat, norm: string -> string, accept: string -> bool)
    returns (done: bool, title: string, next: nat)
    requires |marker| > 0 && marker[0] == ']'
    ensures done ==> title == TitleFrom(snippet, marker, index, norm, accept)
    ensures !done ==> index < next <= |snippet|
    ensures !done ==> TitleFrom(snippet, marker, next, norm, accept) == TitleFrom(snippet, marker, index, norm, accept)
  {
    var end := IndexOf(snippet, marker, index);
    if end < 0 {
      return true, "", index;
    }
    TitleFound(snippet, marker, index, end);
    var start := LastIndexOf(snippet, '[', end);
    var candidate := "";
    if start >= 0 {
      candidate := norm(snippet[start + 1..end]);
    }
    assert candidate == TitleCandidate(snippet, end, norm);
    if accept(candidate) {
      return true, candidate, index;
    }
    next := end + |marker|;
    TitleSkip(snippet, marker, index, end, next, norm, accept);
    return false, "", next;
  }

  /** The search loop of `extractTitleFromSnippet` for one marker. */
  method FindTitle(snippet: string, marker: string, norm: string -> string, accept: string -> bool)
    returns (title: string)
    requires |marker| > 0 && marker[0] == ']'
    ensures title == TitleFrom(snippet, marker, 0, norm, accept)
  {
    var index: nat := 0;
    var done := false;
    title := "";
    while !done
      invariant index <= |snippet|
      invariant done ==> title == TitleFrom(snippet, marker, 0, norm, accept)
      invariant !done ==> TitleFrom(snippet, marker, index, norm, accept) == TitleFrom(snippet, marker, 0, norm, accept)
      decreases |snippet| - index, !done
    {
      var next;
      done, title, next := TitleStep(snippet, marker, index, norm, accept);
      if !done {
        index := next;
      }
    }
  }

  /** `extractTitleFromSnippet`: the normalised text of the link in front
      of the mod's own page link, the first such text that is a real
      title, or `""`. */
  method ExtractTitle(snippet: string, id: string) returns (title: string)
    ensures title == TitleFrom(snippet, TitleMarker(id), 0, NormalizeTitle, AcceptableTitle)
    ensures title == "" || (AcceptableTitle(title) && Clean(title))
  {
    title := FindTitle(snippet, TitleMarker(id), NormalizeTitle, AcceptableTitle);
    TitleFromOrigin(snippet, TitleMarker(id), 0, NormalizeTitle, AcceptableTitle);
  }

  /** A mod id is a run of digits, so its marker has no `]` after the first
      character. */
  lemma TitleMarkerApart(id: string)
    requires AllDigits(id)
    ensures forall k :: 0 < k < |TitleMarker(id)| ==> TitleMarker(id)[k] != ']'
  {
    PrefixWithoutBracket();
    ExcludesConcat("(", DetailsUrlPrefix, ']');
    ExcludesConcat("(" + DetailsUrlPrefix, id, ']');
    MarkerTail("(" + DetailsUrlPrefix + id);
    assert "](" == "]" + "(";
    ConcatAssoc("]", "(", DetailsUrlPrefix);
    ConcatAssoc("]", "(" + DetailsUrlPrefix, id);
  }

  lemma PrefixWithoutBracket()
    ensures Excludes(DetailsUrlPrefix, ']')
  {
    ExcludesConcat("https://steamcommunity.com/", "sharedfiles/filedetails/?id=", ']');
  }

  lemma MarkerTail(t: string)
    requires Excludes(t, ']')
    ensures forall k :: 0 < k < |"]" + t| ==> ("]" + t)[k] != ']'
  {
    forall k | 0 < k < |"]" + t| ensures ("]" + t)[k] != ']' {
      assert ("]" + t)[k] == t[k - 1];
    }
  }

  /** The extractor's title is the candidate at the first occurrence of the
      id's marker whose candidate is accepted. */
  lemma ExtractTitleFirst(snippet: string, id: string, e: nat)
    requires AllDigits(id)
    requires AcceptedAt(snippet, TitleMarker(id), NormalizeTitle, AcceptableTitle, e)
    requires forall j :: 0 <= j < e ==> !AcceptedAt(snippet, TitleMarker(id), NormalizeTitle, AcceptableTitle, j)
    ensures TitleFrom(snippet, TitleMarker(id), 0, NormalizeTitle, AcceptableTitle)
         == TitleCandidate(snippet, e, NormalizeTitle)
  {
    TitleMarkerApart(id);
    TitleFromFirst(snippet, TitleMarker(id), 0, NormalizeTitle, AcceptableTitle, e);
  }

  /** The extractor finds a title whenever some occurrence of the id's marker
      has an accepted candidate. */
  lemma ExtractTitleFound(snippet: string, id: string, e: nat)
    requires AllDigits(id)
    requires AcceptedAt(snippet, TitleMarker(id), NormalizeTitle, AcceptableTitle, e)
    ensures TitleFrom(snippet, TitleMarker(id), 0, NormalizeTitle, AcceptableTitle) != ""
  {
    TitleMarkerApart(id);
    TitleFromFound(snippet, TitleMarker(id), 0, NormalizeTitle, AcceptableTitle, e);
  }

  datatype AuthorInfo = AuthorInfo(author: string, authorUrl: string)

  /** The author's profile link follows the author's name. */
  const ProfileHost := "https://steamcommunity.com/"
  const ProfileMarker := "](" + ProfileHost

  function DropLeadingBracket(s: string): string {
    if |s| > 0 && s[0] == '[' then s[1..] else s
  }

  /** `extractAuthorFromSnippet`: the text after the first `by[` up to the
      next profile link, and that link's address. */
  function ExtractAuthor(snippet: string): (r: AuthorInfo)
    ensures !Contains(snippet, "by[") ==> r == AuthorInfo(UnknownAuthor, "")
    ensures r.author == UnknownAuthor || (r.author != "" && Clean(r.author))
    ensures r.authorUrl != "" ==> StartsAt(r.authorUrl, 0, ProfileHost)
    ensures Excludes(r.authorUrl, ')')
  {
    var byIndex := IndexOf(snippet, "by[", 0);
    if byIndex < 0 then AuthorInfo(UnknownAuthor, "")
    else
      var textStart := byIndex + 3;
      var textEnd := IndexOf(snippet, ProfileMarker, textStart);
      if textEnd < 0 then AuthorInfo(UnknownAuthor, "")
      else
        var urlStart := textEnd + 2;
        var urlEnd := IndexOf(snippet, ")", urlStart);
        var name := NormalizeTitle(DropLeadingBracket(snippet[textStart..textEnd]));
        var author := if name != "" then name else UnknownAuthor;
        var authorUrl := if urlEnd > urlStart then snippet[urlStart..urlEnd] else "";
        ProfileUrlShape(snippet, textEnd, urlEnd);
        AuthorInfo(author, authorUrl)
  }

  /** `i` is the first `by[` and `j` the first profile link after it. */
  ghost predicate AuthorLinkAt(snippet: string, i: nat, j: nat) {
    && StartsAt(snippet, i, "by[") && (forall q :: 0 <= q < i ==> !StartsAt(snippet, q, "by["))
    && i + 3 <= j && StartsAt(snippet, j, ProfileMarker)
    && forall q :: i + 3 <= q < j ==> !StartsAt(snippet, q, ProfileMarker)
  }

  /** With the first `by[` at `i` and the first profile link after it at
      `j`, the author is the normalised text between them, or the unknown
      author when that is empty. */
  lemma ExtractAuthorLinked(snippet: string, i: nat, j: nat)
    requires AuthorLinkAt(snippet, i, j)
    ensures var name := NormalizeTitle(DropLeadingBracket(snippet[i + 3..j]));
      ExtractAuthor(snippet).author == (if name != "" then name else UnknownAuthor)
  {
    IndexOfAt(snippet, "by[", 0, i);
    IndexOfAt(snippet, ProfileMarker, i + 3, j);
    ExtractAuthorAt(snippet, i, j, IndexOf(snippet, ")", j + 2));
  }

  /** There the address runs from just after `](` to the first `)`, and is
      empty when no `)` follows. */
  lemma ExtractAuthorLinkUrl(snippet: string, i: nat, j: nat)
    requires AuthorLinkAt(snippet, i, j)
    ensures forall k :: j + 2 <= k < |snippet| && snippet[k] == ')'
              && (forall q :: j + 2 <= q < k ==> snippet[q] != ')')
              ==> ExtractAuthor(snippet).authorUrl == snippet[j + 2..k]
    ensures (forall q :: j + 2 <= q < |snippet| ==> snippet[q] != ')') ==> ExtractAuthor(snippet).authorUrl == ""
  {
    IndexOfAt(snippet, "by[", 0, i);
    IndexOfAt(snippet, ProfileMarker, i + 3, j);
    ProfileUrlEnd(snippet, j);
    ExtractAuthorUrlAt(snippet, i, j, IndexOf(snippet, ")", j + 2));
  }

  /** The search for the `)` closing a profile link finds the first one. */
  lemma ProfileUrlEnd(snippet: string, j: nat)
    requires StartsAt(snippet, j, ProfileMarker)
    ensures forall k :: j + 2 <= k < |snippet| && snippet[k] == ')'
              && (forall q :: j + 2 <= q < k ==> snippet[q] != ')')
              ==> IndexOf(snippet, ")", j + 2) == k
    ensures (forall q :: j + 2 <= q < |snippet| ==> snippet[q] != ')') ==> IndexOf(snippet, ")", j + 2) == -1
  {
    assert ")" == [')'];
    forall k | j + 2 <= k < |snippet| && snippet[k] == ')' && (forall q :: j + 2 <= q < k ==> snippet[q] != ')')
      ensures IndexOf(snippet, ")", j + 2) == k
    {
      IndexOfCharAt(snippet, ')', j + 2, k);
    }
    if forall q :: j + 2 <= q < |snippet| ==> snippet[q] != ')' {
      IndexOfCharNone(snippet, ')', j + 2);
    }
  }

  /** The address of `ExtractAuthor` once its three searches are known. */
  lemma ExtractAuthorUrlAt(snippet: string, i: nat, j: nat, u: int)
    requires IndexOf(snippet, "by[", 0) == i && IndexOf(snippet, ProfileMarker, i + 3) == j
    requires IndexOf(snippet, ")", j + 2) == u
    ensures ExtractAuthor(snippet).authorUrl == if u > j + 2 then snippet[j + 2..u] else ""
  {
    ExtractAuthorAt(snippet, i, j, u);
  }

  /** `ExtractAuthor` once its three searches are known. */
  lemma ExtractAuthorAt(snippet: string, i: nat, j: nat, u: int)
    requires IndexOf(snippet, "by[", 0) == i && IndexOf(snippet, ProfileMarker, i + 3) == j
    requires IndexOf(snippet, ")", j + 2) == u
    ensures var name := NormalizeTitle(DropLeadingBracket(snippet[i + 3..j]));
      ExtractAuthor(snippet) == AuthorInfo(if name != "" then name else UnknownAuthor,
                                           if u > j + 2 then snippet[j + 2..u] else "")
  {
  }

  /** With no profile link after the first `by[`, the author is unknown
      and there is no address. */
  lemma ExtractAuthorUnlinked(snippet: string, i: nat)
    requires StartsAt(snippet, i, "by[") && forall q :: 0 <= q < i ==> !StartsAt(snippet, q, "by[")
    requires forall q :: i + 3 <= q <= |snippet| ==> !StartsAt(snippet, q, ProfileMarker)
    ensures ExtractAuthor(snippet) == AuthorInfo(UnknownAuthor, "")
  {
    IndexOfAt(snippet, "by[", 0, i);
  }

  /** The text from just after `](` up to the first `)` starts with the
      profile host and holds no `)`. */
  lemma ProfileUrlShape(snippet: string, textEnd: nat, urlEnd: int)
    requires StartsAt(snippet, textEnd, ProfileMarker)
    requires urlEnd == IndexOf(snippet, ")", textEnd + 2)
    ensures urlEnd > textEnd + 2 ==> StartsAt(snippet[textEnd + 2..urlEnd], 0, ProfileHost)
    ensures urlEnd > textEnd + 2 ==> Excludes(snippet[textEnd + 2..urlEnd], ')')
  {
    StartsAtConcat(snippet, textEnd, "](", ProfileHost);
    assert ")" == [')'];
    SearchPast(snippet, textEnd + 2, ProfileHost, ')');
  }
}
