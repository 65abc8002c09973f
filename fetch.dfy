/** `fetchViaProxy` and `fetchModDetails`: reading a workshop page through
    the first proxy that answers, and reading a detail page once per mod
    through a cache. */
module Fetch {
  import opened Strings
  import opened Records
  import opened Tokens
  import opened Detail

  /** What one `fetch` call ends in: a rejected promise with its message, or
      a response with its `ok` flag, status and text. */
  datatype Outcome = Failed(message: string) | Answered(ok: bool, status: nat, body: string)

  /** The browser functions the code calls: `fetch` of a URL, and
      `encodeURIComponent`. */
  datatype Web = Web(fetch: string -> Outcome, encode: string -> string)

  const JinaBrowse := "https://r.jina.ai/http://steamcommunity.com/workshop/browse/?"
  const AllOrigins := "https://api.allorigins.win/raw?url="
  const JinaDetails := "https://r.jina.ai/http://steamcommunity.com/sharedfiles/filedetails/?id="
  const NoProxyMessage := "Не удалось получить данные через прокси"

  /** `url.split('?')[1] || ''`: the text between the first and the second
      `?`, or nothing. */
  function Query(url: string): string {
    var parts := Split(url, '?');
    if |parts| > 1 then parts[1] else ""
  }

  /** The two proxies, in the order they are tried. */
  function ProxyUrls(workshopUrl: string, web: Web): (r: seq<string>)
    ensures |r| == 2
  {
    [JinaBrowse + Query(workshopUrl), AllOrigins + web.encode(workshopUrl)]
  }

  /** One request: the text of an `ok` response, and otherwise the error
      the code keeps, `HTTP <status>` or the rejection's message. */
  function Attempt(web: Web, url: string): Result<string, string> {
    match web.fetch(url)
    case Failed(message) => Err(message)
    case Answered(ok, status, body) => if ok then Ok(body) else Err("HTTP " + Decimal(status))
  }

  /** The first answer among `urls`; once they are all tried, the last
      error, or the fixed message when none was tried. */
  function FirstSuccess(web: Web, urls: seq<string>, lastError: Option<string>): Result<string, string> {
    if |urls| == 0 then
      Err(if lastError.Some? then lastError.value else NoProxyMessage)
    else
      match Attempt(web, urls[0])
      case Ok(body) => Ok(body)
      case Err(e) => FirstSuccess(web, urls[1..], Some(e))
  }

  /** `fetchViaProxy(workshopUrl)`: each proxy in turn until one answers;
      the result is `Err` where the code throws. */
  method FetchViaProxy(workshopUrl: string, web: Web) returns (r: Result<string, string>)
    ensures r == FirstSuccess(web, ProxyUrls(workshopUrl, web), None)
  {
    var urls := ProxyUrls(workshopUrl, web);
    var lastError: Option<string> := None;
    var i := 0;
    while i < |urls|
      invariant 0 <= i <= |urls|
      invariant FirstSuccess(web, urls[i..], lastError) == FirstSuccess(web, urls, None)
    {
      var attempt := Attempt(web, urls[i]);
      if attempt.Ok? {
        return attempt;
      }
      lastError := Some(attempt.error);
      i := i + 1;
    }
    r := Err(if lastError.Some? then lastError.value else NoProxyMessage);
  }

  // ---------------------------------------------------------------------
  // What the proxy loop promises

  /** An answer is the text of the first request that succeeded, every
      earlier request having failed. */
  lemma {:induction false} FirstSuccessOk(web: Web, urls: seq<string>, lastError: Option<string>)
    ensures FirstSuccess(web, urls, lastError).Ok? <==>
              exists i :: 0 <= i < |urls| && Attempt(web, urls[i]).Ok?
    ensures FirstSuccess(web, urls, lastError).Ok? ==>
              exists i :: 0 <= i < |urls| && Attempt(web, urls[i]) == FirstSuccess(web, urls, lastError)
                && forall j :: 0 <= j < i ==> Attempt(web, urls[j]).Err?
  {
    if |urls| > 0 {
      var a := Attempt(web, urls[0]);
      if a.Err? {
        FirstSuccessOk(web, urls[1..], Some(a.error));
        var r := FirstSuccess(web, urls, lastError);
        if exists i :: 0 <= i < |urls| && Attempt(web, urls[i]).Ok? {
          var i :| 0 <= i < |urls| && Attempt(web, urls[i]).Ok?;
          assert urls[1..][i - 1] == urls[i];
        }
        if r.Ok? {
          var i :| 0 <= i < |urls[1..]| && Attempt(web, urls[1..][i]) == r
                   && forall j :: 0 <= j < i ==> Attempt(web, urls[1..][j]).Err?;
          forall j | 0 <= j < i + 1 ensures Attempt(web, urls[j]).Err? {
            if j > 0 { assert urls[j] == urls[1..][j - 1]; }
          }
          assert Attempt(web, urls[i + 1]) == r;
        }
      }
    }
  }

  /** When every request fails the error is that of the last one, and with
      no request at all it is the fixed message. */
  lemma {:induction false} FirstSuccessErr(web: Web, urls: seq<string>, lastError: Option<string>)
    requires forall i :: 0 <= i < |urls| ==> Attempt(web, urls[i]).Err?
    ensures FirstSuccess(web, urls, lastError) ==
              if |urls| > 0 then Attempt(web, urls[|urls| - 1])
              else Err(if lastError.Some? then lastError.value else NoProxyMessage)
  {
    if |urls| > 0 {
      var a := Attempt(web, urls[0]);
      assert a.Err?;
      forall i | 0 <= i < |urls[1..]| ensures Attempt(web, urls[1..][i]).Err? {
        assert urls[1..][i] == urls[i + 1];
      }
      FirstSuccessErr(web, urls[1..], Some(a.error));
      if |urls| > 1 {
        assert urls[1..][|urls[1..]| - 1] == urls[|urls| - 1];
      }
    }
  }

  /** The browse proxy carries the query of the workshop URL: everything
      after its first `?` when there is only one, nothing when there is
      none. */
  lemma QueryOfUrl(base: string, q: string)
    requires Excludes(base, '?') && Excludes(q, '?')
    ensures Query(base + "?" + q) == q
    ensures Query(base) == ""
  {
    NoSeparator(base, '?');
    FirstSeparator(base, q, '?');
    var s := base + "?" + q;
    assert s[|base| + 1..] == q;
    NoSeparator(q, '?');
    assert Split(s, '?') == [s[..|base|]] + Split(q, '?');
  }

  // ---------------------------------------------------------------------
  // fetchModDetails

  /** The detail page of a mod, read through the text proxy. */
  function DetailsUrl(web: Web, id: string): string {
    JinaDetails + web.encode(id)
  }

  /** `fetchModDetails(mod)` on values: the cached details of the id when
      there are some; otherwise one request, whose parsed text is cached
      and returned when it succeeds. */
  function FetchDetails(entries: map<string, Details>, id: string, web: Web, mk: Markup)
    : (Result<Details, string>, map<string, Details>)
  {
    if id in entries then (Ok(entries[id]), entries)
    else
      match Attempt(web, DetailsUrl(web, id))
      case Err(e) => (Err(e), entries)
      case Ok(body) =>
        var d := DetailMetadata(body, mk);
        (Ok(d), entries[id := d])
  }

  /** Every cached value is the parse of some detail page. */
  ghost predicate Parsed(entries: map<string, Details>, mk: Markup) {
    forall id :: id in entries ==> exists body :: entries[id] == DetailMetadata(body, mk)
  }

  /** `detailCache`, the `Map` from mod id to parsed details. */
  class DetailCache {
    var entries: map<string, Details>

    constructor ()
      ensures entries == map[]
    {
      entries := map[];
    }

    method FetchModDetails(m: Mod, web: Web, mk: Markup) returns (r: Result<Details, string>)
      modifies this
      ensures (r, entries) == FetchDetails(old(entries), m.id, web, mk)
    {
      if m.id in entries {
        return Ok(entries[m.id]);
      }
      var text := Attempt(web, DetailsUrl(web, m.id));
      if text.Err? {
        return Err(text.error);
      }
      var parsed := ParseDetailMetadata(text.value, mk);
      entries := entries[m.id := parsed];
      r := Ok(parsed);
    }
  }

  // ---------------------------------------------------------------------
  // What the cache promises

  /** A cached id is answered from the cache, whatever the network does. */
  lemma FetchDetailsCached(entries: map<string, Details>, id: string, web: Web, web': Web, mk: Markup)
    requires id in entries
    ensures FetchDetails(entries, id, web, mk) == (Ok(entries[id]), entries)
    ensures FetchDetails(entries, id, web, mk) == FetchDetails(entries, id, web', mk)
  {
  }

  /** A failed request caches nothing; a successful one caches exactly the
      details it returns, under the mod's id; no other entry changes. */
  lemma FetchDetailsEntries(entries: map<string, Details>, id: string, web: Web, mk: Markup)
    ensures var (r, after) := FetchDetails(entries, id, web, mk);
      && (r.Err? ==> after == entries)
      && (r.Ok? ==> after == entries[id := r.value])
      && (id !in entries && r.Ok? ==>
            Attempt(web, DetailsUrl(web, id)).Ok?
            && r.value == DetailMetadata(Attempt(web, DetailsUrl(web, id)).value, mk))
  {
  }

  /** Nothing already cached is dropped or replaced. */
  lemma FetchDetailsGrows(entries: map<string, Details>, id: string, web: Web, mk: Markup)
    ensures var after := FetchDetails(entries, id, web, mk).1;
      forall k :: k in entries ==> k in after && after[k] == entries[k]
  {
  }

  /** A read of one mod leaves what a read of another mod returns as it
      was. */
  lemma FetchDetailsOther(entries: map<string, Details>, id: string, other: string, web: Web, mk: Markup)
    requires other != id
    ensures var after := FetchDetails(entries, other, web, mk).1;
      && (id in after <==> id in entries)
      && (id in entries ==> after[id] == entries[id])
      && FetchDetails(after, id, web, mk).0 == FetchDetails(entries, id, web, mk).0
  {
  }

  /** A second read of the same mod returns what the first returned, from
      the cache and without a request. */
  lemma FetchDetailsMemo(entries: map<string, Details>, id: string, web: Web, web': Web, mk: Markup)
    requires FetchDetails(entries, id, web, mk).0.Ok?
    ensures var (r, after) := FetchDetails(entries, id, web, mk);
      FetchDetails(after, id, web', mk) == (r, after)
  {
  }

  /** Everything in the cache is a parsed detail page, and stays so. */
  lemma FetchDetailsParsed(entries: map<string, Details>, id: string, web: Web, mk: Markup)
    requires Parsed(entries, mk)
    ensures Parsed(FetchDetails(entries, id, web, mk).1, mk)
  {
    if id !in entries && Attempt(web, DetailsUrl(web, id)).Ok? {
      var body := Attempt(web, DetailsUrl(web, id)).value;
      ParsedInsert(entries, id, body, mk);
    }
  }

  lemma ParsedInsert(entries: map<string, Details>, id: string, body: string, mk: Markup)
    requires Parsed(entries, mk)
    ensures Parsed(entries[id := DetailMetadata(body, mk)], mk)
  {
    var after := entries[id := DetailMetadata(body, mk)];
    forall k | k in after ensures exists b :: after[k] == DetailMetadata(b, mk) {
      if k == id {
        assert after[k] == DetailMetadata(body, mk);
      } else {
        assert after[k] == entries[k];
      }
    }
  }
}
