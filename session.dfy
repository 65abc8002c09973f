/** The catalog session: `makeCatalogContextKey`,
    `resetCatalogSessionStats`, `enrichCatalogMods` and `loadCatalogMods`
    over the part of `state` they work on. */
module Session {
  import opened Strings
  import opened Records
  import opened Tokens
  import opened Catalog
  import opened Detail
  import opened Merge
  import opened Filters
  import opened Fetch

  // ---------------------------------------------------------------------
  // makeCatalogContextKey

  /** The seven controls that decide which catalog is being browsed: the
      game, the Steam sort, the Steam search, the local search, the tags,
      the period and the page size. */
  datatype Controls = Controls(
    game: string, sort: string, steamSearch: string, search: string,
    tags: string, days: string, count: string)

  /** The parts of the key; the three text inputs are trimmed and
      lower-cased. */
  function KeyParts(c: Controls): (r: seq<string>)
    ensures |r| == 7
  {
    [c.game, c.sort, Lower(Trim(c.steamSearch)), Lower(Trim(c.search)), Lower(Trim(c.tags)), c.days, c.count]
  }

  /** `makeCatalogContextKey()`: the parts joined with `|`. */
  function ContextKey(c: Controls): string {
    Join(KeyParts(c), "|")
  }

  /** Two keys are equal exactly when their parts are, as long as no part
      contains the separator. */
  lemma ContextKeyInjective(c: Controls, c': Controls)
    requires forall i :: 0 <= i < 7 ==> Excludes(KeyParts(c)[i], '|') && Excludes(KeyParts(c')[i], '|')
    ensures ContextKey(c) == ContextKey(c') <==> KeyParts(c) == KeyParts(c')
  {
    SplitJoin(KeyParts(c), '|');
    SplitJoin(KeyParts(c'), '|');
  }

  // ---------------------------------------------------------------------
  // The session state

  /** The session fields of `state`: `catalogPage`, `catalogMods`,
      `catalogFiltered`, `catalogTotalInSteam`, `catalogSessionLoadedIds`,
      `lastLoadedPage`, `catalogContextKey`, `catalogParseMode`,
      `catalogExtractedCount` and `isCatalogLoading`. */
  datatype View = View(
    page: int, mods: seq<Mod>, filtered: seq<Mod>, total: nat,
    sessionIds: set<string>, lastLoadedPage: int, contextKey: string,
    parseMode: ParseMode, extractedCount: nat, loading: bool)

  /** The fields as the page starts. */
  const Initial := View(1, [], [], 0, {}, 0, "", Unset, 0, false)

  /** The ids of some records. */
  function Ids(mods: seq<Mod>): set<string> {
    set m | m in mods :: m.id
  }

  /** The ids of some records, position by position. */
  function IdList(mods: seq<Mod>): (r: seq<string>)
    ensures |r| == |mods|
  {
    seq(|mods|, k requires 0 <= k < |mods| => mods[k].id)
  }

  /** `resetCatalogSessionStats()`. */
  function ResetStats(v: View): View {
    v.(sessionIds := {}, lastLoadedPage := 0)
  }

  // ---------------------------------------------------------------------
  // enrichCatalogMods on values

  /** `!mod.description || !mod.subscribers`. */
  predicate NeedsDetails(m: Mod) {
    m.description == "" || m.subscribers == 0
  }

  /** The records that lack a description or a subscriber count. */
  function Needing(mods: seq<Mod>): (r: seq<Mod>)
    ensures |r| <= |mods|
  {
    if |mods| == 0 then []
    else (if NeedsDetails(mods[0]) then [mods[0]] else []) + Needing(mods[1..])
  }

  /** `.filter(...).slice(0, limit)`. */
  function Pending(mods: seq<Mod>, limit: nat): seq<Mod> {
    var n := Needing(mods);
    if |n| <= limit then n else n[..limit]
  }

  /** `catalogMods[index] = merged` at the first record with the id of
      `m`, if there still is one. */
  function Written(mods: seq<Mod>, m: Mod, d: Details): (r: seq<Mod>)
    ensures IdList(r) == IdList(mods)
  {
    var k := FindIndex(mods, m.id);
    if k >= 0 then
      var r := mods[k := MergeModDetails(m, d)];
      MergeKeepsIdentity(m, d);
      assert forall j :: 0 <= j < |r| ==> IdList(r)[j] == IdList(mods)[j];
      r
    else mods
  }

  /** One dequeued record: its details read through the cache and, when
      that succeeds, the merge written; a failure changes no record. */
  function EnrichStep(mods: seq<Mod>, entries: map<string, Details>, m: Mod, web: Web, mk: Markup)
    : (seq<Mod>, map<string, Details>)
  {
    var (r, after) := FetchDetails(entries, m.id, web, mk);
    (if r.Err? then mods else Written(mods, m, r.value), after)
  }

  /** The queue drained front to back. */
  function EnrichAll(mods: seq<Mod>, entries: map<string, Details>, queue: seq<Mod>, web: Web, mk: Markup)
    : (seq<Mod>, map<string, Details>)
    decreases |queue|
  {
    if |queue| == 0 then (mods, entries)
    else
      var (mods', entries') := EnrichStep(mods, entries, queue[0], web, mk);
      EnrichAll(mods', entries', queue[1..], web, mk)
  }

  /** The guards of `enrichCatalogMods`: not while a load is running unless
      the load itself asks, not on an empty catalog, not when nothing is
      pending. */
  predicate EnrichRuns(v: View, limit: nat, allow: bool) {
    !(v.loading && !allow) && |v.mods| > 0 && |Pending(v.mods, limit)| > 0
  }

  /** `enrichCatalogMods(limit, { allowDuringLoading })` on values. */
  function EnrichSpec(v: View, entries: map<string, Details>, limit: nat, allow: bool,
                      settings: FilterSettings, web: Web, mk: Markup): (View, map<string, Details>)
  {
    if !EnrichRuns(v, limit, allow) then (v, entries)
    else
      var (mods, after) := EnrichAll(v.mods, entries, Pending(v.mods, limit), web, mk);
      (v.(mods := mods, filtered := ApplyCatalogFilters(settings, mods),
          loading := if allow then v.loading else false), after)
  }

  // ---------------------------------------------------------------------
  // loadCatalogMods on values

  /** `Math.max(1, Number(page || 1))`. */
  function TargetPage(requested: int): (r: int)
    ensures r >= 1
  {
    if requested >= 1 then requested else 1
  }

  /** The fields once the context key is recorded: a new key also clears
      the total, the parse mode, the count and the session. */
  function EnterContext(v: View, key: string): View {
    if key != v.contextKey
    then ResetStats(v.(contextKey := key, total := 0, parseMode := Unset, extractedCount := 0))
    else v
  }

  /** The fields once the load has started: the target page set, the
      context entered and the loading flag raised. */
  function Started(v: View, requested: int, key: string): View {
    EnterContext(v, key).(page := TargetPage(requested), loading := true)
  }

  /** The `catch` branch: the snapshot taken before the load put back,
      except for the context key, the parse mode and the count, and the
      view recomputed. */
  function Restored(v: View, started: View, settings: FilterSettings): View {
    started.(page := v.page, mods := v.mods, total := v.total, sessionIds := v.sessionIds,
             lastLoadedPage := v.lastLoadedPage, filtered := ApplyCatalogFilters(settings, v.mods),
             loading := false)
  }

  /** The extraction and a positive total recorded. */
  function Recorded(s: View, e: Extraction, total: nat): View {
    s.(parseMode := e.mode, extractedCount := |e.mods|, total := if total > 0 then total else s.total)
  }

  /** An append that found nothing: one page back, never below 1. */
  function SteppedBack(s: View): View {
    s.(page := if s.page - 1 >= 1 then s.page - 1 else 1, loading := false)
  }

  /** The records appended or replaced, their ids added to the session,
      the page remembered as loaded and the view recomputed. */
  function Taken(s: View, e: Extraction, append: bool, settings: FilterSettings): View {
    var mods := if append then FirstById(s.mods + e.mods) else e.mods;
    s.(mods := mods, sessionIds := s.sessionIds + Ids(e.mods), lastLoadedPage := s.page,
       filtered := ApplyCatalogFilters(settings, mods))
  }

  /** The `try` branch once the page text is parsed into the extraction
      `e` and the total `total`: both recorded, then either the page
      stepped back or the records taken and enriched. */
  function Absorbed(s: View, entries: map<string, Details>, append: bool, e: Extraction, total: nat,
                    settings: FilterSettings, web: Web, mk: Markup): (View, map<string, Details>)
  {
    var parsed := Recorded(s, e, total);
    if append && |e.mods| == 0 then (SteppedBack(parsed), entries)
    else Settled(parsed, entries, e, append, settings, web, mk)
  }

  /** The records taken, the first eight lacking details enriched, and the
      loading flag lowered. */
  function Settled(s: View, entries: map<string, Details>, e: Extraction, append: bool,
                   settings: FilterSettings, web: Web, mk: Markup): (View, map<string, Details>)
  {
    var (enriched, after) := EnrichSpec(Taken(s, e, append, settings), entries, 8, true, settings, web, mk);
    (enriched.(loading := false), after)
  }

  /** `loadCatalogMods({ append, page: requested })` on values, reading the
      workshop page `workshopUrl` through the proxies. */
  function LoadSpec(v: View, entries: map<string, Details>, append: bool, requested: int,
                    c: Controls, settings: FilterSettings, workshopUrl: string, web: Web, mk: Markup)
    : (View, map<string, Details>)
  {
    if v.loading then (v, entries)
    else
      var started := Started(v, requested, ContextKey(c));
      match FirstSuccess(web, ProxyUrls(workshopUrl, web), None)
      case Err(_) => (Restored(v, started, settings), entries)
      case Ok(text) =>
        Absorbed(started, entries, append, CatalogExtraction(text), ParseSteamTotal(text), settings, web, mk)
  }

  // ---------------------------------------------------------------------
  // The session object

  /** `mods.forEach((mod) => ids.add(mod.id))`. */
  method AddIds(ids: set<string>, incoming: seq<Mod>) returns (r: set<string>)
    ensures r == ids + Ids(incoming)
  {
    r := ids;
    var j := 0;
    while j < |incoming|
      invariant 0 <= j <= |incoming|
      invariant r == ids + Ids(incoming[..j])
    {
      assert incoming[..j + 1] == incoming[..j] + [incoming[j]];
      r := r + {incoming[j].id};
      j := j + 1;
    }
    assert incoming[..j] == incoming;
  }

  class CatalogSession {
    var page: int
    var mods: seq<Mod>
    var filtered: seq<Mod>
    var totalInSteam: nat
    var sessionIds: set<string>
    var lastLoadedPage: int
    var contextKey: string
    var parseMode: ParseMode
    var extractedCount: nat
    var loading: bool
    /** `detailCache`. */
    const cache: DetailCache

    function Snapshot(): View
      reads this
    {
      View(page, mods, filtered, totalInSteam, sessionIds, lastLoadedPage,
           contextKey, parseMode, extractedCount, loading)
    }

    /** The catalog never holds two records with one id. */
    ghost predicate Valid()
      reads this
    {
      DistinctIds(mods)
    }

    constructor (cache: DetailCache)
      ensures Snapshot() == Initial && this.cache == cache && Valid()
    {
      page, mods, filtered, totalInSteam := 1, [], [], 0;
      sessionIds, lastLoadedPage, contextKey := {}, 0, "";
      parseMode, extractedCount, loading := Unset, 0, false;
      this.cache := cache;
    }

    /** `resetCatalogSessionStats()`. */
    method ResetSessionStats()
      modifies this
      ensures Snapshot() == ResetStats(old(Snapshot()))
    {
      sessionIds := {};
      lastLoadedPage := 0;
    }

    /** `enrichCatalogMods(limit, { allowDuringLoading: allow })`, its
        worker pool drained as one queue; `done` is the progress count it
        reports. */
    method Enrich(limit: nat, allow: bool, settings: FilterSettings, web: Web, mk: Markup) returns (done: nat)
      requires Valid()
      modifies this, cache
      ensures Valid()
      ensures (Snapshot(), cache.entries) == EnrichSpec(old(Snapshot()), old(cache.entries), limit, allow, settings, web, mk)
      ensures done == if EnrichRuns(old(Snapshot()), limit, allow) then |Pending(old(mods), limit)| else 0
    {
      if loading && !allow {
        return 0;
      }
      if |mods| == 0 {
        return 0;
      }
      var pending := Pending(mods, limit);
      if |pending| == 0 {
        return 0;
      }
      if !allow {
        loading := true;
      }
      ghost var start := Snapshot();
      ghost var entries0 := cache.entries;
      done := 0;
      var queue := pending;
      while |queue| > 0
        invariant 0 <= done <= |pending| && queue == pending[done..]
        invariant Snapshot() == start.(mods := mods)
        invariant EnrichAll(mods, cache.entries, queue, web, mk) == EnrichAll(start.mods, entries0, pending, web, mk)
        decreases |queue|
      {
        var m := queue[0];
        queue := queue[1..];
        var details := cache.FetchModDetails(m, web, mk);
        if details.Ok? {
          var merged := MergeModDetails(m, details.value);
          var index := FindIndex(mods, m.id);
          if index >= 0 {
            mods := mods[index := merged];
          }
        }
        done := done + 1;
      }
      EnrichAllIds(start.mods, entries0, pending, web, mk);
      DistinctIdList(start.mods, mods);
      if !allow {
        loading := false;
      }
      filtered := ApplyCatalogFilters(settings, mods);
    }

    /** `loadCatalogMods({ append, page: requested })` for the controls `c`
        and the filter settings `settings`, with `workshopUrl` the page
        `buildCatalogUrl` names. */
    method Load(append: bool, requested: int, c: Controls, settings: FilterSettings,
                workshopUrl: string, web: Web, mk: Markup)
      requires Valid()
      modifies this, cache
      ensures Valid()
      ensures (Snapshot(), cache.entries)
           == LoadSpec(old(Snapshot()), old(cache.entries), append, requested, c, settings, workshopUrl, web, mk)
    {
      if loading {
        return;
      }
      var previous := Snapshot();
      Start(requested, ContextKey(c));
      var fetched := FetchViaProxy(workshopUrl, web);
      if fetched.Err? {
        Rollback(previous, settings);
        return;
      }
      var e := ParseRich(fetched.value);
      ExtractionDistinct(fetched.value);
      Absorb(append, e, ParseSteamTotal(fetched.value), settings, web, mk);
    }

    /** The `catch` block: the fields saved before the load put back, the
        loading flag lowered and the view recomputed. */
    method Rollback(previous: View, settings: FilterSettings)
      modifies this
      ensures Snapshot() == Restored(previous, old(Snapshot()), settings)
    {
      page, mods, filtered := previous.page, previous.mods, previous.filtered;
      totalInSteam, sessionIds, lastLoadedPage := previous.total, previous.sessionIds, previous.lastLoadedPage;
      loading := false;
      filtered := ApplyCatalogFilters(settings, mods);
    }

    /** The start of a load: the target page, the context key, and the
        loading flag. */
    method Start(requested: int, key: string)
      modifies this
      ensures Snapshot() == Started(old(Snapshot()), requested, key)
    {
      page := TargetPage(requested);
      if key != contextKey {
        contextKey := key;
        totalInSteam := 0;
        parseMode := Unset;
        extractedCount := 0;
        ResetSessionStats();
      }
      loading := true;
    }

    /** The rest of the `try` block once the page is parsed. */
    method Absorb(append: bool, e: Extraction, total: nat, settings: FilterSettings, web: Web, mk: Markup)
      requires Valid() && DistinctIds(e.mods)
      modifies this, cache
      ensures Valid()
      ensures (Snapshot(), cache.entries)
           == Absorbed(old(Snapshot()), old(cache.entries), append, e, total, settings, web, mk)
    {
      Record(e, total);
      if append && |e.mods| == 0 {
        page := if page - 1 >= 1 then page - 1 else 1;
        loading := false;
        return;
      }
      Settle(e, append, settings, web, mk);
    }

    /** The records of `e` taken, enrichment of the first eight that lack
        details, and the end of the load. */
    method Settle(e: Extraction, append: bool, settings: FilterSettings, web: Web, mk: Markup)
      requires Valid() && DistinctIds(e.mods)
      modifies this, cache
      ensures Valid()
      ensures (Snapshot(), cache.entries)
           == Settled(old(Snapshot()), old(cache.entries), e, append, settings, web, mk)
    {
      Take(e, append, settings);
      var _ := Enrich(8, true, settings, web, mk);
      loading := false;
    }

    /** `state.catalogParseMode`, `state.catalogExtractedCount` and a
        positive `totalInSteam`. */
    method Record(e: Extraction, total: nat)
      modifies this
      ensures Snapshot() == Recorded(old(Snapshot()), e, total) && mods == old(mods)
    {
      parseMode, extractedCount := e.mode, |e.mods|;
      if total > 0 {
        totalInSteam := total;
      }
    }

    /** The append or replace, the session ids and `lastLoadedPage`, and
        `applyCatalogFilters`. */
    method Take(e: Extraction, append: bool, settings: FilterSettings)
      requires Valid() && DistinctIds(e.mods)
      modifies this
      ensures Valid()
      ensures Snapshot() == Taken(old(Snapshot()), e, append, settings)
    {
      if append {
        mods := AppendNew(mods, e.mods);
      } else {
        mods := e.mods;
      }
      sessionIds := AddIds(sessionIds, e.mods);
      lastLoadedPage := page;
      filtered := ApplyCatalogFilters(settings, mods);
    }
  }

  // ---------------------------------------------------------------------
  // What enrichment promises

  /** Records with the same ids, position by position, have distinct ids
      when the first have. */
  lemma DistinctIdList(a: seq<Mod>, b: seq<Mod>)
    requires DistinctIds(a) && IdList(a) == IdList(b)
    ensures DistinctIds(b)
  {
    forall p, q | 0 <= p < q < |b| ensures b[p].id != b[q].id {
      assert IdList(a)[p] == a[p].id && IdList(b)[p] == b[p].id;
      assert IdList(a)[q] == a[q].id && IdList(b)[q] == b[q].id;
    }
  }

  /** A merge lands on a record with the same id, so enrichment keeps every
      id at its position. */
  lemma {:induction false} EnrichAllIds(mods: seq<Mod>, entries: map<string, Details>, queue: seq<Mod>, web: Web, mk: Markup)
    ensures IdList(EnrichAll(mods, entries, queue, web, mk).0) == IdList(mods)
    decreases |queue|
  {
    if |queue| > 0 {
      var (mods', entries') := EnrichStep(mods, entries, queue[0], web, mk);
      EnrichStepIds(mods, entries, queue[0], web, mk);
      EnrichAllIds(mods', entries', queue[1..], web, mk);
    }
  }

  lemma EnrichStepIds(mods: seq<Mod>, entries: map<string, Details>, m: Mod, web: Web, mk: Markup)
    ensures IdList(EnrichStep(mods, entries, m, web, mk).0) == IdList(mods)
  {
  }

  /** A record whose id nobody in the queue carries is left as it was. */
  lemma {:induction false} EnrichAllUntouched(mods: seq<Mod>, entries: map<string, Details>, queue: seq<Mod>, web: Web, mk: Markup, k: nat)
    requires k < |mods| && forall q :: 0 <= q < |queue| ==> queue[q].id != mods[k].id
    ensures k < |EnrichAll(mods, entries, queue, web, mk).0|
    ensures EnrichAll(mods, entries, queue, web, mk).0[k] == mods[k]
    decreases |queue|
  {
    EnrichAllIds(mods, entries, queue, web, mk);
    if |queue| > 0 {
      var (mods', entries') := EnrichStep(mods, entries, queue[0], web, mk);
      EnrichStepIds(mods, entries, queue[0], web, mk);
      assert IdList(mods)[k] == mods[k].id;
      assert mods'[k] == mods[k];
      EnrichAllUntouched(mods', entries', queue[1..], web, mk, k);
    }
  }

  /** On distinct ids, a merge is written where that id stands and nowhere
      else. */
  lemma WrittenAt(mods: seq<Mod>, m: Mod, d: Details, k: nat)
    requires DistinctIds(mods) && k < |mods|
    ensures |Written(mods, m, d)| == |mods|
    ensures Written(mods, m, d)[k] == if mods[k].id == m.id then MergeModDetails(m, d) else mods[k]
  {
    assert IdList(Written(mods, m, d))[k] == IdList(mods)[k];
    if mods[k].id == m.id {
      assert HasId(mods, m.id);
    }
  }

  /** The record at `k` after one dequeued record is processed: that
      record's merge when it carries the same id and its details were read,
      otherwise the record as it was. */
  lemma EnrichStepAt(mods: seq<Mod>, entries: map<string, Details>, m: Mod, web: Web, mk: Markup, k: nat)
    requires DistinctIds(mods) && k < |mods|
    ensures var mods' := EnrichStep(mods, entries, m, web, mk).0;
      var r := FetchDetails(entries, m.id, web, mk).0;
      && |mods'| == |mods| && DistinctIds(mods')
      && mods'[k] == if mods[k].id == m.id && r.Ok? then MergeModDetails(m, r.value) else mods[k]
  {
    var r := FetchDetails(entries, m.id, web, mk).0;
    EnrichStepIds(mods, entries, m, web, mk);
    DistinctIdList(mods, EnrichStep(mods, entries, m, web, mk).0);
    if r.Ok? {
      WrittenAt(mods, m, r.value, k);
    }
  }

  /** Dropping the head of a list keeps its ids distinct. */
  lemma DistinctTail(queue: seq<Mod>)
    requires DistinctIds(queue) && |queue| > 0
    ensures DistinctIds(queue[1..])
  {
    forall a, b | 0 <= a < b < |queue[1..]| ensures queue[1..][a].id != queue[1..][b].id {
      assert queue[1..][a] == queue[a + 1] && queue[1..][b] == queue[b + 1];
    }
  }

  /** How a record `before` ends up as `after`, with the final cache `cache`,
      given the outcome `r` of reading the details of the queued record `m`:
      merged and cached when the read succeeded, unchanged when it failed. */
  predicate ReadInto(before: Mod, after: Mod, cache: map<string, Details>, m: Mod, r: Result<Details, string>) {
    && (r.Ok? ==> after == MergeModDetails(m, r.value) && m.id in cache && cache[m.id] == r.value)
    && (r.Err? ==> after == before)
  }

  /** The head case of `EnrichAllWritten`: the record at `k` is written by
      the first step and untouched by the rest. */
  lemma EnrichAllWrittenHead(mods: seq<Mod>, entries: map<string, Details>, queue: seq<Mod>,
                             web: Web, mk: Markup, k: nat)
    requires DistinctIds(mods) && DistinctIds(queue)
    requires k < |mods| && |queue| > 0 && mods[k].id == queue[0].id
    ensures var res := EnrichAll(mods, entries, queue, web, mk);
      k < |res.0| && ReadInto(mods[k], res.0[k], res.1, queue[0], FetchDetails(entries, queue[0].id, web, mk).0)
  {
    EnrichAllIds(mods, entries, queue, web, mk);
    var m := queue[0];
    var (mods1, entries1) := EnrichStep(mods, entries, m, web, mk);
    EnrichStepAt(mods, entries, m, web, mk, k);
    EnrichStepIds(mods, entries, m, web, mk);
    assert EnrichAll(mods, entries, queue, web, mk) == EnrichAll(mods1, entries1, queue[1..], web, mk);
    assert IdList(mods1)[k] == IdList(mods)[k];
    forall j | 0 <= j < |queue[1..]| ensures queue[1..][j].id != mods1[k].id {
      assert queue[1..][j] == queue[j + 1];
    }
    EnrichAllUntouched(mods1, entries1, queue[1..], web, mk, k);
    FetchDetailsEntries(entries, m.id, web, mk);
    EnrichAllCache(mods1, entries1, queue[1..], web, mk);
  }

  /** The point of enrichment: a queued record whose details are read is
      replaced, where its id stands, by its merge with those details, and
      the details are cached under its id; a record whose read fails stays
      as it was (`ReadInto`). */
  lemma {:induction false} EnrichAllWritten(mods: seq<Mod>, entries: map<string, Details>, queue: seq<Mod>,
                                            web: Web, mk: Markup, k: nat, q: nat)
    requires DistinctIds(mods) && DistinctIds(queue)
    requires k < |mods| && q < |queue| && mods[k].id == queue[q].id
    decreases |queue|
    ensures var res := EnrichAll(mods, entries, queue, web, mk);
      k < |res.0| && ReadInto(mods[k], res.0[k], res.1, queue[q], FetchDetails(entries, queue[q].id, web, mk).0)
  {
    if q == 0 {
      EnrichAllWrittenHead(mods, entries, queue, web, mk, k);
    } else {
      var m := queue[0];
      var step := EnrichStep(mods, entries, m, web, mk);
      assert m.id != queue[q].id;
      EnrichStepAt(mods, entries, m, web, mk, k);
      assert queue[1..][q - 1] == queue[q];
      DistinctTail(queue);
      EnrichAllWritten(step.0, step.1, queue[1..], web, mk, k, q - 1);
      FetchDetailsOther(entries, queue[q].id, m.id, web, mk);
    }
  }

  /** Enrichment only adds to the cache: every cached entry stays. */
  lemma {:induction false} EnrichAllCache(mods: seq<Mod>, entries: map<string, Details>, queue: seq<Mod>, web: Web, mk: Markup)
    ensures var after := EnrichAll(mods, entries, queue, web, mk).1;
      forall id :: id in entries ==> id in after && after[id] == entries[id]
    decreases |queue|
  {
    if |queue| > 0 {
      var (mods', entries') := EnrichStep(mods, entries, queue[0], web, mk);
      FetchDetailsGrows(entries, queue[0].id, web, mk);
      assert entries' == FetchDetails(entries, queue[0].id, web, mk).1;
      EnrichAllCache(mods', entries', queue[1..], web, mk);
      var after := EnrichAll(mods', entries', queue[1..], web, mk).1;
      assert after == EnrichAll(mods, entries, queue, web, mk).1;
      forall id | id in entries ensures id in after && after[id] == entries[id] {
        assert id in entries' && entries'[id] == entries[id];
      }
    }
  }

  /** Every entry enrichment caches is a parsed detail page. */
  lemma {:induction false} EnrichAllParsed(mods: seq<Mod>, entries: map<string, Details>, queue: seq<Mod>, web: Web, mk: Markup)
    requires Parsed(entries, mk)
    ensures Parsed(EnrichAll(mods, entries, queue, web, mk).1, mk)
    decreases |queue|
  {
    if |queue| > 0 {
      var (mods', entries') := EnrichStep(mods, entries, queue[0], web, mk);
      assert entries' == FetchDetails(entries, queue[0].id, web, mk).1;
      FetchDetailsParsed(entries, queue[0].id, web, mk);
      EnrichAllParsed(mods', entries', queue[1..], web, mk);
    }
  }

  /** The records left pending are exactly the ones that lack details. */
  lemma {:induction false} NeedingMembers(mods: seq<Mod>)
    ensures forall m :: m in Needing(mods) <==> m in mods && NeedsDetails(m)
  {
    if |mods| > 0 {
      NeedingMembers(mods[1..]);
      assert mods == [mods[0]] + mods[1..];
    }
  }

  /** Selecting the records that lack details keeps ids distinct. */
  lemma {:induction false} NeedingDistinct(mods: seq<Mod>)
    requires DistinctIds(mods)
    ensures DistinctIds(Needing(mods))
  {
    if |mods| > 0 {
      DistinctTail(mods);
      NeedingDistinct(mods[1..]);
      NeedingMembers(mods[1..]);
      var rest := Needing(mods[1..]);
      forall j | 0 <= j < |rest| ensures rest[j].id != mods[0].id {
        assert rest[j] in mods[1..];
      }
    }
  }

  /** At most `limit` records are pending, all lacking details, and they are
      the first such records of the catalog. */
  lemma PendingMeaning(mods: seq<Mod>, limit: nat)
    ensures var p := Pending(mods, limit);
      && |p| == (if |Needing(mods)| <= limit then |Needing(mods)| else limit)
      && p == Needing(mods)[..|p|]
      && forall m :: m in p ==> m in mods && NeedsDetails(m)
  {
    NeedingMembers(mods);
    var n := Needing(mods);
    assert n[..|n|] == n;
  }

  /** Enrichment changes only records, the filtered view and the loading
      flag; the ids of the catalog stay as they were. */
  lemma EnrichSpecMeaning(v: View, entries: map<string, Details>, limit: nat, allow: bool,
                          settings: FilterSettings, web: Web, mk: Markup)
    ensures var (r, after) := EnrichSpec(v, entries, limit, allow, settings, web, mk);
      && r.(mods := v.mods, filtered := v.filtered, loading := v.loading) == v
      && IdList(r.mods) == IdList(v.mods)
      && (!EnrichRuns(v, limit, allow) ==> r == v && after == entries)
      && (EnrichRuns(v, limit, allow) ==>
            r.filtered == ApplyCatalogFilters(settings, r.mods) && r.loading == (v.loading && allow))
  {
    EnrichAllIds(v.mods, entries, Pending(v.mods, limit), web, mk);
  }

  // ---------------------------------------------------------------------
  // What a load promises

  /** What an enrichment run does to the catalog: the record at `k` that
      stands `q`-th in the pending queue is replaced by its merge with the
      details read for its id, which are then cached, or stays as it was
      when the read fails. */
  lemma EnrichSpecWritten(v: View, entries: map<string, Details>, limit: nat, allow: bool,
                          settings: FilterSettings, web: Web, mk: Markup, k: nat, q: nat)
    requires EnrichRuns(v, limit, allow) && DistinctIds(v.mods)
    requires k < |v.mods| && q < |Pending(v.mods, limit)| && v.mods[k].id == Pending(v.mods, limit)[q].id
    ensures var (r, after) := EnrichSpec(v, entries, limit, allow, settings, web, mk);
      var m := Pending(v.mods, limit)[q];
      k < |r.mods| && ReadInto(v.mods[k], r.mods[k], after, m, FetchDetails(entries, m.id, web, mk).0)
  {
    var queue := Pending(v.mods, limit);
    NeedingDistinct(v.mods);
    assert DistinctIds(queue);
    EnrichAllWritten(v.mods, entries, queue, web, mk, k, q);
  }

  /** The ids the extractors return are distinct. */
  lemma ExtractionDistinct(text: string)
    ensures DistinctIds(CatalogExtraction(text).mods)
  {
    BasicModsShape(text);
    RichModsShape(text);
  }

  /** A load is refused while another is running. */
  lemma LoadWhileBusy(v: View, entries: map<string, Details>, append: bool, requested: int,
                      c: Controls, settings: FilterSettings, workshopUrl: string, web: Web, mk: Markup)
    requires v.loading
    ensures LoadSpec(v, entries, append, requested, c, settings, workshopUrl, web, mk) == (v, entries)
  {
  }

  /** When both proxies fail, the page, the records, the total, the session
      ids and the last loaded page are those from before the load, the view
      is recomputed from the restored records and nothing is cached; the
      context key is the new one and, if it changed, the parse mode and the
      count stay cleared. */
  lemma LoadFailure(v: View, entries: map<string, Details>, append: bool, requested: int,
                    c: Controls, settings: FilterSettings, workshopUrl: string, web: Web, mk: Markup)
    requires !v.loading && forall i :: 0 <= i < 2 ==> Attempt(web, ProxyUrls(workshopUrl, web)[i]).Err?
    ensures var (r, after) := LoadSpec(v, entries, append, requested, c, settings, workshopUrl, web, mk);
      && after == entries
      && r.page == v.page && r.mods == v.mods && r.total == v.total
      && r.sessionIds == v.sessionIds && r.lastLoadedPage == v.lastLoadedPage
      && r.filtered == ApplyCatalogFilters(settings, v.mods) && !r.loading
      && r.contextKey == ContextKey(c)
      && (ContextKey(c) != v.contextKey ==> r.parseMode == Unset && r.extractedCount == 0)
      && (ContextKey(c) == v.contextKey ==> r.parseMode == v.parseMode && r.extractedCount == v.extractedCount)
  {
    FirstSuccessErr(web, ProxyUrls(workshopUrl, web), None);
  }

  /** An append that finds no records steps the page back, without going
      below 1, and leaves the records and the view alone. */
  lemma LoadEmptyAppend(v: View, entries: map<string, Details>, requested: int,
                        c: Controls, settings: FilterSettings, workshopUrl: string, web: Web, mk: Markup)
    requires !v.loading
    requires FirstSuccess(web, ProxyUrls(workshopUrl, web), None).Ok?
    requires |CatalogExtraction(FirstSuccess(web, ProxyUrls(workshopUrl, web), None).value).mods| == 0
    ensures var (r, after) := LoadSpec(v, entries, true, requested, c, settings, workshopUrl, web, mk);
      && after == entries
      && r.page == (if TargetPage(requested) > 1 then TargetPage(requested) - 1 else 1)
      && r.mods == v.mods && r.filtered == v.filtered && !r.loading
      && r.extractedCount == 0
  {
  }

  /** A load that finds records: the page and the last loaded page are the
      target page, the key is recorded, the total is replaced only by a
      positive one (a new context having cleared it), the session ids gain
      every extracted id (a new context having cleared them), the parse
      mode and count are the extractor's, and the records hold the ids of
      the new page (replace) or of the old records followed by the new ids
      (append), the enrichment keeping every id in its place. */
  lemma LoadSuccess(v: View, entries: map<string, Details>, append: bool, requested: int,
                    c: Controls, settings: FilterSettings, workshopUrl: string, web: Web, mk: Markup)
    requires !v.loading
    requires FirstSuccess(web, ProxyUrls(workshopUrl, web), None).Ok?
    requires var e := CatalogExtraction(FirstSuccess(web, ProxyUrls(workshopUrl, web), None).value);
      !(append && |e.mods| == 0)
    ensures var text := FirstSuccess(web, ProxyUrls(workshopUrl, web), None).value;
      var e := CatalogExtraction(text);
      var changed := ContextKey(c) != v.contextKey;
      var (r, after) := LoadSpec(v, entries, append, requested, c, settings, workshopUrl, web, mk);
      && r.page == TargetPage(requested) && r.lastLoadedPage == TargetPage(requested)
      && r.contextKey == ContextKey(c)
      && r.total == (if ParseSteamTotal(text) > 0 then ParseSteamTotal(text) else if changed then 0 else v.total)
      && r.sessionIds == (if changed then {} else v.sessionIds) + Ids(e.mods)
      && r.parseMode == e.mode && r.extractedCount == |e.mods|
      && IdList(r.mods) == IdList(if append then FirstById(v.mods + e.mods) else e.mods)
      && r.filtered == ApplyCatalogFilters(settings, r.mods)
      && !r.loading
  {
    var text := FirstSuccess(web, ProxyUrls(workshopUrl, web), None).value;
    var e := CatalogExtraction(text);
    var parsed := Recorded(Started(v, requested, ContextKey(c)), e, ParseSteamTotal(text));
    EnrichSpecMeaning(Taken(parsed, e, append, settings), entries, 8, true, settings, web, mk);
  }

  /** An append keeps every record it had, in its place and order, and puts
      behind them only records whose ids were not there yet; every
      extracted id is then in the catalog. */
  lemma AppendKeeps(old_: seq<Mod>, incoming: seq<Mod>)
    requires DistinctIds(old_)
    ensures var r := FirstById(old_ + incoming);
      && |old_| <= |r| && r[..|old_|] == old_
      && (forall k :: |old_| <= k < |r| ==> !HasId(old_, r[k].id))
      && (forall id :: HasId(r, id) <==> HasId(old_, id) || HasId(incoming, id))
  {
    FirstByIdDistinct(old_);
    FirstByIdPrefix(old_, incoming);
    FirstByIdHasId(old_ + incoming);
    var r := FirstById(old_ + incoming);
    forall k | |old_| <= k < |r| ensures !HasId(old_, r[k].id) {
      forall p | 0 <= p < |old_| ensures old_[p].id != r[k].id {
        assert r[p] == old_[p];
      }
    }
    forall id ensures HasId(old_ + incoming, id) <==> HasId(old_, id) || HasId(incoming, id) {
      if HasId(old_ + incoming, id) {
        var p :| 0 <= p < |old_ + incoming| && (old_ + incoming)[p].id == id;
        if p >= |old_| { assert incoming[p - |old_|].id == id; }
      }
      if HasId(incoming, id) {
        var p :| 0 <= p < |incoming| && incoming[p].id == id;
        assert (old_ + incoming)[|old_| + p] == incoming[p];
      }
      if HasId(old_, id) {
        var p :| 0 <= p < |old_| && old_[p].id == id;
        assert (old_ + incoming)[p] == old_[p];
      }
    }
  }
}
