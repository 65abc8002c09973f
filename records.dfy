/** The records the catalog works on: a mod as the extractors build it and
    the detail-page fields `parseDetailMetadata` returns, with the
    deduplication by id that both extractors perform. */
module Records {
  import opened Strings

  /** A catalog entry. Fields a record created by the extractors does not
      set hold their empty value (`""`, `0`, `[]`), which is how the code's
      `||` fallbacks read a missing field. */
  datatype Mod = Mod(
    id: string,
    name: string,
    url: string,
    author: string,
    authorUrl: string,
    preview: string,
    stars: nat,
    visitors: nat,
    subscribers: nat,
    favorites: nat,
    ratings: nat,
    tags: seq<string>,
    description: string,
    descriptionMarkdown: string,
    descriptionHtml: string,
    fileSize: string,
    posted: string,
    descriptionImages: seq<string>)

  /** What the detail page of one mod yields. */
  datatype Details = Details(
    description: string,
    descriptionMarkdown: string,
    descriptionHtml: string,
    tags: seq<string>,
    visitors: nat,
    subscribers: nat,
    favorites: nat,
    ratings: nat,
    fileSize: string,
    posted: string,
    preview: string,
    descriptionImages: seq<string>)

  const UnknownAuthor := "Неизвестный автор"

  const DetailsUrlPrefix := "https://steamcommunity.com/" + "sharedfiles/filedetails/?id="

  /** The page of a mod. */
  function ModUrl(id: string): string {
    DetailsUrlPrefix + id
  }

  /** The placeholder title `Мод #<id>`. */
  function FallbackName(id: string): string {
    "Мод #" + id
  }

  /** The record an extractor creates: every metric 0, no tags, no
      description. */
  function NewMod(id: string, name: string, author: string, authorUrl: string, preview: string, stars: nat): Mod {
    Mod(id, name, ModUrl(id), author, authorUrl, preview, stars, 0, 0, 0, 0, [], "", "", "", "", "", [])
  }

  /** Some record carries `id`. */
  predicate HasId(mods: seq<Mod>, id: string) {
    exists k :: 0 <= k < |mods| && mods[k].id == id
  }

  /** No two records share an id. */
  predicate DistinctIds(mods: seq<Mod>) {
    forall p, q :: 0 <= p < q < |mods| ==> mods[p].id != mods[q].id
  }

  /** Position of the first record with `id`. */
  function FirstIndex(mods: seq<Mod>, id: string): (k: nat)
    requires HasId(mods, id)
    ensures k < |mods| && mods[k].id == id
    ensures forall j :: 0 <= j < k ==> mods[j].id != id
  {
    if mods[0].id == id then 0
    else
      var k :| 0 <= k < |mods| && mods[k].id == id;
      assert mods[1..][k - 1].id == id;
      1 + FirstIndex(mods[1..], id)
  }

  /** `findIndex` by id: the position of the first record with `id`, or -1. */
  function FindIndex(mods: seq<Mod>, id: string): (k: int)
    ensures k == -1 <==> !HasId(mods, id)
    ensures k >= 0 ==> k == FirstIndex(mods, id)
  {
    if HasId(mods, id) then FirstIndex(mods, id) else -1
  }

  /** The records kept when each is added only if its id is new: the
      first-seen-wins rule of both extractors. */
  function FirstById(mods: seq<Mod>): (r: seq<Mod>)
    ensures DistinctIds(r)
    ensures |r| <= |mods|
  {
    if |mods| == 0 then []
    else
      var init := mods[..|mods| - 1];
      var last := mods[|mods| - 1];
      var p := FirstById(init);
      if HasId(p, last.id) then p else p + [last]
  }

  /** The kept records carry exactly the ids of the input. */
  lemma {:induction false} FirstByIdHasId(mods: seq<Mod>)
    ensures forall id :: HasId(FirstById(mods), id) <==> HasId(mods, id)
  {
    if |mods| > 0 {
      var init := mods[..|mods| - 1];
      var last := mods[|mods| - 1];
      FirstByIdHasId(init);
      HasIdSnoc(init, last);
      HasIdSnoc(FirstById(init), last);
      assert mods == init + [last];
    }
  }

  lemma HasIdSnoc(mods: seq<Mod>, m: Mod)
    ensures forall id :: HasId(mods + [m], id) <==> HasId(mods, id) || id == m.id
  {
    forall id | HasId(mods, id) ensures HasId(mods + [m], id) {
      var k :| 0 <= k < |mods| && mods[k].id == id;
      assert (mods + [m])[k] == mods[k];
    }
    assert (mods + [m])[|mods|] == m;
  }

  lemma FirstIndexPrefix(mods: seq<Mod>, n: nat, id: string)
    requires n <= |mods| && HasId(mods[..n], id)
    ensures HasId(mods, id) && FirstIndex(mods[..n], id) == FirstIndex(mods, id)
  {
    var k := FirstIndex(mods[..n], id);
    assert mods[..n][k] == mods[k];
  }

  /** A record whose id is new is the first record with that id. */
  lemma FirstIndexLast(mods: seq<Mod>)
    requires |mods| > 0 && !HasId(mods[..|mods| - 1], mods[|mods| - 1].id)
    ensures HasId(mods, mods[|mods| - 1].id)
    ensures FirstIndex(mods, mods[|mods| - 1].id) == |mods| - 1
  {
    var n := |mods| - 1;
    var id := mods[n].id;
    assert HasId(mods, id);
    var k := FirstIndex(mods, id);
    assert k == n by {
      assert forall j :: 0 <= j < n ==> mods[..n][j] == mods[j];
    }
  }

  /** Each kept record is the first record with its id. */
  lemma {:induction false} FirstByIdFirstSeen(mods: seq<Mod>)
    ensures forall p :: 0 <= p < |FirstById(mods)| ==>
              HasId(mods, FirstById(mods)[p].id) && FirstById(mods)[p] == mods[FirstIndex(mods, FirstById(mods)[p].id)]
  {
    if |mods| > 0 {
      var n := |mods| - 1;
      var pr := FirstById(mods[..n]);
      var r := FirstById(mods);
      FirstByIdFirstSeen(mods[..n]);
      FirstByIdHasId(mods[..n]);
      var isNew := !HasId(pr, mods[n].id);
      assert r == if isNew then pr + [mods[n]] else pr;
      if isNew {
        FirstIndexLast(mods);
      }
      forall p | 0 <= p < |r|
        ensures HasId(mods, r[p].id) && r[p] == mods[FirstIndex(mods, r[p].id)]
      {
        if p < |pr| {
          FirstIndexPrefix(mods, n, pr[p].id);
          assert r[p] == pr[p];
          assert mods[..n][FirstIndex(mods[..n], pr[p].id)] == mods[FirstIndex(mods, pr[p].id)];
        }
      }
    }
  }

  /** The kept records follow the order in which their ids first appear. */
  lemma {:induction false} FirstByIdOrder(mods: seq<Mod>)
    ensures forall p :: 0 <= p < |FirstById(mods)| ==> HasId(mods, FirstById(mods)[p].id)
    ensures forall p, q :: 0 <= p < q < |FirstById(mods)| ==>
              FirstIndex(mods, FirstById(mods)[p].id) < FirstIndex(mods, FirstById(mods)[q].id)
  {
    if |mods| > 0 {
      var n := |mods| - 1;
      var pr := FirstById(mods[..n]);
      var r := FirstById(mods);
      FirstByIdOrder(mods[..n]);
      forall p | 0 <= p < |pr| ensures HasId(mods, pr[p].id) {
        FirstIndexPrefix(mods, n, pr[p].id);
      }
      if HasId(pr, mods[n].id) {
        assert r == pr;
        forall p, q | 0 <= p < q < |r|
          ensures FirstIndex(mods, r[p].id) < FirstIndex(mods, r[q].id)
        {
          FirstIndexPrefix(mods, n, pr[p].id);
          FirstIndexPrefix(mods, n, pr[q].id);
        }
      } else {
        assert r == pr + [mods[n]];
        assert !HasId(mods[..n], mods[n].id) by {
          FirstByIdHasId(mods[..n]);
        }
        FirstIndexLast(mods);
        forall p, q | 0 <= p < q < |r|
          ensures FirstIndex(mods, r[p].id) < FirstIndex(mods, r[q].id)
        {
          assert r[p] == pr[p];
          FirstIndexPrefix(mods, n, pr[p].id);
          if q < |pr| {
            assert r[q] == pr[q];
            FirstIndexPrefix(mods, n, pr[q].id);
          }
        }
      }
    }
  }

  /** Adding a record extends the kept records exactly when its id is new. */
  lemma FirstByIdSnoc(mods: seq<Mod>, m: Mod)
    ensures FirstById(mods + [m]) ==
      if HasId(mods, m.id) then FirstById(mods) else FirstById(mods) + [m]
  {
    FirstByIdHasId(mods);
    assert (mods + [m])[..|mods|] == mods;
  }

  /** Every kept record is one of the input records. */
  lemma FirstByIdSubset(mods: seq<Mod>)
    ensures forall p :: 0 <= p < |FirstById(mods)| ==> FirstById(mods)[p] in mods
  {
    FirstByIdFirstSeen(mods);
  }

  /** Something is kept from a non-empty input. */
  lemma FirstByIdNonEmpty(mods: seq<Mod>)
    ensures |FirstById(mods)| == 0 <==> |mods| == 0
  {
    if |mods| > 0 {
      assert HasId(mods, mods[0].id);
    }
  }

  /** Records that already have distinct ids are all kept, in order. */
  lemma {:induction false} FirstByIdDistinct(mods: seq<Mod>)
    requires DistinctIds(mods)
    ensures FirstById(mods) == mods
  {
    if |mods| > 0 {
      var n := |mods| - 1;
      var init := mods[..n];
      assert DistinctIds(init) by {
        forall p, q | 0 <= p < q < n ensures init[p].id != init[q].id {
          assert init[p] == mods[p] && init[q] == mods[q];
        }
      }
      FirstByIdDistinct(init);
      assert mods == init + [mods[n]];
    }
  }

  /** Adding records behind others keeps everything the first ones kept,
      in front. */
  lemma {:induction false} FirstByIdPrefix(a: seq<Mod>, b: seq<Mod>)
    ensures |FirstById(a)| <= |FirstById(a + b)|
    ensures FirstById(a + b)[..|FirstById(a)|] == FirstById(a)
  {
    if |b| == 0 {
      assert a + b == a;
    } else {
      var init := b[..|b| - 1];
      FirstByIdPrefix(a, init);
      assert a + b == (a + init) + [b[|b| - 1]];
      FirstByIdSnoc(a + init, b[|b| - 1]);
    }
  }

  // ---------------------------------------------------------------------
  // The `Map` of `parseBasicModsFromMarkdown`

  /** A `Map` from id to record as two halves, its entries by key and its
      keys in insertion order, holding exactly the kept records of `recs`. */
  ghost predicate Indexes(byId: map<string, Mod>, order: seq<string>, recs: seq<Mod>) {
    && (forall id :: id in byId <==> HasId(recs, id))
    && |order| == |FirstById(recs)|
    && forall k :: 0 <= k < |order| ==> order[k] in byId && byId[order[k]] == FirstById(recs)[k]
  }

  /** `if (!byId.has(m.id)) byId.set(m.id, m)`: the map then holds the kept
      records of `recs + [m]`. */
  method Remember(byId: map<string, Mod>, order: seq<string>, ghost recs: seq<Mod>, m: Mod)
    returns (byId': map<string, Mod>, order': seq<string>)
    requires Indexes(byId, order, recs)
    ensures Indexes(byId', order', recs + [m])
    ensures m.id !in byId ==> byId' == byId[m.id := m] && order' == order + [m.id]
  {
    if m.id in byId {
      IndexesOld(byId, order, recs, m);
      byId', order' := byId, order;
    } else {
      IndexesNew(byId, order, recs, m);
      byId' := byId[m.id := m];
      order' := order + [m.id];
    }
  }

  lemma IndexesOld(byId: map<string, Mod>, order: seq<string>, recs: seq<Mod>, m: Mod)
    requires Indexes(byId, order, recs) && m.id in byId
    ensures Indexes(byId, order, recs + [m])
  {
    FirstByIdSnoc(recs, m);
    HasIdSnoc(recs, m);
  }

  lemma IndexesNew(byId: map<string, Mod>, order: seq<string>, recs: seq<Mod>, m: Mod)
    requires Indexes(byId, order, recs) && m.id !in byId
    ensures Indexes(byId[m.id := m], order + [m.id], recs + [m])
  {
    var kept := FirstById(recs);
    var byId', order' := byId[m.id := m], order + [m.id];
    assert forall id :: id in byId' <==> HasId(recs + [m], id) by {
      HasIdSnoc(recs, m);
    }
    assert FirstById(recs + [m]) == kept + [m] by {
      FirstByIdSnoc(recs, m);
    }
    assert forall k :: 0 <= k < |order'| ==> order'[k] in byId' && byId'[order'[k]] == (kept + [m])[k] by {
      forall k | 0 <= k < |order'| ensures order'[k] in byId' && byId'[order'[k]] == (kept + [m])[k] {
        if k < |order| {
          assert order'[k] == order[k] && order[k] in byId && (kept + [m])[k] == kept[k];
        }
      }
    }
  }

  /** `[...byId.values()]`: the entries in insertion order. */
  function Values(byId: map<string, Mod>, order: seq<string>): (r: seq<Mod>)
    requires forall k :: 0 <= k < |order| ==> order[k] in byId
    ensures |r| == |order|
    ensures forall k :: 0 <= k < |order| ==> r[k] == byId[order[k]]
  {
    seq(|order|, k requires 0 <= k < |order| => byId[order[k]])
  }

  /** The values of a map holding the kept records of `recs` are those
      records. */
  lemma IndexesValues(byId: map<string, Mod>, order: seq<string>, recs: seq<Mod>)
    requires Indexes(byId, order, recs)
    ensures (forall k :: 0 <= k < |order| ==> order[k] in byId) && Values(byId, order) == FirstById(recs)
  {
  }
  /** `new Map(current.map((mod) => [mod.id, mod]))`: every record set
      under its id; with distinct ids no key is set twice. */
  method IndexDistinct(current: seq<Mod>) returns (byId: map<string, Mod>, order: seq<string>)
    requires DistinctIds(current)
    ensures Indexes(byId, order, current)
  {
    byId, order := map[], [];
    ghost var seen: seq<Mod> := [];
    var i := 0;
    while i < |current|
      invariant 0 <= i <= |current| && seen == current[..i]
      invariant Indexes(byId, order, seen)
    {
      var m := current[i];
      DistinctNew(current, i);
      ghost var next;
      next, order := Remember(byId, order, seen, m);
      byId := byId[m.id := m];
      assert next == byId;
      SliceSnoc1(current, i);
      seen := seen + [m];
      i := i + 1;
    }
    assert current[..i] == current;
  }

  /** `incoming.forEach(...)`: each record set unless its id is there. */
  method IndexMore(byId: map<string, Mod>, order: seq<string>, ghost recs: seq<Mod>, incoming: seq<Mod>)
    returns (byId': map<string, Mod>, order': seq<string>)
    requires Indexes(byId, order, recs)
    ensures Indexes(byId', order', recs + incoming)
  {
    byId', order' := byId, order;
    ghost var seen := recs;
    var j := 0;
    while j < |incoming|
      invariant 0 <= j <= |incoming| && seen == recs + incoming[..j]
      invariant Indexes(byId', order', seen)
    {
      byId', order' := Remember(byId', order', seen, incoming[j]);
      SliceSnoc(recs, incoming, j);
      seen := seen + [incoming[j]];
      j := j + 1;
    }
    assert incoming[..j] == incoming;
  }

  lemma SliceSnoc1(b: seq<Mod>, j: nat)
    requires j < |b|
    ensures b[..j] + [b[j]] == b[..j + 1]
  {
  }

  lemma DistinctNew(mods: seq<Mod>, i: nat)
    requires DistinctIds(mods) && i < |mods|
    ensures !HasId(mods[..i], mods[i].id)
  {
    forall k | 0 <= k < i ensures mods[..i][k].id != mods[i].id {
      assert mods[..i][k] == mods[k];
    }
  }

  lemma SliceSnoc(a: seq<Mod>, b: seq<Mod>, j: nat)
    requires j < |b|
    ensures a + b[..j] + [b[j]] == a + b[..j + 1]
  {
    assert b[..j + 1] == b[..j] + [b[j]];
  }

  /** The append branch: the records of `current` followed by the records
      of `incoming` whose ids are new. */
  method AppendNew(current: seq<Mod>, incoming: seq<Mod>) returns (r: seq<Mod>)
    requires DistinctIds(current)
    ensures r == FirstById(current + incoming)
  {
    var byId, order := IndexDistinct(current);
    byId, order := IndexMore(byId, order, current, incoming);
    IndexesValues(byId, order, current + incoming);
    r := Values(byId, order);
  }

}
