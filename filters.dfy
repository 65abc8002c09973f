/** `applyCatalogFilters`: the catalog records that pass the tag, subscriber
    and star filters, in the order the sort select asks for. */
module Filters {
  import opened Strings
  import opened Records

  /** The values of the sort select; any value but the four named ones
      leaves the order alone. */
  datatype SortChoice = ByTitle | BySubscribers | ByFavorites | ByRating | Unsorted

  /** The four filter controls: the raw tag preset text, the two minimums
      (`Number(value || 0)`) and the sort choice. */
  datatype FilterSettings = FilterSettings(tag: string, minSubs: int, minStars: int, sort: SortChoice)

  /** The tag preset as it is compared: trimmed and lower-cased. */
  function TagQuery(s: FilterSettings): string {
    Lower(Trim(s.tag))
  }

  /** Some tag contains `query` once lower-cased. */
  predicate TagMatches(tags: seq<string>, query: string) {
    exists k :: 0 <= k < |tags| && Contains(Lower(tags[k]), query)
  }

  /** The predicate of the `filter` call: a positive minimum excludes
      records below it, and a non-empty tag query excludes records none of
      whose tags contain it. */
  predicate Passes(s: FilterSettings, m: Mod) {
    && !(s.minSubs > 0 && m.subscribers < s.minSubs)
    && !(s.minStars > 0 && m.stars < s.minStars)
    && (TagQuery(s) != "" ==> TagMatches(m.tags, TagQuery(s)))
  }

  /** The records that pass, in their catalog order. */
  function KeepPassing(s: FilterSettings, mods: seq<Mod>): (r: seq<Mod>)
    ensures |r| <= |mods|
  {
    if |mods| == 0 then []
    else (if Passes(s, mods[0]) then [mods[0]] else []) + KeepPassing(s, mods[1..])
  }

  /** The number the comparator `(b.x || 0) - (a.x || 0)` reads. */
  function Key(o: SortChoice, m: Mod): nat {
    match o
    case BySubscribers => m.subscribers
    case ByFavorites => m.favorites
    case ByRating => m.stars
    case _ => 0
  }

  /** Keys never increase along `xs`. */
  predicate SortedDesc(o: SortChoice, xs: seq<Mod>) {
    forall i, j :: 0 <= i < j < |xs| ==> Key(o, xs[i]) >= Key(o, xs[j])
  }

  /** `x` placed before the first record of `xs` whose key does not exceed
      its own. */
  function Insert(o: SortChoice, x: Mod, xs: seq<Mod>): (r: seq<Mod>)
    ensures |r| == |xs| + 1
  {
    if |xs| == 0 || Key(o, x) >= Key(o, xs[0]) then [x] + xs
    else [xs[0]] + Insert(o, x, xs[1..])
  }

  /** `Array.prototype.sort` with a descending numeric comparator, a stable
      sort: here an insertion sort into the sorted rest. */
  function SortDesc(o: SortChoice, xs: seq<Mod>): (r: seq<Mod>)
    ensures |r| == |xs|
  {
    if |xs| == 0 then [] else Insert(o, xs[0], SortDesc(o, xs[1..]))
  }

  /** The records of `xs` whose key is `k`, in their order in `xs`. */
  function WithKey(o: SortChoice, xs: seq<Mod>, k: nat): (r: seq<Mod>)
    ensures |r| <= |xs|
  {
    if |xs| == 0 then []
    else (if Key(o, xs[0]) == k then [xs[0]] else []) + WithKey(o, xs[1..], k)
  }

  /** The filtered records, sorted by subscribers, favorites or stars,
      largest first; under `title` or any other choice they keep their
      catalog order. */
  function ApplyCatalogFilters(s: FilterSettings, mods: seq<Mod>): seq<Mod> {
    var kept := KeepPassing(s, mods);
    match s.sort
    case BySubscribers => SortDesc(s.sort, kept)
    case ByFavorites => SortDesc(s.sort, kept)
    case ByRating => SortDesc(s.sort, kept)
    case _ => kept
  }

  // ---------------------------------------------------------------------
  // The filter

  /** A record appears among the kept ones exactly as often as in the
      catalog if it passes, and not at all otherwise. */
  lemma {:induction false} KeepPassingCount(s: FilterSettings, mods: seq<Mod>, m: Mod)
    ensures multiset(KeepPassing(s, mods))[m] == if Passes(s, m) then multiset(mods)[m] else 0
  {
    if |mods| > 0 {
      KeepPassingCount(s, mods[1..], m);
      assert mods == [mods[0]] + mods[1..];
    }
  }

  /** The kept records are the catalog records that pass. */
  lemma KeepPassingMembers(s: FilterSettings, mods: seq<Mod>)
    ensures forall m :: m in KeepPassing(s, mods) <==> m in mods && Passes(s, m)
  {
    forall m ensures m in KeepPassing(s, mods) <==> m in mods && Passes(s, m) {
      KeepPassingCount(s, mods, m);
    }
  }

  /** With no minimums and no tag query every record is kept. */
  lemma {:induction false} KeepPassingAll(s: FilterSettings, mods: seq<Mod>)
    requires s.minSubs <= 0 && s.minStars <= 0 && TagQuery(s) == ""
    ensures KeepPassing(s, mods) == mods
  {
    if |mods| > 0 {
      KeepPassingAll(s, mods[1..]);
      assert mods == [mods[0]] + mods[1..];
    }
  }

  // ---------------------------------------------------------------------
  // The sort

  /** No key along `xs` exceeds `b`. */
  predicate AtMost(o: SortChoice, xs: seq<Mod>, b: nat) {
    forall i :: 0 <= i < |xs| ==> Key(o, xs[i]) <= b
  }

  lemma {:induction false} InsertAtMost(o: SortChoice, x: Mod, xs: seq<Mod>, b: nat)
    requires AtMost(o, xs, b) && Key(o, x) <= b
    ensures AtMost(o, Insert(o, x, xs), b)
  {
    if |xs| > 0 && Key(o, x) < Key(o, xs[0]) {
      InsertAtMost(o, x, xs[1..], b);
      var r := Insert(o, x, xs);
      assert r == [xs[0]] + Insert(o, x, xs[1..]);
    }
  }

  /** Inserting keeps the keys in descending order. */
  lemma {:induction false} InsertSorted(o: SortChoice, x: Mod, xs: seq<Mod>)
    requires SortedDesc(o, xs)
    ensures SortedDesc(o, Insert(o, x, xs))
  {
    if |xs| > 0 && Key(o, x) < Key(o, xs[0]) {
      var tail := xs[1..];
      assert SortedDesc(o, tail) && AtMost(o, tail, Key(o, xs[0])) by {
        forall i | 0 <= i < |tail| ensures tail[i] == xs[i + 1] { }
      }
      InsertSorted(o, x, tail);
      InsertAtMost(o, x, tail, Key(o, xs[0]));
      var rest := Insert(o, x, tail);
      var r := [xs[0]] + rest;
      assert Insert(o, x, xs) == r;
      forall i, j | 0 <= i < j < |r| ensures Key(o, r[i]) >= Key(o, r[j]) {
        assert r[j] == rest[j - 1];
        if i > 0 {
          assert r[i] == rest[i - 1];
        }
      }
    }
  }

  /** Inserting adds exactly `x`. */
  lemma {:induction false} InsertMultiset(o: SortChoice, x: Mod, xs: seq<Mod>)
    ensures multiset(Insert(o, x, xs)) == multiset{x} + multiset(xs)
  {
    if |xs| > 0 && Key(o, x) < Key(o, xs[0]) {
      InsertMultiset(o, x, xs[1..]);
      assert xs == [xs[0]] + xs[1..];
    }
  }

  /** Inserting `x` puts it ahead of every record of equal key. */
  lemma {:induction false} InsertWithKey(o: SortChoice, x: Mod, xs: seq<Mod>, k: nat)
    ensures WithKey(o, Insert(o, x, xs), k) == (if Key(o, x) == k then [x] else []) + WithKey(o, xs, k)
  {
    if |xs| > 0 && Key(o, x) < Key(o, xs[0]) {
      var rest := Insert(o, x, xs[1..]);
      InsertWithKey(o, x, xs[1..], k);
      WithKeyCons(o, xs[0], rest, k);
      WithKeyCons(o, xs[0], xs[1..], k);
      assert [xs[0]] + xs[1..] == xs;
    } else {
      WithKeyCons(o, x, xs, k);
    }
  }

  lemma WithKeyCons(o: SortChoice, y: Mod, ys: seq<Mod>, k: nat)
    ensures WithKey(o, [y] + ys, k) == (if Key(o, y) == k then [y] else []) + WithKey(o, ys, k)
  {
    assert ([y] + ys)[1..] == ys;
  }

  /** The sort orders the keys from largest to smallest. */
  lemma {:induction false} SortDescSorted(o: SortChoice, xs: seq<Mod>)
    ensures SortedDesc(o, SortDesc(o, xs))
  {
    if |xs| > 0 {
      SortDescSorted(o, xs[1..]);
      InsertSorted(o, xs[0], SortDesc(o, xs[1..]));
    }
  }

  /** The sort is a permutation. */
  lemma {:induction false} SortDescPermutation(o: SortChoice, xs: seq<Mod>)
    ensures multiset(SortDesc(o, xs)) == multiset(xs)
  {
    if |xs| > 0 {
      SortDescPermutation(o, xs[1..]);
      InsertMultiset(o, xs[0], SortDesc(o, xs[1..]));
      assert xs == [xs[0]] + xs[1..];
    }
  }

  /** The sort is stable: records of equal key keep their relative order. */
  lemma {:induction false} SortDescStable(o: SortChoice, xs: seq<Mod>, k: nat)
    ensures WithKey(o, SortDesc(o, xs), k) == WithKey(o, xs, k)
  {
    if |xs| > 0 {
      SortDescStable(o, xs[1..], k);
      InsertWithKey(o, xs[0], SortDesc(o, xs[1..]), k);
    }
  }

  /** A list already in descending order is left as it is. */
  lemma {:induction false} SortDescOfSorted(o: SortChoice, xs: seq<Mod>)
    requires SortedDesc(o, xs)
    ensures SortDesc(o, xs) == xs
  {
    if |xs| > 0 {
      assert SortedDesc(o, xs[1..]) by {
        forall i, j | 0 <= i < j < |xs| - 1 ensures Key(o, xs[1..][i]) >= Key(o, xs[1..][j]) {
          assert xs[1..][i] == xs[i + 1] && xs[1..][j] == xs[j + 1];
        }
      }
      SortDescOfSorted(o, xs[1..]);
      assert xs == [xs[0]] + xs[1..];
    }
  }

  // ---------------------------------------------------------------------
  // The whole view

  /** The view holds the passing records, each as often as the catalog
      does; a numeric sort orders it by that number, largest first, keeping
      ties in catalog order; otherwise it is in catalog order. */
  lemma ApplyCatalogFiltersMeaning(s: FilterSettings, mods: seq<Mod>)
    ensures var r := ApplyCatalogFilters(s, mods);
      && (forall m :: multiset(r)[m] == if Passes(s, m) then multiset(mods)[m] else 0)
      && (s.sort in {BySubscribers, ByFavorites, ByRating} ==>
            SortedDesc(s.sort, r)
            && forall k: nat :: WithKey(s.sort, r, k) == WithKey(s.sort, KeepPassing(s, mods), k))
      && (s.sort in {ByTitle, Unsorted} ==> r == KeepPassing(s, mods))
  {
    var kept := KeepPassing(s, mods);
    forall m ensures multiset(kept)[m] == if Passes(s, m) then multiset(mods)[m] else 0 {
      KeepPassingCount(s, mods, m);
    }
    SortDescPermutation(s.sort, kept);
    SortDescSorted(s.sort, kept);
    forall k: nat ensures WithKey(s.sort, SortDesc(s.sort, kept), k) == WithKey(s.sort, kept, k) {
      SortDescStable(s.sort, kept, k);
    }
  }

  /** Every record of the view passes the filters. */
  lemma ApplyCatalogFiltersPass(s: FilterSettings, mods: seq<Mod>)
    ensures forall m :: m in ApplyCatalogFilters(s, mods) <==> m in mods && Passes(s, m)
  {
    ApplyCatalogFiltersMeaning(s, mods);
    forall m ensures m in ApplyCatalogFilters(s, mods) <==> m in mods && Passes(s, m) {
      assert m in ApplyCatalogFilters(s, mods) <==> multiset(ApplyCatalogFilters(s, mods))[m] > 0;
    }
  }

  /** With no filter set and no sort the view is the whole catalog. */
  lemma ApplyCatalogFiltersNone(mods: seq<Mod>)
    ensures ApplyCatalogFilters(FilterSettings("", 0, 0, Unsorted), mods) == mods
  {
    var s := FilterSettings("", 0, 0, Unsorted);
    TrimMeaning("");
    KeepPassingAll(s, mods);
  }
}
