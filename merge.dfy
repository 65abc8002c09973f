/** `mergeModDetails`: folding the fields of a detail page into a catalog
    record. */
module Merge {
  import opened Strings
  import opened Records
  import opened Normalize

  // ---------------------------------------------------------------------
  // mergeModDetails

  /** `incoming || existing || ''`: a non-empty incoming text wins. */
  function PickText(incoming: string, existing: string): string {
    if incoming != "" then incoming else existing
  }

  /** `incoming || existing || 0`: a non-zero incoming count wins. */
  function PickCount(incoming: nat, existing: nat): nat {
    if incoming != 0 then incoming else existing
  }

  /** `incoming?.length ? incoming : existing || []`. */
  function PickList(incoming: seq<string>, existing: seq<string>): seq<string> {
    if |incoming| > 0 then incoming else existing
  }

  /** `mergeModDetails(mod, details)`: the record with every field the
      detail page carries taken from it when it is not empty, and the
      preview normalised. */
  function MergeModDetails(m: Mod, d: Details): Mod {
    m.(description := PickText(d.description, m.description),
       descriptionMarkdown := PickText(d.descriptionMarkdown, m.descriptionMarkdown),
       descriptionHtml := PickText(d.descriptionHtml, m.descriptionHtml),
       tags := PickList(d.tags, m.tags),
       visitors := PickCount(d.visitors, m.visitors),
       subscribers := PickCount(d.subscribers, m.subscribers),
       favorites := PickCount(d.favorites, m.favorites),
       ratings := PickCount(d.ratings, m.ratings),
       fileSize := PickText(d.fileSize, m.fileSize),
       posted := PickText(d.posted, m.posted),
       preview := NormalizeImageUrl(PickText(d.preview, m.preview)),
       descriptionImages := PickList(d.descriptionImages, m.descriptionImages))
  }

  /** Details that carry nothing. */
  const NoDetails := Details("", "", "", [], 0, 0, 0, 0, "", "", "", [])

  /** The fields a detail page carries, as the record holds them. */
  function DetailsOf(m: Mod): Details {
    Details(m.description, m.descriptionMarkdown, m.descriptionHtml, m.tags,
            m.visitors, m.subscribers, m.favorites, m.ratings,
            m.fileSize, m.posted, m.preview, m.descriptionImages)
  }

  /** A non-empty detail field wins and an empty one keeps the record's
      value; the preview is normalised either way. */
  lemma MergeDetailWins(m: Mod, d: Details)
    ensures var r := MergeModDetails(m, d);
      && r.description == (if d.description != "" then d.description else m.description)
      && r.descriptionMarkdown == (if d.descriptionMarkdown != "" then d.descriptionMarkdown else m.descriptionMarkdown)
      && r.descriptionHtml == (if d.descriptionHtml != "" then d.descriptionHtml else m.descriptionHtml)
      && r.tags == (if |d.tags| > 0 then d.tags else m.tags)
      && r.visitors == (if d.visitors != 0 then d.visitors else m.visitors)
      && r.subscribers == (if d.subscribers != 0 then d.subscribers else m.subscribers)
      && r.favorites == (if d.favorites != 0 then d.favorites else m.favorites)
      && r.ratings == (if d.ratings != 0 then d.ratings else m.ratings)
      && r.fileSize == (if d.fileSize != "" then d.fileSize else m.fileSize)
      && r.posted == (if d.posted != "" then d.posted else m.posted)
      && r.preview == NormalizeImageUrl(if d.preview != "" then d.preview else m.preview)
      && r.descriptionImages == (if |d.descriptionImages| > 0 then d.descriptionImages else m.descriptionImages)
      && NoSpaces(r.preview) && !CiStartsAt(r.preview, 0, "http://")
  {
  }

  /** Identity, title, address, author and stars are copied unchanged. */
  lemma MergeKeepsIdentity(m: Mod, d: Details)
    ensures var r := MergeModDetails(m, d);
      r.id == m.id && r.name == m.name && r.url == m.url && r.author == m.author
      && r.authorUrl == m.authorUrl && r.stars == m.stars
  {
  }

  /** Empty details change nothing but the preview, which is normalised. */
  lemma MergeNoDetails(m: Mod)
    ensures MergeModDetails(m, NoDetails) == m.(preview := NormalizeImageUrl(m.preview))
  {
  }

  /** Merging the record's own detail fields only normalises its preview. */
  lemma MergeOwnDetails(m: Mod)
    ensures MergeModDetails(m, DetailsOf(m)) == m.(preview := NormalizeImageUrl(m.preview))
  {
  }

  /** Merging the same details a second time changes nothing. */
  lemma MergeIdempotent(m: Mod, d: Details)
    ensures MergeModDetails(MergeModDetails(m, d), d) == MergeModDetails(m, d)
  {
    NormalizeImageUrlIdempotent(if d.preview != "" then d.preview else m.preview);
  }
}
