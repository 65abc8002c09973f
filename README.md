# Steam workshop catalog core, modelled in Dafny

The application is a browser page for building lists of Steam workshop mods and
downloading them with `steamcmd`. This project models the core that acquires and
normalises the catalog, all of it in `app.js`:

- the token parsers `parseNumber`, `parseStars`, `parseWorkshopId` and
  `parseSteamTotalFromMarkdown`;
- the normalisers `normalizeModTitle`, `normalizeImageUrl` and `escapeHtml`;
- the snippet extractors `extractTitleFromSnippet` and `extractAuthorFromSnippet`;
- the catalog extractors `parseBasicModsFromMarkdown` and
  `parseRichModsFromMarkdown`, and the detail-page parser `parseDetailMetadata`;
- `mergeModDetails` and `applyCatalogFilters`;
- the catalog session: `makeCatalogContextKey`, `resetCatalogSessionStats`,
  `enrichCatalogMods` and `loadCatalogMods`;
- the detail cache of `fetchModDetails` and the proxy fallback of `fetchViaProxy`;
- the list helpers `sanitizeListName`, `generateBatScript`, `generateShScript`, and
  the id filter of `importListFromFile`.

Every regular expression is a hand-written scanner. Each scanner follows the
JavaScript semantics of its pattern: the leftmost match, the greedy or lazy choice
made, and a global scan resuming where the previous match ended. The comments next
to each scanner explain why the scanner and the pattern agree.

The modules follow the layers of the program:

- `Strings`: string primitives.
- `Tokens`: the token parsers.
- `Normalize`: the normalisers.
- `Records`: the mod and details records, and first-seen de-duplication.
- `Snippets`: the title and author extractors.
- `Catalog`: the catalog extractors.
- `Detail`: `parseDetailMetadata`.
- `Merge`: `mergeModDetails`.
- `Filters`: `applyCatalogFilters`.
- `Fetch`: the proxies and the detail cache.
- `Session`: the catalog session.
- `Scripts`: the list helpers.

The pure code is written as functions. The loops are methods proved against
functions that state their result:

- the title search;
- the `regex.exec` loops of the extractors;
- the tag loop;
- the proxy loop;
- the enrichment queue.

The state the code changes lives in two classes:

- `Fetch.DetailCache` holds the `detailCache` map.
- `Session.CatalogSession` holds the session fields of `state`: `catalogPage`,
  `catalogMods`, `catalogFiltered`, `catalogTotalInSteam`,
  `catalogSessionLoadedIds`, `lastLoadedPage`, `catalogContextKey`,
  `catalogParseMode`, `catalogExtractedCount` and `isCatalogLoading`.

The methods of these classes are specified by value-level functions:
`EnrichSpec`, `LoadSpec` and `FetchDetails`. Lemmas then state what a load, an
enrichment and a cache lookup promise.

The network is a parameter:

- `Fetch.Web` gives the outcome of a GET for each URL, and `encodeURIComponent`.
- The proxy and detail base addresses are constants of the `Fetch` module.

The markdown renderers `markdownToPlain`, `markdownToHtml` and `isLikelyImageUrl`
are a `Detail.Markup` parameter.

On a failed load, the
code restores the page, the records, the filtered view, the total, the session ids
and the last loaded page. It does not restore the context key, the parse mode or the
extracted count. The model does the same; see `Session.LoadFailure`.

## Model

| member | source | states |
|---|---|---|
| Tokens.KeepDigits | app.js:277 | the result holds only digits, and it is empty exactly when the input has no digit |
| Tokens.KeepDigitsConcat | app.js:277 | dropping non-digits distributes over concatenation |
| Tokens.KeepDigitsOfDigits | app.js:277 | a run of digits is kept whole |
| Tokens.DigitsValueOfDecimal | app.js:278 | the `Number` value of the decimal digits of `n` is `n` |
| Tokens.ParseNumber | app.js:276-279 | an input without digits parses to 0 |
| Tokens.ParseNumberOfDecimal | app.js:276-279 | parsing the decimal rendering of `n` gives back `n` |
| Tokens.ParseNumberIgnoresSeparator | app.js:277-278 | a non-digit character inserted anywhere does not change the value |
| Tokens.ParseNumberAppendDigit | app.js:277-278 | a trailing digit multiplies the value by ten and adds the digit |
| Tokens.ParseStars | app.js:318-324 | the result is at most 9; it is positive only as the digit of a `/N-star.png` occurrence; it is 0 when there is no such occurrence |
| Tokens.ParseStarsMeaning | app.js:318-324 | when the leftmost match is `/N-star.png` the result is its digit `N`; when the leftmost match is `not-yet.png` the result is 0 |
| Tokens.StarsFromNotYet | app.js:319-323 | a scan whose leftmost match is `not-yet.png` gives 0 |
| Tokens.ParseWorkshopId | app.js:102-105 | there is no id exactly when no `?id=` or `&id=` is followed by a digit; otherwise the id is the digit run after the leftmost such occurrence |
| Tokens.ParseSteamTotalMeaning | app.js:326-330 | the total is 0 when no `Showing x-y of N entries` text matches; whenever a match exists, the total is `parseNumber` of the group of the leftmost match |
| Tokens.TotalGroupFrom | app.js:328 | when some position matches, the scan yields the group of the leftmost match; it yields nothing only when no position matches |
| Normalize.ImageMarkupEnd | app.js:193 | a match starts with `![image` in any case and ends with `)` |
| Normalize.NormalizeTitle | app.js:191-199 | the result is single-spaced, with no whitespace at either end |
| Normalize.NoImageMarkupWithoutBracket | app.js:193 | text without `[` holds no image markup |
| Normalize.CaptionNeedsBracket | app.js:194 | text without `]` has no leading image caption |
| Normalize.NormalizeCleanTitle | app.js:191-199 | a clean title without brackets is left as it is |
| Normalize.ImageMarkupNeeds | app.js:193 | image markup can only start at a `![` |
| Normalize.NormalizeBracketFree | app.js:191-199 | a title without brackets is only whitespace-collapsed and trimmed |
| Normalize.NormalizeWrapped | app.js:195-196 | a clean bracket-free title wrapped as `[t]` or `[[t]]` comes back as `t` |
| Normalize.NormalizeCaption | app.js:193-194 | a leading `Image N](u)` caption, with `u` free of `)` and `[` and no `.` after it, is dropped: `Image N](u)t` normalises to the clean title `t` |
| Normalize.NormalizeImageMarkup | app.js:193 | `a![Image x](u)b` normalises to `a b` whitespace-collapsed and trimmed, for bracket-free `a` and `b` |
| Normalize.NormalizeTitleIdempotent | app.js:191-199 | normalising a bracket-free result a second time changes nothing |
| Normalize.NormalizeImageUrl | app.js:201-203 | the result has no whitespace and no leading `http://` in any case; it is the input without whitespace, with a leading `http://` replaced by `https://` |
| Normalize.NormalizeImageUrlIdempotent | app.js:201-203 | normalising twice is normalising once |
| Normalize.EscapeHtml | app.js:281-288 | definitional; `Normalize.EscapeHtmlPerChar`, `Normalize.EscapeHtmlConcat`, `Normalize.EscapeHtmlRoundTrip` and `Normalize.EscapeHtmlSafe` state its properties |
| Normalize.EscapeHtmlPerChar | app.js:281-288 | the five chained replacements equal escaping one character at a time |
| Normalize.EscapeHtmlConcat | app.js:281-288 | escaping distributes over concatenation |
| Normalize.EscapeHtmlRoundTrip | app.js:281-288 | reading the entities back gives the original text |
| Normalize.EscapeHtmlSafe | app.js:281-288 | the escaped text holds no `<`, `>`, `"` or `'` |
| Snippets.TitleFrom | app.js:228-254 | the title is empty or an accepted candidate; its leftmost-occurrence meaning is `Snippets.TitleFromFirst` |
| Snippets.TitleFromFirst | app.js:232-251 | when the first occurrence of the marker at or after the start whose candidate is accepted lies at `e`, the title is the candidate at `e` |
| Snippets.TitleFromFound | app.js:232-251 | when some occurrence of the marker has an accepted candidate, the search settles on an accepted title |
| Snippets.TitleFromOrigin | app.js:232-251 | a non-empty title is the normalised candidate before some occurrence of the marker |
| Snippets.TitleFromNoMarker | app.js:233-236 | without the marker the title is empty |
| Snippets.TitleStep | app.js:233-250 | one round either settles the title or continues past the marker with the same outcome |
| Snippets.FindTitle | app.js:230-253 | the loop returns the title the search function defines |
| Snippets.ExtractTitle | app.js:228-254 | the title is the search result for the id's marker; it is empty, or clean and neither an `image N` caption nor an image host address |
| Snippets.ExtractTitleFirst | app.js:228-254 | for a digit id, the title is the normalised candidate at the first `](…/?id=<id>)` occurrence whose candidate is accepted |
| Snippets.ExtractTitleFound | app.js:228-254 | for a digit id, some occurrence with an accepted candidate means the title is not empty |
| Snippets.ExtractAuthor | app.js:256-274 | without `by[` the author is `Неизвестный автор` with an empty address; otherwise the author is clean and non-empty or the unknown author; a non-empty address starts with the profile host; the address holds no `)` |
| Snippets.ExtractAuthorLinked | app.js:257-271 | with the first `by[` at `i` and the first profile link after it at `j`, the author is the normalised text between them without a leading `[`, or `Неизвестный автор` when that is empty |
| Snippets.ExtractAuthorLinkUrl | app.js:268-272 | the address runs from just after `](` up to the first `)` after it, and is empty when no `)` follows |
| Snippets.ExtractAuthorUnlinked | app.js:262-266 | with no profile link after the first `by[`, the author is `Неизвестный автор` and the address is empty |
| Records.FirstIndex | app.js:974 | the index of the first record with the id |
| Records.FindIndex | app.js:974 | the result is -1 exactly when no record has the id, and the first index otherwise |
| Records.FirstById | app.js:362-380 | the result's ids are distinct and it is no longer than the input |
| Records.FirstByIdHasId | app.js:362-380 | the result has exactly the ids of the input |
| Records.FirstByIdFirstSeen | app.js:362-377 | each kept record is the first input record with its id |
| Records.FirstByIdOrder | app.js:380 | the kept records appear in the order their ids first appear |
| Records.FirstByIdDistinct | app.js:362-380 | input with distinct ids is kept as it is |
| Records.FirstByIdPrefix | app.js:1047-1053 | de-duplicating a longer input extends the shorter result |
| Records.IndexesNew | app.js:363 | a new id extends the map and the insertion order consistently |
| Records.IndexesValues | app.js:380 | `[...byId.values()]` is the first-seen de-duplication |
| Records.IndexDistinct | app.js:1047 | a `Map` built from records with distinct ids indexes them |
| Records.AppendNew | app.js:1047-1053 | the merged catalog is the first-seen de-duplication of old and new records |
| Catalog.IdTailMeaning | app.js:352 | the id group is a non-empty digit run, and the match ends at the first `)` after it |
| Catalog.BasicMatchMeaning | app.js:352 | a basic match is `[text](…/filedetails/?id=digits…)` with the pieces where the pattern puts them |
| Catalog.BasicMatchShortest | app.js:352 | the lazy `(.*?)` takes the shortest text that lets the rest match |
| Catalog.NextBasicLeftmost | app.js:355 | the scan finds the leftmost match at or after its position |
| Catalog.ParseBasic | app.js:349-384 | the loop yields the basic records of the text, in `basic` mode |
| Catalog.BasicRecordShape | app.js:356-376 | a match makes a record exactly when its text does not start with `![Image`; the record has a digit id, the fallback name `Мод #id` or a clean title, the unknown author, and zero counts |
| Catalog.BasicMods | app.js:349-384 | definitional; `Catalog.BasicModsShape` and `Catalog.ParseBasic` state its properties |
| Catalog.BasicModsShape | app.js:349-384 | the basic records have distinct ids and that shape |
| Catalog.PreviewShape | app.js:388 | the captured preview starts with the image host over `https` or `http` and holds no `)` |
| Catalog.RichMatchMeaning | app.js:388 | a rich match starts with `[![Image`, and has that preview and a digit id |
| Catalog.NextRichLeftmost | app.js:392 | the scan finds the leftmost match at or after its position |
| Catalog.Snippet | app.js:399 | the snippet is at most 2200 characters |
| Catalog.StarUrl | app.js:402 | a non-empty star address is the text of a match in the snippet |
| Catalog.StarUrlMeaning | app.js:402 | the star address is empty exactly when no position of the snippet starts a match; otherwise it is the text of the leftmost match |
| Catalog.RichRecord | app.js:393-422 | definitional; `Catalog.RichRecordShape` and `Catalog.BuildRichRecord` state its properties |
| Catalog.RichRecordShape | app.js:393-422 | a rich record has a digit id, the fallback name or an accepted clean title, a clean author or the unknown author, a profile address or none, a normalised preview, and at most 9 stars |
| Catalog.RichModsShape | app.js:386-424 | the rich records have distinct ids and that shape |
| Catalog.BuildRichRecord | app.js:393-422 | the method builds the record the function defines |
| Catalog.ParseRich | app.js:386-433 | the loop yields the catalog extraction of the text |
| Catalog.CatalogExtraction | app.js:349-433 | definitional; `Catalog.CatalogFallback` and `Catalog.ParseRich` state its properties |
| Catalog.CatalogFallback | app.js:426-432 | the mode is `rich` exactly when a preview match exists, with the rich records; otherwise it is `basic`, with the basic records |
| Detail.RawDescription | app.js:521-522 | definitional; `Detail.RawDescriptionMeaning` states its properties |
| Detail.RawDescriptionMeaning | app.js:521-522 | with no description heading the text is empty; otherwise it is the trimmed group of the leftmost match |
| Detail.UrlCloseAt | app.js:523 | a match at `i` is a `(` followed by `https://` or `http://`, closed by the first `)` after the `(`; when that `(` and scheme are present but no match is found, no `)` follows |
| Detail.UrlCloseFirst | app.js:523 | an address at `i` closes at the first `)` after its `(` |
| Detail.RewriteUrlsSpaces | app.js:523 | rewriting the links only removes whitespace: the whitespace-free forms of input and output agree |
| Detail.RewriteUrlsNoUrl | app.js:523 | text where no `(` is followed by `http://` or `https://` is left as it is |
| Detail.RewriteUrlsAt | app.js:523 | at the leftmost address, from its `(` to the first `)`, the text before is kept, the address loses its whitespace, and the rewrite goes on after the `)`; an earlier `(` without `http://` or `https://` after it is passed over |
| Detail.RewriteUrlsAfterNote | app.js:523 | `(note) (u)b`: the unschemed `(note)` is kept and the address `u` after it loses its whitespace, then the rewrite goes on in `b` |
| Detail.RewriteUrlsOne | app.js:523 | `a(u)b` with `a` free of `(` and `u` a `)`-free address rewrites to `a(` + `u` without whitespace + `)` + the rewrite of `b` |
| Detail.AddTag | app.js:531-534 | one tag step keeps the list the first-seen de-duplication of the non-empty names |
| Detail.CollectTags | app.js:527-535 | the loop yields the tags the function defines |
| Detail.Tags | app.js:527-535 | definitional; `Detail.TagsShape` states its properties |
| Detail.TagsShape | app.js:527-535 | the tags are distinct, non-empty and clean |
| Detail.LabelledAt | app.js:537-540 | the group is a non-empty run of digits, `,`, `.` and whitespace, followed by whitespace and then the label in any case |
| Detail.LabelledCount | app.js:537-540 | definitional; `Detail.LabelledCountNeedsLabel` and `Detail.LabelledCountValue` state its properties |
| Detail.LabelledCountNeedsLabel | app.js:537-540 | a positive count needs a labelled number in the text |
| Detail.LabelledCountValue | app.js:557-560 | the count is `parseNumber` of the leftmost labelled number |
| Detail.SizeAt | app.js:542 | the group starts with a digit, `.` or `,`; before the unit it holds only those characters and whitespace, and once whitespace starts only whitespace follows; it ends with a `KB`, `MB` or `GB` unit in any case |
| Detail.FileSize | app.js:542 | definitional; `Detail.FileSizeMeaning` states its properties |
| Detail.FileSizeMeaning | app.js:542 | the size is empty exactly when no size occurs; otherwise it is the group of the leftmost match |
| Detail.PostedAt | app.js:543 | a posted date follows `Posted` in any case and the whitespace after it: the group is the text of `s` starting at the end of that whitespace, at least five characters, three letters then whitespace |
| Detail.Posted | app.js:543 | definitional; `Detail.PostedMeaning` states its properties |
| Detail.PostedMeaning | app.js:543 | the date is empty exactly when no posting date occurs; otherwise it is the group of the leftmost match |
| Detail.DetailPreview | app.js:544 | the preview has no whitespace and no leading `http://` |
| Detail.DetailPreviewMeaning | app.js:544 | the preview is empty exactly when no position starts a preview match; otherwise it is the normalised address of the leftmost match |
| Detail.Filter | app.js:550 | the result holds exactly the kept elements |
| Detail.GalleryShape | app.js:545-550 | the gallery holds at most 20 distinct image addresses; each is normalised and comes from a candidate |
| Detail.GalleryCount | app.js:548-550 | the gallery is the unique images, cut to their first 20 |
| Detail.Gallery | app.js:545-550 | definitional; `Detail.GalleryShape` and `Detail.GalleryCount` state its properties |
| Detail.DetailMetadata | app.js:518-566 | definitional; `Detail.DetailMetadataShape` states its properties |
| Detail.ParseDetailMetadata | app.js:518-566 | the method yields the details the function defines |
| Detail.DetailMetadataShape | app.js:518-566 | the tags are distinct and clean; the images number at most 20 and are accepted and normalised; the markdown is the raw description up to whitespace; the plain and HTML texts render it |
| Merge.MergeModDetails | app.js:585-601 | definitional; `Merge.MergeDetailWins`, `Merge.MergeKeepsIdentity`, `Merge.MergeNoDetails`, `Merge.MergeOwnDetails` and `Merge.MergeIdempotent` state its properties |
| Merge.MergeDetailWins | app.js:585-601 | each field takes the non-empty detail value and otherwise keeps the record's; the preview is normalised |
| Merge.MergeKeepsIdentity | app.js:587 | id, name, address, author, author address and stars are copied unchanged |
| Merge.MergeNoDetails | app.js:585-601 | empty details change only the preview, which is normalised |
| Merge.MergeOwnDetails | app.js:585-601 | merging a record's own details only normalises its preview |
| Merge.MergeIdempotent | app.js:585-601 | merging the same details twice is merging once |
| Filters.KeepPassingCount | app.js:441-458 | each record occurs as often as in the catalog if it passes, and otherwise not at all |
| Filters.KeepPassingMembers | app.js:441-458 | a record is kept exactly when it is in the catalog and passes the thresholds and the tag query |
| Filters.KeepPassingAll | app.js:441-458 | with no threshold and no tag everything is kept in order |
| Filters.InsertSorted | app.js:463-468 | inserting into a non-increasing list keeps it non-increasing |
| Filters.SortDescSorted | app.js:463-468 | the sorted view is non-increasing in the key |
| Filters.SortDescPermutation | app.js:463-468 | sorting is a permutation |
| Filters.SortDescStable | app.js:463-468 | records with equal keys keep their relative order, as `Array.prototype.sort` guarantees |
| Filters.SortDescOfSorted | app.js:463-468 | a sorted list is left as it is |
| Filters.ApplyCatalogFilters | app.js:435-473 | definitional; `Filters.ApplyCatalogFiltersMeaning`, `Filters.ApplyCatalogFiltersPass` and `Filters.ApplyCatalogFiltersNone` state its properties |
| Filters.ApplyCatalogFiltersMeaning | app.js:435-473 | the view is a permutation of the passing records; under the numeric sorts it is non-increasing and stable; otherwise it is in catalog order |
| Filters.ApplyCatalogFiltersPass | app.js:441-458 | a record is in the view exactly when it is in the catalog and passes |
| Filters.ApplyCatalogFiltersNone | app.js:435-473 | with no filter and no sort the view is the catalog |
| Fetch.ProxyUrls | app.js:476-480 | there are exactly two proxy addresses |
| Fetch.QueryOfUrl | app.js:478 | the query part is the text after the single `?`, or empty |
| Fetch.FetchViaProxy | app.js:475-496 | the loop returns the first successful proxy response, or the last error |
| Fetch.FirstSuccess | app.js:482-495 | definitional; `Fetch.FirstSuccessOk` and `Fetch.FirstSuccessErr` state its properties |
| Fetch.FirstSuccessOk | app.js:483-493 | a success happens exactly when some proxy succeeds, and it is the response of the first one that does |
| Fetch.FirstSuccessErr | app.js:490-495 | when every proxy fails, the error is the last proxy's; with no proxy it is the fixed message |
| Fetch.DetailCache.FetchModDetails | app.js:568-583 | the method answers and updates the cache as the lookup function says |
| Fetch.FetchDetails | app.js:568-583 | definitional; the `Fetch.FetchDetails…` lemmas below state its properties |
| Fetch.FetchDetailsCached | app.js:569-571 | a cached id is answered from the cache without the network, and the cache is unchanged |
| Fetch.FetchDetailsEntries | app.js:573-582 | a failure caches nothing; a success caches the parsed page of the response |
| Fetch.FetchDetailsGrows | app.js:581 | entries already cached are kept |
| Fetch.FetchDetailsOther | app.js:568-583 | reading one mod leaves the cache entry of another mod, and what reading that other mod returns, as they were |
| Fetch.FetchDetailsMemo | app.js:569-582 | after a success the id is answered from the cache |
| Fetch.FetchDetailsParsed | app.js:580-581 | every cache entry is the parse of some page |
| Session.KeyParts | app.js:333-341 | the key has seven parts |
| Session.ContextKeyInjective | app.js:332-342 | when no part holds `|`, two keys are equal exactly when their parts are |
| Session.CatalogSession.ResetSessionStats | app.js:344-347 | the session ids are cleared and the last loaded page is 0; nothing else changes |
| Session.AddIds | app.js:1058-1060 | the session ids gain the extracted ids |
| Session.NeedingMembers | app.js:950 | a record is pending-eligible exactly when it is in the catalog and lacks a description or subscribers |
| Session.PendingMeaning | app.js:950 | the pending records are the first `limit` records lacking details |
| Session.EnrichAllIds | app.js:971-977 | the queue drain keeps every id in its place |
| Session.EnrichAllUntouched | app.js:974-977 | a record whose id is not queued is not changed |
| Session.EnrichAllCache | app.js:972 | the drain keeps every cached entry |
| Session.EnrichAllParsed | app.js:972 | every cache entry stays a parse of some page |
| Session.EnrichAllWritten | app.js:971-977 | on distinct ids, the record at `k` whose id is queued at `q` becomes the merge of the queued record with the details read for that id, and those details are cached under the id; when the read fails the record stays as it was |
| Session.NeedingDistinct | app.js:950 | the records lacking details keep distinct ids |
| Session.EnrichSpec | app.js:934-994 | definitional; `Session.EnrichSpecMeaning` and `Session.EnrichSpecWritten` state its properties |
| Session.EnrichSpecMeaning | app.js:934-994 | enrichment changes only the records, the view and the loading flag; the ids stay; a refused call changes nothing; the view is the filtered new records |
| Session.EnrichSpecWritten | app.js:950-977 | when enrichment runs on distinct ids, each pending record is replaced where its id stands by its merge with the details read for it, which are cached; a failed read leaves it as it was |
| Session.CatalogSession.Enrich | app.js:934-994 | the method's state and cache are the value-level enrichment's; `done` reaches the number of pending records |
| Session.CatalogSession.Start | app.js:1010-1024 | the page is the target; a new key clears the total, the parse mode, the count and the session; the loading flag is raised |
| Session.CatalogSession.Rollback | app.js:1067-1077 | the saved fields are put back, the flag is lowered, and the view is recomputed |
| Session.CatalogSession.Record | app.js:1029-1033 | the parse mode and count are recorded, and the total only when positive |
| Session.CatalogSession.Take | app.js:1046-1063 | the records are appended or replaced; the ids join the session; the page is remembered; the view is recomputed |
| Session.CatalogSession.Settle | app.js:1063-1065 | the records are taken, then up to eight are enriched, and the load ends |
| Session.CatalogSession.Absorb | app.js:1029-1066 | the rest of the `try` block, as the value-level function says |
| Session.CatalogSession.Load | app.js:996-1079 | the new state and cache are those of the value-level load |
| Session.ExtractionDistinct | app.js:1029 | the extracted ids are distinct |
| Session.LoadSpec | app.js:996-1079 | definitional; `Session.LoadWhileBusy`, `Session.LoadFailure`, `Session.LoadEmptyAppend`, `Session.LoadSuccess` and `Session.AppendKeeps` state its properties |
| Session.LoadWhileBusy | app.js:998-1001 | a load while another runs changes nothing |
| Session.LoadFailure | app.js:1003-1077 | when every proxy fails, the page, records, total, session ids and last loaded page are those saved before the load; the view is recomputed; nothing is cached; the context key stays the new one, and after a change the parse mode and count stay cleared |
| Session.LoadEmptyAppend | app.js:1038-1044 | an append that finds nothing steps the page back, never below 1, and leaves the records and view alone |
| Session.LoadSuccess | app.js:1010-1064 | the page and last loaded page are the target; the total is replaced only by a positive one; the session ids gain every extracted id; the records hold the new page's ids (replace) or the old ids then the new ones (append) |
| Session.AppendKeeps | app.js:1046-1053 | an append keeps every old record in place and adds only new ids; every extracted id ends up in the catalog |
| Scripts.SanitizeListName | app.js:98-100 | definitional; `Scripts.SanitizedChars`, `Scripts.SanitizeClean` and `Scripts.SanitizeIdempotent` state its properties |
| Scripts.SanitizedChars | app.js:98-100 | a sanitized name holds only class characters, so no whitespace and no line break |
| Scripts.SanitizeClean | app.js:98-100 | a non-empty name of class characters is kept as it is |
| Scripts.SanitizeIdempotent | app.js:98-100 | sanitizing a non-empty result again changes nothing |
| Scripts.ShScript | app.js:1302-1314 | definitional; `Scripts.ShScriptLines` states its properties |
| Scripts.ShScriptLines | app.js:1302-1314 | splitting the script at line feeds gives back its lines; line 5 + k downloads the k-th mod |
| Scripts.JoinCrLf | app.js:1299 | joining with CR LF is joining with LF the lines that carry a trailing CR |
| Scripts.BatScript | app.js:1288-1300 | definitional; `Scripts.BatScriptLines` states its properties |
| Scripts.BatScriptLines | app.js:1288-1300 | splitting the script at line feeds gives its lines, each with a trailing CR, and line 5 + k downloads the k-th mod |
| Scripts.TrimmedAllAt | app.js:1404 | entry k of the trimmed list is input entry k, trimmed |
| Scripts.ImportedMods | app.js:1402-1406 | no longer than the input; `Scripts.ImportedModsKept` and `Scripts.ImportedModsComplete` state its properties |
| Scripts.ImportedModsKept | app.js:1402-1406 | every imported entry has a numeric id and is a trimmed input entry |
| Scripts.ImportedModsComplete | app.js:1404-1405 | every input entry whose trimmed id is numeric is imported |

## Left out

- DOM rendering, status texts and the UI side of `setCatalogLoading`: only the `isCatalogLoading` flag is modelled.
- `updateCatalogPageUI`, `renderCatalogMods` and all other rendering are UI only.
- `buildCatalogUrl`: the workshop address is a parameter of `Load`.
- The `expected` progress count of `loadCatalogMods` only feeds a status text.
- `fetch`, `response.text()` and `encodeURIComponent` are left out. The network is an outcome for each address, and the encoder is a parameter. A response whose body cannot be read is not distinguished from one that can.
- `markdownToPlain`, `markdownToHtml` and `isLikelyImageUrl` are parameters (`Detail.Markup`). Their regular-expression chains and the WHATWG URL parser are not part of this model.
- Session.CatalogSession.Enrich: the four concurrent workers of `Promise.all` are drained as one sequential queue. An interleaving of cache writes other than front to back is not modelled.
- Filters.ApplyCatalogFilters: the `'title'` sort uses the locale-dependent `localeCompare(…, 'ru')`. It is modelled as keeping catalog order, so its contract says nothing about title order.
- Strings.Lower: `toLowerCase` is modelled for ASCII and the basic Cyrillic alphabet only. Other scripts are left as they are.
- `Number()` of a select value that is not numeric (NaN in the thresholds or the page) is left out. The thresholds and the requested page are integers.
- `Map` overwrites on duplicate keys are left out. `CatalogSession.Valid` keeps the catalog's ids distinct, so `new Map(catalogMods…)` never overwrites.
- The `!id` guard of `parseRichModsFromMarkdown` (app.js:395) cannot fire, since the pattern's id group is a non-empty digit run. The model has no such branch.
- `importListFromFile` is modelled only through its id filter. JSON parsing, `FileReader`, the default name and the `GAMES` fallback are browser I/O and list plumbing.
- Tokens.DigitsValueOfDecimal: the exact decimal value is what `Number(digits)` gives only below 2^53. Above that `Number` rounds to the nearest double, and the model keeps the exact integer.
- Tokens.ParseNumber, Tokens.ParseNumberOfDecimal, Tokens.ParseNumberAppendDigit: the results are exact integers, so they match `Number` only for values below 2^53.
- Catalog.Snippet: `slice(index, index + 2200)` counts UTF-16 code units, and the model counts characters. When the text holds characters outside the Basic Multilingual Plane, the model's snippet reaches further into the text than the code's.
- Scripts.SanitizeListName: the class without the `u` flag replaces each UTF-16 code unit, so an astral character such as an emoji becomes two `_` in the code and one `_` in the model. For example, `a😀` sanitizes to `a__` in the code and to `a_` in the model.
- Strings are sequences of Unicode characters, not of UTF-16 code units. Positions and lengths agree with the code's only for text within the Basic Multilingual Plane.
- List CRUD, `uniqueId` (clock and randomness), `formatInt`, popups, timers and `localStorage` persistence are left out.
