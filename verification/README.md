# find-my-sht in Dafny

A model of the data logic of *Find my Sh\*t*. This is a Guild Wars 2 overlay plugin. It pulls every item a player owns from the game's account API, merges the items by id, indexes them and serves paged, debounced searches over them, and it can also search the game's wiki.

The model covers the pure logic that sits between the network, the search engine and the drawing code:

- **Item records and their merge.** This is `PlayerItems` (the record type with accumulating `add`), and `ItemLoader` (the older record type with overwriting `add`, plus the ingestion pipeline that fetches, filters, converts, merges and stores).
- **Authenticated requests.** `Requests` covers the URL and header, the unbounded retry on HTTP 429, and the batched metadata lookup in chunks of 200.
- **The local search.** `IndexReader` covers over-fetch paging, publication of a page, and the trading-post price patch.
- **The wiki search.** `WikiSearch` covers query encoding, the request URL, and the sticky `has_more` flag. `WikiItems` covers the wiki hit's snippet clean-up and its link.
- **Tooltip text.** `Markup` covers the `<c=@tag>…</c>` description segmenter, the choice of coin units, and the location icons.
- **The search window.** `SearchBox` covers the 500 ms debounce, the page reset, and the Prev/More buttons.
- **The API-key check.** `ApiKeyLoader` covers verification of the key and the animated dots.
- **Shared helpers.** `Prelude` holds the Rust string and collection operations the code relies on: `str::find`, `str::replace`, `to_lowercase` (ASCII), `to_string`, `join`, and `collect` into a `HashMap`. `Entities` holds the raw API records.

Whatever the code gets from outside becomes a parameter:

- an HTTP reply is an `Option` (`None` for a failed call), or a sequence of replies, one per attempt;
- the search engine is a function from query text to a ranked list of stored payloads;
- a clock reading is a `nat` of milliseconds;
- the order in which character threads finish is a permutation of the character list.

Drawing is modelled as the list of things drawn.

Four details of the code are easy to misread. The model keeps each of them as written:

- **Debounce.** A query leaves only after the text has rested strictly more than 500 ms.
- **Merge.** The ingestion pipeline merges with the overwriting `add` of src/index/item_loader.rs. Two stacks of one item at one location keep the later count. See Findings.
- **Wiki `has_more`.** Any reply with a continuation raises the flag, and no later reply lowers it.
- **Wiki offset.** The URL's `sroffset` is the page number itself.

## Model

| member | source | states |
|---|---|---|
| Prelude.Find | src/ui_utils.rs:59 | `str::find`: the pattern occurs at the returned offset and at no earlier one; no offset exactly when the text does not contain the pattern |
| Prelude.CharIndex | src/ui_utils.rs:67 | `find` of a single character: the first position holding it, or none when no position does |
| Prelude.ReplaceAllAbsent | src/fms_entities/wiki_item.rs:17-18 | `str::replace` leaves a text without the pattern exactly as it was |
| Prelude.ReplaceKeepsPrefix | src/fms_entities/wiki_item.rs:16-18 | a leading text none of whose characters can start the pattern passes through `replace` unchanged, in front of the replaced rest |
| Prelude.ReplaceKeepsSuffix | src/fms_entities/wiki_item.rs:16-18 | a trailing text sharing no character with the pattern passes through `replace` unchanged: no occurrence can reach into it |
| Prelude.ParseNatToString | src/utils.rs:48 | the decimal text of a number reads back as that number |
| Prelude.SplitJoin | src/utils.rs:46-50 | parts free of the separator, joined with it, split back into exactly those parts |
| Prelude.MapSeq | src/index/item_loader.rs:198 | `iter().map(f).collect()`: one output per input, each `f` of the input at the same position |
| Prelude.KeyByLastWins | src/index/item_loader.rs:202-205 | collecting a list into a map keyed by id keeps, for every id, the last element with that id |
| Prelude.KeyBy | src/index/item_loader.rs:202-205 | `collect` into a `HashMap` keyed by id: every element's id is a key, every key maps to an element of the list carrying that id, and the map is empty exactly when the list is |
| Prelude.Lower | src/index/index_reader.rs:47 | `to_lowercase` on ASCII: the text keeps its length, and each character becomes its lower-case letter when it is one of `A`-`Z` and stays as it is otherwise |
| Prelude.LowerIsLower | src/index/index_reader.rs:47 | the lower-cased query holds no upper-case letter, and lower-casing it again changes nothing |
| Prelude.SumOfPermutation | src/index/item_loader.rs:105-115 | a total over per-thread results does not depend on the order in which the threads deliver them |
| PlayerItems.Payload | src/fms_entities/player_item.rs:38-50 | serialisation keeps id, name and locations, and drops the two `serde(skip)` fields |
| PlayerItems.Restore | src/fms_entities/player_item.rs:46-49 | deserialisation leaves the price and the wiki flag at their defaults |
| PlayerItems.PayloadRoundTrip | src/fms_entities/player_item.rs:46-60 | storing and reading back gives the record back, and loses exactly the price and the wiki flag of an item |
| PlayerItems.RecordDoc | src/fms_entities/player_item.rs:53-62 | the index document carries the id and the record; its name is the record's name lower-cased, and its description the record's description lower-cased, empty text when there is none |
| PlayerItems.Doc | src/fms_entities/player_item.rs:53-62 | the document's payload, read back, is the item without price and wiki flag |
| PlayerItems.SpecificsOf | src/fms_entities/player_item.rs:74-79 | the entry keeps the slot's count, and its charges, upgrades and infusions where the slot has them; missing charges count as 0 and missing modifier lists as empty |
| PlayerItems.From | src/fms_entities/player_item.rs:64-84 | the item sits at exactly the given location; the id comes from the slot, the descriptive fields from the metadata; no price and no wiki flag yet |
| PlayerItems.SetTp | src/fms_entities/player_item.rs:86-88 | the price is replaced and nothing that is stored changes |
| PlayerItems.Combine | src/fms_entities/player_item.rs:92-96 | two stacks at one location: counts and charges add up, and each modifier list is the receiver's followed by the argument's, duplicates kept |
| PlayerItems.Accumulate | src/fms_entities/player_item.rs:90-101 | the merged item's locations are the union of both items' locations |
| PlayerItems.Add | src/fms_entities/player_item.rs:90-101 | the loop over the argument's locations combines shared locations, keeps the receiver's own ones, inserts the argument's new ones verbatim, and changes no other field |
| PlayerItems.AddIsAccumulate | src/fms_entities/player_item.rs:90-101 | whatever order the loop visits the locations in, it computes the per-location merge |
| PlayerItems.AccumulateDisjoint | src/fms_entities/player_item.rs:97-98 | merging an item whose locations are all new is a disjoint union |
| PlayerItems.AccumulateTwiceDoubles | src/fms_entities/player_item.rs:92-96 | the merge is not idempotent: merging the same stack twice doubles its count and repeats its upgrades |
| PlayerItems.AccumulateBankExample | src/fms_entities/player_item.rs:92-93 | five and three of an item in the bank merge to eight |
| PlayerItems.WikiUrl | src/fms_entities/player_item.rs:105-108 | the link is the wiki base followed by the name, character by character, with every space turned into `_` |
| PlayerItems.ReplaceCharSpec | src/fms_entities/player_item.rs:107 | replacing one character by another keeps the length and changes exactly the positions holding that character |
| PlayerItems.RenderWiki | src/fms_entities/player_item.rs:103-120 | a probe starts exactly when the flag is unset, and the flag is then set to `false` at once; the link shows exactly when the flag is `true` |
| PlayerItems.ProbeDone | src/fms_entities/player_item.rs:113-116 | a reachable page marks the item wikiable; a failed probe leaves the flag as it was |
| PlayerItems.AtMostOneProbe | src/fms_entities/player_item.rs:103-120 | over any number of frames an item is probed at most once, and never once its flag is set |
| PlayerItems.Take | src/ui_utils.rs:20-27 | taking a location out removes exactly that key, and yields its count exactly when it was present |
| PlayerItems.SplitLocations | src/fms_entities/player_item.rs:186-220 | after bank, material storage and shared inventory are taken out, exactly the character entries are left, unchanged; each of the three yields its stored count exactly when present |
| ItemLoader.FromSlot | src/index/item_loader.rs:57-78 | the older `from`: one location, id from the slot, descriptive fields from the metadata |
| ItemLoader.FromVersionsAgree | src/index/item_loader.rs:57-78 | both versions of `from` build the same stored record |
| ItemLoader.Overwrite | src/index/item_loader.rs:80-84 | the overwriting merge keeps the union of the locations |
| ItemLoader.AddOverwriting | src/index/item_loader.rs:80-84 | every location of the argument takes the argument's entry verbatim; the receiver's other locations and all other fields are unchanged |
| ItemLoader.AddOverwritingIsOverwrite | src/index/item_loader.rs:80-84 | the loop computes the map union in which the argument wins |
| ItemLoader.Occupied | src/index/item_loader.rs:190 | flattening drops exactly the empty slots: every occupied slot and nothing else is kept |
| ItemLoader.OccupiedAppend | src/index/item_loader.rs:190 | flattening keeps the order of the slots: two runs of slots flatten to the first run's items followed by the second's |
| ItemLoader.OccupiedCounts | src/index/item_loader.rs:190 | every item is kept as many times as slots hold it |
| ItemLoader.CharacterSlots | src/index/item_loader.rs:160-165 | every occupied slot of every bag is kept, and every kept slot comes from some bag |
| ItemLoader.CharacterSlotsPerBag | src/index/item_loader.rs:160-165 | the slots come bag by bag, in bag order: the first bag's occupied slots, then those of the other bags |
| ItemLoader.BagSlotsContents | src/index/item_loader.rs:160-163 | the slots of the concatenated bags are exactly the slots of some bag |
| ItemLoader.MetaMap | src/index/item_loader.rs:202-205 | every metadata id has an entry, and every entry is metadata of its own id |
| ItemLoader.ConvertWith | src/index/item_loader.rs:207-221 | at most one record per slot; every record's id has metadata, its name and rarity come from it, and it sits at the given location; all slots are kept exactly when all have metadata |
| ItemLoader.ResolvedContents | src/index/item_loader.rs:207-221 | the filter `convert` applies keeps every slot that has metadata and no other, and keeps all slots exactly when all have metadata |
| ItemLoader.ConvertWithResolved | src/index/item_loader.rs:207-221 | the k-th record is built, by `from`, from the k-th slot that has metadata and that slot's metadata |
| ItemLoader.ConvertWithIds | src/index/item_loader.rs:207-221 | the records' ids are the ids of the slots that have metadata, in slot order |
| ItemLoader.Convert | src/index/item_loader.rs:197-222 | the records are built, in slot order, from exactly the slots whose id the chunked lookup of those slots' ids returned |
| ItemLoader.FetchFromCharacter | src/index/item_loader.rs:154-170 | a failed inventory request gives nothing; otherwise the records are built, in order, from the occupied slots of all bags that have metadata, each at that character |
| ItemLoader.FetchFrom | src/index/item_loader.rs:186-195 | a failed request gives nothing; otherwise the records are built, in order, from the occupied slots that have metadata, each at the given location |
| ItemLoader.Stocked | src/index/item_loader.rs:178 | exactly the materials with a count above zero are kept |
| ItemLoader.StockedAppend | src/index/item_loader.rs:178 | the filter keeps the order of the entries: two runs of entries yield the first run's stock followed by the second's |
| ItemLoader.StockedCounts | src/index/item_loader.rs:178 | an entry in stock is kept as many times as it occurs; an entry with count zero is never kept |
| ItemLoader.FetchMaterials | src/index/item_loader.rs:173-183 | a failed request gives nothing; otherwise the records are built, in order, from the entries in stock that have metadata, each in material storage with a positive count |
| ItemLoader.ConvertStocked | src/index/item_loader.rs:178-180 | converting positive-count slots yields positive counts only |
| ItemLoader.MergeOne | src/index/item_loader.rs:131-137 | one merge step adds the item's id to the keys and leaves every other id's record alone |
| ItemLoader.MergeKeys | src/index/item_loader.rs:126-138 | the merged map has an entry exactly for every id that occurs in the lists |
| ItemLoader.MergeKeepsFirstBase | src/index/item_loader.rs:132-136 | the first record seen for an id supplies its name, description, icon, type and rarity; later records contribute only locations |
| ItemLoader.OverwriteMergeTakesLast | src/index/item_loader.rs:130-137 | with the overwriting `add`, an id's entry at a location is the one from the last record that has that location |
| ItemLoader.AccumulateMergeSums | src/index/item_loader.rs:130-137 | with the accumulating `add`, an id's count at a location is the sum over all its records there |
| ItemLoader.OverwriteDropsStack | src/index/item_loader.rs:80-84 | five then three of an item in the bank merge to three with this file's `add`, and to eight with the accumulating one |
| ItemLoader.CharacterLists | src/index/item_loader.rs:105-115 | one list per character, in the order the threads finish, each the records fetched for that character |
| ItemLoader.CollectLists | src/index/item_loader.rs:103-124 | the character lists come first, each the records fetched for that character, then the shared inventory's, the bank's and material storage's records |
| ItemLoader.LocationLists | src/index/item_loader.rs:117-124 | the three account-wide lists, each at its own location |
| ItemLoader.Store | src/index/item_loader.rs:225-231 | storing always succeeds, and indexes exactly one document per record |
| ItemLoader.StoreRecords | src/index/item_loader.rs:141 | storing the merged map's records indexes exactly one document per merged item |
| ItemLoader.Refresh | src/index/item_loader.rs:94-151 | the refresh always stamps the update time; the merged map has exactly the ids fetched, each entry under its own id; the index holds exactly the documents of the merged records |
| ItemLoader.MergeIdsMatch | src/index/item_loader.rs:132-136 | every merged entry is filed under its own id |
| ItemLoader.RefreshTotal | src/index/item_loader.rs:126-138 | the total at a location is the characters' share plus the account-wide lists' share |
| ItemLoader.ArrivalOrderIrrelevant | src/index/item_loader.rs:104-115 | with the accumulating `add`, the merged counts do not depend on the order in which the character threads finish |
| ItemLoader.CharacterListsLast | src/index/item_loader.rs:105-115 | over the character lists, a character's location is filled by that character's own list only, whatever the finishing order; no other location is filled |
| ItemLoader.RefreshLast | src/index/item_loader.rs:126-138 | with the overwriting `add`, the entry kept at a location is the last one from the account-wide lists, or else, at a character, the last one from that character's list |
| ItemLoader.ArrivalOrderIrrelevantOverwriting | src/index/item_loader.rs:104-138 | with the overwriting `add` as well, the merged entries do not depend on the order in which the character threads finish |
| Requests.MakeRequest | src/utils.rs:12-17 | the URL is the API base followed by the endpoint, and the header is `Bearer ` followed by the key |
| Requests.Perform | src/utils.rs:19-35 | the call keeps retrying exactly as long as every reply is 429; an error outcome is never a body and never a 429 |
| Requests.Attempts | src/utils.rs:24-28 | no more attempts are made than replies arrive |
| Requests.RetryUnbounded | src/utils.rs:25-28 | after any number of 429 replies the first other reply is still reached and decides the outcome, after exactly one more attempt |
| Requests.ErrorsAreNotRetried | src/utils.rs:29-33 | any other status or failure on the first attempt ends the call after one attempt with that error |
| Requests.Chunks | src/utils.rs:44 | chunks are non-empty and hold at most 200 ids, all but the last exactly 200, and there are as many as 200 divides the ids into, rounding up |
| Requests.ChunksConcat | src/utils.rs:44 | the chunks, concatenated, are the ids, in order |
| Requests.ItemsEndpoint | src/utils.rs:52 | every chunk's endpoint starts with `items?lang=en&ids=` |
| Requests.IdListParses | src/utils.rs:46-50 | the comma-joined id list splits back into decimal numbers equal to the ids, one per id |
| Requests.ItemsEndpointIds | src/utils.rs:45-52 | a chunk's endpoint asks for exactly the chunk's ids, in order |
| Requests.FetchChunks | src/utils.rs:54-58 | when every chunk's call fails, the lookup yields nothing |
| Requests.Endpoints | src/utils.rs:44-52 | one endpoint per chunk, in chunk order; none for no ids |
| Requests.Replies | src/utils.rs:54-56 | each call contributes the items it returns, or nothing when it failed |
| Requests.FetchItemsCallsEndpoints | src/utils.rs:43-58 | the items fetched are exactly the concatenation, in call order, of what the calls to the chunk endpoints return |
| Requests.FetchChunksAppend | src/utils.rs:56-58 | results are concatenated in chunk order |
| Requests.FetchOneChunk | src/utils.rs:54-57 | a chunk contributes its reply's items, or nothing when its call failed |
| IndexReader.Window | src/index/index_reader.rs:105-108 | the engine returns up to `count` hits from offset `start`, fewer when the ranking runs out, each the hit at that rank |
| IndexReader.Payloads | src/index/index_reader.rs:111-116 | hits without a payload are skipped; with a payload everywhere, every hit gives its item, in rank order |
| IndexReader.SearchFor | src/index/index_reader.rs:104-119 | a page holds at most `limit` items and is full when `has_more` is raised; every item comes from a hit and carries no price |
| IndexReader.SearchFrom | src/index/index_reader.rs:105-119 | the same page bounds at any offset |
| IndexReader.SearchFromSlice | src/index/index_reader.rs:105-119 | with payloads everywhere, the page at offset `start` is the ranking's slice there, and `has_more` is raised exactly when the ranking reaches past it |
| IndexReader.SearchForPages | src/index/index_reader.rs:104-119 | page `page` has `min(limit, max(0, M - limit*page))` items from offset `limit*page`, and `has_more` holds exactly when `M > limit*page + limit` |
| IndexReader.FifteenHits | src/index/index_reader.rs:104-119 | fifteen matches with pages of ten: a full first page with more to come, then five and no more |
| IndexReader.NextPageFollows | src/index/index_reader.rs:104-119 | when a page reports more, the next page starts with the hit ranked right after the page's last item |
| IndexReader.PagesAreConsecutive | src/index/index_reader.rs:107 | the page after page `page` is the page at `limit*page + limit` |
| IndexReader.Search | src/index/index_reader.rs:46-51 | after a search nothing is loading; a failed query leaves result and flag alone; a page that comes back is published with its `has_more` flag, bounded by `limit`, and carries no price |
| IndexReader.SearchPublishes | src/index/index_reader.rs:46-51 | when the engine answers and every hit carries a payload, the published page is the slice of the ranking at `limit*page`, and `has_more` holds exactly when the ranking goes past it |
| IndexReader.SearchIgnoresCase | src/index/index_reader.rs:47 | texts that differ only in letter case publish the same state |
| IndexReader.PricesEndpoint | src/index/index_reader.rs:53-61 | the prices request starts with `commerce/prices?ids=` |
| IndexReader.PricesEndpointIds | src/index/index_reader.rs:53-61 | the prices request asks for exactly the page's ids, in page order |
| IndexReader.Patch | src/index/index_reader.rs:71-76 | every result gets the price with its id, or none; length, order and stored fields are unchanged |
| IndexReader.PatchPrices | src/index/index_reader.rs:61-77 | a failed request or an empty price list changes nothing; otherwise a result is priced exactly when the reply has its id, with the last price the reply lists for that id, and nothing stored changes |
| IndexReader.PatchPricesIdempotent | src/index/index_reader.rs:71-76 | patching twice with the same reply is patching once |
| IndexReader.PatchKeepsPayloads | src/index/index_reader.rs:71-76 | the patch only decorates: the stored part of every result is unchanged |
| IndexReader.SearchThenPatch | src/index/index_reader.rs:49-83 | when the engine answers, the page shown is the searched page with the price patch applied, under the search's `has_more`; a failed query leaves the patch out |
| IndexReader.SearchThenPatchPage | src/index/index_reader.rs:49-77 | when every hit carries a payload, the k-th result shown stores the hit at rank `limit*page + k`, and carries the last price the reply lists for its id, or none when the reply lists none |
| WikiItems.CleanSnippetFrame | src/fms_entities/wiki_item.rs:15-19 | the `...` before and after the snippet survive whatever it holds; only its inside is cleaned |
| WikiItems.CleanSnippetPlain | src/fms_entities/wiki_item.rs:15-19 | a snippet with neither highlight marker is shown verbatim between the ellipses |
| WikiItems.CuridUrl | src/fms_entities/wiki_item.rs:48-51 | the link is the `curid=` prefix followed by decimal digits only |
| WikiItems.CuridUrlPage | src/fms_entities/wiki_item.rs:48-51 | the link's digits read back as the item's page id |
| WikiSearch.EncodeSpacesRoundTrip | src/index/wiki_search.rs:48 | the encoded query has no space left, and decoding `%20` gives a text without `%` back |
| WikiSearch.SearchUrl | src/index/wiki_search.rs:49 | the request URL starts with the wiki search prefix |
| WikiSearch.SearchUrlFields | src/index/wiki_search.rs:47-49 | the URL reads back as the encoded query, `srlimit=` the page size, and `sroffset=` the raw page number |
| WikiSearch.SearchUrlIgnoresCase | src/index/wiki_search.rs:81 | texts that differ only in letter case send the same request |
| WikiSearch.Begin | src/index/wiki_search.rs:80 | `loading` is raised and nothing else changes |
| WikiSearch.Finish | src/index/wiki_search.rs:52-56 | loading is over; `has_more` is raised by a continuation and otherwise kept; a failed request publishes an empty list, a reply its hits |
| WikiSearch.Search | src/index/wiki_search.rs:69-85 | a search publishes the reply to its own URL, with the same flag rules |
| WikiSearch.HasMoreIsSticky | src/index/wiki_search.rs:52-54 | over any run of searches, `has_more` ends raised exactly when it started raised or some reply had a continuation |
| Markup.ColorOf | src/ui_utils.rs:77-83 | `flavor`, `reminder` and `warning` each select their own colour; any other tag selects the default |
| Markup.Render | src/ui_utils.rs:56-95 | the segmenter never draws an empty plain segment and never draws more text than it was given; `render_colored_text` (src/index/find_my_sht.rs:253-292) is the same loop |
| Markup.Before | src/ui_utils.rs:61-63 | the text before an opener is drawn plain, and only when it is not empty |
| Markup.AfterOpen | src/ui_utils.rs:67-69 | the segments after an opener are never empty plain text and never longer than the rest |
| Markup.TagBody | src/ui_utils.rs:72-87 | the segments after a tag name are never empty plain text and never longer than the rest |
| Markup.RenderNoOpener | src/ui_utils.rs:89-92 | text without an opener is drawn as one plain segment, and the loop ends |
| Markup.RenderHangsNeedsOpener | src/ui_utils.rs:58-67 | only an opener can make the loop spin |
| Markup.RenderStep | src/ui_utils.rs:59-64 | one turn of the loop: the text before the first opener, then whatever follows the opener |
| Markup.RenderOpener | src/ui_utils.rs:59-64 | before an opener, text holding no opener of its own is drawn plain unless it is empty |
| Markup.AfterOpenTag | src/ui_utils.rs:67-69 | the tag name runs to the first `>` after the opener |
| Markup.TagBodyClosed | src/ui_utils.rs:72-86 | the coloured text runs to the first `</c>`, and scanning resumes after it |
| Markup.TagBodyUnclosed | src/ui_utils.rs:67-72 | a tag with no `</c>` after it is dropped, and scanning resumes after its `>` |
| Markup.RenderTagged | src/ui_utils.rs:59-87 | one full turn over `t<c=@tag>u</c>rest` draws `t` plain if not empty, then `u` in the tag's colour, then whatever `rest` draws |
| Markup.RenderUnclosed | src/ui_utils.rs:67-72 | an opener whose `>` has no `</c>` after it draws only the text before it, and scanning goes on after the `>` |
| Markup.RenderHangs | src/ui_utils.rs:58-67 | an opener with no `>` after it draws the text before it, then the loop spins without drawing more |
| Markup.RenderPrint | src/ui_utils.rs:56-95 | well-formed markup is drawn as exactly its pieces, plain and coloured, and the loop ends |
| Markup.BuildTp | src/ui_utils.rs:30-42 | gold is drawn exactly when non-zero and then with the gold amount, silver likewise, copper always and last with the copper amount, in the order gold, silver, copper; the window's own `build_tp` (src/index/find_my_sht.rs:210-222) is the same |
| Markup.BuildTpValue | src/ui_utils.rs:34-40 | leaving out zero units loses no value: the coins drawn are worth the price |
| Markup.RenderLocationRemoves | src/index/find_my_sht.rs:236-251 | the location's entry is taken out and every other entry is kept as it was; a count is shown exactly when the entry was there |
| SearchBox.Init | src/index/find_my_sht.rs:28-37 | a new box is on page 0 with nothing left to send |
| SearchBox.Elapsed | src/index/find_my_sht.rs:81 | the time since the last edit, never negative |
| SearchBox.Edit | src/index/find_my_sht.rs:65-67 | an edit changes the text, restarts the debounce timer, and leaves the page and the last text sent alone |
| SearchBox.Frame | src/index/find_my_sht.rs:80-86 | a query leaves exactly when the text differs from the last one sent and has rested more than 500 ms; it asks for page 0 and the text becomes the last one sent |
| SearchBox.Prev | src/index/find_my_sht.rs:184-192 | Prev works only over a non-empty page past page 0; it steps back one page and asks for it with the current text |
| SearchBox.More | src/index/find_my_sht.rs:194-201 | More works only over a non-empty page when more exists; it steps forward one page and asks for it with the current text |
| SearchBox.MoreThenPrev | src/index/find_my_sht.rs:184-201 | going forward a page and back restores the box and asks for the original page again |
| SearchBox.FramesSendOnce | src/index/find_my_sht.rs:80-86 | without edits, any run of frames sends at most one query, for page 0; one leaves exactly when the text was unsent and some frame came after the delay |
| SearchBox.FramesSendNothing | src/index/find_my_sht.rs:83-85 | once a text is sent, later frames send nothing until it is edited |
| SearchBox.TypingIsDebounced | src/index/find_my_sht.rs:65-86 | a frame within 500 ms of the last edit sends nothing |
| SearchBox.FramesWithinDelay | src/index/find_my_sht.rs:80-86 | frames that all come within 500 ms of the last edit send nothing and leave the box as it was |
| SearchBox.BurstSendsOnce | src/index/find_my_sht.rs:65-86 | a burst of edits each within 500 ms of the one before, with frames in between, sends at most one query: the last text, for page 0, and only if that text was not the last sent and some frame after the last edit came later than 500 ms |
| SearchBox.CharacterTooltips | src/index/find_my_sht.rs:139-179 | after the three account-wide locations are taken out, only character entries are left, unchanged |
| ApiKeyLoader.VerifyApiKey | src/settings/api_key_loader.rs:36-65 | a check under way ignores the request; otherwise the key is accepted, as given, exactly when the reply grants inventories and account; a failed request reads `Invalid Api Key!`, and a missing permission reads `Invalid permissions!` |
| ApiKeyLoader.VerifyIgnoresHistory | src/settings/api_key_loader.rs:49-61 | the verdict depends neither on the previous verdict nor on the order of the permissions |
| ApiKeyLoader.VerifyMonotone | src/settings/api_key_loader.rs:54 | more permissions never turn an accepted key down |
| ApiKeyLoader.NewDots | src/settings/api_key_loader.rs:23-30 | the animation starts with no dots |
| ApiKeyLoader.Update | src/settings/api_key_loader.rs:67-72 | after at least 500 ms the state moves on by one, modulo four, and the timer restarts; earlier nothing changes; the state stays in range |
| ApiKeyLoader.CurrDots | src/settings/api_key_loader.rs:74-76 | as many dots as the state says, and only dots |
| ApiKeyLoader.Run | src/settings/api_key_loader.rs:67-72 | any run of updates keeps the state in range |
| ApiKeyLoader.RunCycles | src/settings/api_key_loader.rs:67-72 | the state after a run of updates is the starting state plus the number of updates that moved it, reduced modulo four |
| ApiKeyLoader.FourStepsCycle | src/settings/api_key_loader.rs:67-72 | four moves a step apart bring back the same dots |

## Left out

- HTTP and JSON decoding: every reply is a parameter, already decoded, and `None` for any failure. Body decoding errors and transport errors are not told apart beyond `Requests.Reply`.
- Pauses: the 500 ms pause before a retry and the 500 ms pause in the key check are not modelled.
- Threads and locks: every operation is modelled sequentially.
  - The per-character thread fan-out and join is modelled as an arbitrary finishing order.
  - The busy-wait on `loading` is not modelled.
  - The race between the background price patch and a later search is not modelled. The model patches the page the search itself published (`IndexReader.SearchThenPatch`).
- ApiKeyLoader.VerifyApiKey: the background thread first sets `Loading` and later sets the verdict. The model gives only the final state.
- The search engine: the schema, tokenizer, ranking, field boost and conjunction are not modelled. The engine is a function from lower-cased query to ranked hits. Anything from the engine that fails is `None`. src/tantivy.rs is not part of this model.
- Payload encoding: the MessagePack encode and decode are modelled as `PlayerItems.Payload` and `PlayerItems.Restore`, a round trip that is exact by construction.
- Lower-casing: only `A`–`Z` are lower-cased. Rust's `to_lowercase` is Unicode-wide.
- Strings are sequences of characters, and the model cuts them at character offsets where the source cuts at byte offsets. The offsets differ once a non-ASCII character precedes a marker. Because every marker searched for is ASCII, the substrings cut at the two kinds of offset are the same.
- The record type at the search side: src/index/index_reader.rs:13 imports the `PlayerItem` of src/index/item_loader.rs, which has no price field and no `set_tp`. The model publishes and patches the record of src/fms_entities/player_item.rs instead, which has both; the price patch needs them.
- Integer width: `usize` overflow in `add`'s `+=` and in `limit * page` is not modelled, because counts are unbounded naturals.
- Drawing: positions, sizes, icons, textures, tooltips' layout and colours are not modelled.
  - A colour is an enum.
  - Drawing is the list of segments or coin units drawn.
  - Icon loading after a search is not modelled.
- Wiki links: the reachability probe's request and opening a browser are not modelled. Only the flag's states are.
- Getters: `is_loading`, `has_more` and `last_result` of both searchers return the state unchanged. The model exposes that state as datatype fields instead.
- The definition of the trading-post price record (`Gw2Tp`) is not part of this model. A price is modelled as an id with buy and sell prices already split into coin units, so the splitting (`units()`) is not modelled.
- Wiki snippets: no lemma states which text the clean-up removes from a snippet that does hold highlight markers. Only the frame and the marker-free case are proved.
- Settings: the item load limit is a parameter. The last-update stamp is a `nat`. src/settings/settings.rs is not part of this model.
- src/lib.rs is not part of this model: plugin load and unload, key bindings and icon registration.
- The item window's row layout (widths and the `max_width` cursor) is not modelled.

## Findings

| source | as written | input that shows it | evidently intended | confidence | as-written member | corrected member |
|---|---|---|---|---|---|---|
| src/index/item_loader.rs:80-84 | the merge loop (lines 130-137) merges with an `add` that overwrites each location of the argument | two records of one item in the bank, count 5 then count 3, merge to a bank count of 3 | the counts add up to 8, as the newer `add` of src/fms_entities/player_item.rs:90-101 does | not executed | ItemLoader.OverwriteDropsStack | ItemLoader.AccumulateMergeSums |
