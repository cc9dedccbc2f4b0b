# moar-news ingestion core in Dafny

moar-news is a small RSS/Atom aggregator. This project models how it takes feeds in and
proves properties of that model. The modelled part has two sides.

**The store** (`src/db.rs`) has a `feeds` table and an `items` table in SQLite:
- `sync_feeds` inserts or updates the configured feeds, keyed by URL.
- The web pages read through `get_all_feeds`, `get_feed`, `get_items_for_feed` and
  `get_item_count_for_feed`. `get_items_for_feed` pages through items newest first.
- `upsert_item` stores an entry under its (feed, guid) key.
- `update_feed_fetched` records when a feed was last fetched and its last error.

Each table is a sequence of rows in rowid order. It is a field of the `Store.Database`
class, and every statement is a method or function over those fields.

**The fetcher** (`src/fetcher.rs`):
- `refresh_all_feeds` claims a "refreshing" flag, so at most one refresh cycle runs.
- `do_refresh_all` refreshes every stored feed in id order and records each attempt.
- `refresh_feed` turns the parsed entries of one download into upserts.
- Two raw-text scanners work on the downloaded XML:
  - `extract_xml_element` cuts the trimmed text of the first `<tag>…</tag>`;
  - `extract_comments_from_xml` pairs each RSS `<item>`'s `<link>` with its `<comments>`.
- `extract_discussion_link` decides an entry's discussion URL. It applies, in order:
  - the Hacker News and Lobsters site rules;
  - the XML `<comments>` URL;
  - a link whose `rel` is "replies" or "comments".

How the modules are split:
- Pure logic is written as datatypes, functions and lemmas: `Text`, `Utf8`, `FeedTable`,
  `ItemTable`, `Entries`, `Discussion` and `XmlScan`.
- The parts of the source that update state are classes with loops:
  - `Store.Database`;
  - `Refresh.Fetcher`;
  - the loop of `XmlScan.CollectComments`.
- Each method is proved against a specification function:
  - `FeedTable.SyncedAll`, `FeedTable.Stamped` and `ItemTable.Upserted` for the store;
  - `Refresh.Refreshed` and `Refresh.Cycle` for the fetcher;
  - `XmlScan.CommentsMap` for the comments scan.

  The lemmas state what the source promises about those functions.

Modelling choices:
- SQLite behaviour is written out:
  - a new rowid is one more than the largest, and 1 in an empty table;
  - `ON CONFLICT … DO UPDATE` replaces only the listed columns;
  - `COALESCE` keeps a stored homepage when none is given;
  - a negative `LIMIT` means no limit, and a negative `OFFSET` counts as 0;
  - `published DESC NULLS LAST, id DESC` is the order of the listing;
  - TEXT compares by code point.
- The connection pool is opened with sqlx's default options, which turn foreign keys on. So
  an upsert for a feed id that is not in `feeds` fails. This is the one storage error
  modelled.
- `str::trim` uses Rust's `char::is_whitespace`, which is modelled code point by code point.
- `std::str::from_utf8` is a UTF-8 decoder, proved to round-trip with an encoder.

The source disagrees with itself in one place. `update_feed_fetched` takes three arguments:
an id, an error and a homepage (`src/db.rs:192-197`). `do_refresh_all` calls it with two
(`src/fetcher.rs:69`, `src/fetcher.rs:72`). The model follows the three-argument store
function, and the refresh cycle passes no homepage. Because of the `COALESCE`, a refresh
therefore never changes a feed's stored homepage.

## Model

| member | source | states |
|---|---|---|
| Store.Database.constructor | src/db.rs:42-91 | A freshly initialised database has both tables empty and satisfies the table invariant (ids increasing, URLs unique, (feed, guid) unique, every item's feed exists). |
| Store.Database.SyncFeeds | src/db.rs:93-111 | The loop applies the configuration entries in order, leaving the feeds table equal to `SyncedAll` of the old one, keeps the invariant and leaves the items untouched. |
| Store.SyncKeepsReferences | src/db.rs:93-111 | One configuration entry keeps the feeds invariant and every feed that an item refers to. |
| FeedTable.Synced | src/db.rs:95-108 | One configuration entry adds no row when its URL is already stored and exactly one row when it is new. |
| FeedTable.SyncedKeeps | src/db.rs:93-111 | One insert-or-update keeps ids increasing and URLs unique, adds at most one row, keeps every existing row's id, URL and fetch status, and leaves the configured URL holding the configured name and discussion flag. |
| FeedTable.SyncedOtherUrl | src/db.rs:93-111 | An entry for another URL leaves a feed's row and its position untouched. |
| FeedTable.SyncedAllKeeps | src/db.rs:93-111 | A whole sync keeps the invariant, removes no feed, keeps the id, URL and fetch status of every existing feed, and every added feed is a configured URL that has never been fetched. |
| FeedTable.SyncedAllOtherUrl | src/db.rs:95-108 | A feed whose URL no configuration entry names keeps its whole row (name and discussion flag included) at its place. |
| FeedTable.SyncedAllReflects | src/db.rs:300-336 | After a sync every configured URL has a row carrying the name and discussion flag of the last entry naming it (an existing feed is updated, not duplicated). |
| FeedTable.SyncedAllKeepsId | src/db.rs:93-111 | A feed id that exists before a sync still exists after it, so stored items never lose their feed. |
| FeedTable.NextId | src/db.rs:45-46 | The rowid of the next inserted feed is positive and larger than every existing id. |
| Store.Database.GetAllFeeds | src/db.rs:113-118 | The result holds exactly the stored feeds, in strictly ascending id order. |
| Store.Database.GetFeed | src/db.rs:120-126 | Some feed with that id when one is stored, None exactly when no stored feed has the id. |
| Store.Database.GetItemCountForFeed | src/db.rs:150-156 | The count is the number of table rows whose feed id is the given one, so at most the table size, and zero exactly when no item belongs to the feed. |
| Store.Database.GetItemsForFeed | src/db.rs:128-148 | The page is the run of the feed's full listing that starts at max(0, offset); its rows are stored items of that feed in listing order; its length is min(limit, count) for a negative offset, min(limit, count - offset) (at least 0) otherwise, and everything from max(0, offset) on for a negative limit. |
| Store.ConsecutivePages | src/db.rs:128-148 | Page `offset` followed by page `offset + limit` equals the page of twice the size at `offset`: paging visits the listing without gaps or overlaps. |
| Store.ListingIsTheSortedOrder | src/db.rs:136-139 | Asking for all items returns the one and only arrangement of the feed's items sorted by published descending, undated last, then id descending. |
| ItemTable.ItemsOfFeed | src/db.rs:137 | Every selected row is a table row of that feed, every row of that feed is selected, and the selection is no longer than the table. |
| ItemTable.ItemsOfFeedExact | src/db.rs:137 | The selection holds each row of the feed exactly as often as the table does, and no other row. |
| ItemTable.ItemsOfFeedCount | src/db.rs:150-156 | The selection has exactly as many rows as the table has positions holding a row of that feed. |
| ItemTable.ItemsOfFeedInOrder | src/db.rs:137 | The selection keeps table order: ids that increase in the table increase in the selection. |
| ItemTable.TextLessTransitive | src/db.rs:138 | The text order used for `published` is transitive. |
| ItemTable.TextLessAsymmetric | src/db.rs:138 | The text order is asymmetric. |
| ItemTable.TextLessIrreflexive | src/db.rs:138 | No text precedes itself. |
| ItemTable.TextLessTotal | src/db.rs:138 | Any two different texts are ordered one way or the other. |
| ItemTable.ListedBeforeAsymmetric | src/db.rs:138 | The listing order never puts two rows each before the other. |
| ItemTable.ListedBeforeTransitive | src/db.rs:138 | The listing order is transitive. |
| ItemTable.ListedBeforeTotal | src/db.rs:138 | Rows with different ids are always ordered, so the listing is total. |
| ItemTable.NullsLast | src/db.rs:138 | In a sorted listing every dated row precedes every undated row. |
| ItemTable.Insert | src/db.rs:138 | Inserting into the listing adds exactly that row to the multiset of rows. |
| ItemTable.Listing | src/db.rs:138 | The listing is a permutation of the selected rows. |
| ItemTable.InsertSorted | src/db.rs:138 | Inserting a row with a fresh id into a sorted listing keeps it sorted. |
| ItemTable.ListingSorted | src/db.rs:138 | Rows with distinct ids come out of the listing sorted. |
| ItemTable.SortedUnique | src/db.rs:138 | Two sorted arrangements of the same rows are equal: the order leaves no freedom. |
| ItemTable.Page | src/db.rs:139 | The page is the run of the listing starting at max(0, offset); its length is min(limit, size) for a negative offset, min(limit, size - offset) (at least 0) for a non-negative one, and all the rest for a negative limit. |
| ItemTable.FeedPage | src/db.rs:136-139 | A page of a feed's listing is sorted, holds only stored rows of that feed, and is cut from a listing exactly as long as the feed's selection. |
| ItemTable.PagesAdjacent | src/db.rs:139 | Two consecutive pages of one listing concatenate to the double-size page. |
| ItemTable.FindRow | src/db.rs:173 | The conflict target: the first row with key (feed, guid), or None exactly when no row has it. |
| Store.Database.UpsertItem | src/db.rs:158-190 | Fails with a foreign-key violation, changing nothing, exactly when the feed does not exist; otherwise the items become `Upserted(old, fields)`; the invariant is kept and the feeds are untouched. |
| ItemTable.UpsertWellFormed | src/db.rs:169-178 | The upsert keeps ids increasing and (feed, guid) unique. |
| ItemTable.UpsertedRow | src/db.rs:169-178 | Afterwards exactly one row has the key and it holds the values just written. |
| ItemTable.UpsertExistingKeepsId | src/db.rs:424-487 | Re-upserting an existing key keeps its row's position and id, overwrites its four columns and leaves every other row unchanged. |
| ItemTable.UpsertNewKeyAppends | src/db.rs:169-178 | A new key appends one row whose id exceeds every existing id, leaving the old rows in place. |
| ItemTable.UpsertIdempotent | src/db.rs:169-178 | Upserting the same values twice gives the same table as once. |
| ItemTable.UpsertKeepsOtherRow | src/db.rs:169-178 | A row with another key stays where it was, as it was, and is still found by its key. |
| ItemTable.UpsertCounts | src/db.rs:169-178 | An upsert grows the upserted feed's item count by one exactly when the key was new (otherwise the count is unchanged), and leaves every other feed's items identical. |
| ItemTable.SameGuidTwoFeeds | src/db.rs:489-516 | The same guid under two feeds gives two distinct rows, each found under its own feed. |
| ItemTable.NextId | src/db.rs:67 | The rowid of the next inserted item is positive and larger than every existing id. |
| Store.Database.UpdateFeedFetched | src/db.rs:192-213 | The feeds become `Stamped(old, id, now, error, homepage)`, the invariant is kept and the items are untouched. |
| FeedTable.Stamp | src/db.rs:198-204 | The stamped row keeps its id, name, URL and discussion flag, records `now` and the error, and keeps its homepage unless one is given. |
| FeedTable.StampedRow | src/db.rs:199-204 | The matching row gets `lastFetched = now`, `lastError = error` (None clears it) and the homepage only when one is given; all its other columns and every other row stay as they were. |
| FeedTable.StampedKeeps | src/db.rs:199-204 | The status update keeps the table invariant, the row count, and every id, URL, name and discussion flag. |
| Text.Find | src/fetcher.rs:171-172 | `str::find`: the first occurrence of the pattern, or None exactly when it does not occur. |
| Text.Contains | src/fetcher.rs:189-202 | `str::contains` holds exactly when the pattern occurs at some position. |
| Text.TrimStart | src/fetcher.rs:174 | What is dropped is all whitespace, what is kept is a suffix not starting with whitespace. |
| Text.TrimEnd | src/fetcher.rs:174 | What is dropped is all whitespace, what is kept is a prefix not ending with whitespace. |
| Text.Trim | src/fetcher.rs:174 | `str::trim`: the result is no longer than the input and neither starts nor ends with whitespace. |
| Text.TrimSlice | src/fetcher.rs:174 | The trimmed text is a slice of the input with only whitespace before and after it. |
| Text.Split | src/fetcher.rs:150 | `str::split`: at least one piece, and no piece contains the separator. |
| Text.JoinSplit | src/fetcher.rs:150 | Joining the pieces of a split with the separator gives back the text. |
| Utf8.DecodeFirst | src/fetcher.rs:144 | One decoding step consumes one to four bytes, one exactly for an ASCII lead byte. |
| Utf8.EncodeChar | src/fetcher.rs:144 | A character encodes to one to four bytes. |
| Utf8.DecodeFirstEncodeChar | src/fetcher.rs:144 | Decoding the encoding of a character gives it back with its length. |
| Utf8.EncodeCharDecodeFirst | src/fetcher.rs:144 | A decoded character re-encodes to exactly the bytes it was read from. |
| Utf8.DecodeEncode | src/fetcher.rs:144-147 | Every text, sent as UTF-8, is decoded back to itself. |
| Utf8.EncodeDecode | src/fetcher.rs:144-147 | Bytes that decode are exactly the encoding of what they decode to. |
| Utf8.InvalidLeadByte | src/fetcher.rs:437-442 | The bytes FF FE 00 01 are rejected as UTF-8. |
| XmlScan.ExtractXmlElement | src/fetcher.rs:167-175 | A value is found only when the input contains `<tag>`. |
| XmlScan.ExtractSpec | src/fetcher.rs:167-175 | Some exactly when the first `<tag>` is followed by a `</tag>`; the value is then the trimmed text between that `<tag>` and the first `</tag>` after it. |
| XmlScan.SpanUnique | src/fetcher.rs:171-172 | There is at most one such content span, so the result is determined. |
| XmlScan.AbsentTag | src/fetcher.rs:171 | No `<tag>` in the input: None. |
| XmlScan.UnclosedTag | src/fetcher.rs:172 | A first `<tag>` with no `</tag>` after it: None. |
| XmlScan.ExtractAtSpan | src/fetcher.rs:171-174 | Whenever the content span exists the result is its trimmed text. |
| XmlScan.ExtractWrapped | src/fetcher.rs:167-175 | For any text before, content and text after, with no `<tag>` before and no `</tag>` inside, extracting gives the trimmed content. |
| XmlScan.ElementIs | src/fetcher.rs:167-175 | The same, for an input known to be assembled that way. |
| XmlScan.TrimPadded | src/fetcher.rs:174 | Trimming whitespace-padded text returns the text between the padding. |
| XmlScan.ExtractsTo | src/fetcher.rs:167-175 | An element whose content is whitespace-padded text extracts to that text. |
| XmlScan.SimpleElement | src/fetcher.rs:282-287 | `<title>Hello World</title>` gives "Hello World". |
| XmlScan.ElementWithWhitespace | src/fetcher.rs:289-294 | Surrounding whitespace is trimmed from the content. |
| XmlScan.ElementNotFound | src/fetcher.rs:296-301 | Asking for an absent tag gives None. |
| XmlScan.EmptyElement | src/fetcher.rs:303-308 | An empty element gives the empty text. |
| XmlScan.NoClosingTag | src/fetcher.rs:310-315 | An unclosed element gives None. |
| XmlScan.SurroundingContent | src/fetcher.rs:317-322 | Text around the element plays no part. |
| XmlScan.FirstOfSeveral | src/fetcher.rs:324-328 | With several elements the first one is returned. |
| XmlScan.ItemBody | src/fetcher.rs:151-152 | The body is the block cut at its first `</item>`, or the whole block when it has none, and contains no `</item>`. |
| XmlScan.BlockPairs | src/fetcher.rs:150-161 | One (link, comments) entry per item block, in order. |
| XmlScan.CommentsOf | src/fetcher.rs:159-160 | The map has no more entries than there are items, and every entry is the pair of some item. |
| XmlScan.ScanItem | src/fetcher.rs:151-159 | The loop body finds both a link and a comments URL exactly when the block's body has a pair, and returns that pair. |
| XmlScan.CollectComments | src/fetcher.rs:150-162 | The loop over the blocks builds exactly the map of the blocks' pairs, later pairs replacing earlier ones. |
| XmlScan.ExtractCommentsFromXml | src/fetcher.rs:142-165 | The result is `CommentsMap(bytes)`: the empty map for bytes that are not UTF-8, otherwise the pairs of the `<item>` blocks. |
| XmlScan.LastPairWins | src/fetcher.rs:160 | A link ends up with the comments URL of the last item that carries it. |
| XmlScan.LinkRecorded | src/fetcher.rs:159-160 | Any item with both elements puts its link in the map. |
| XmlScan.PreambleIgnored | src/fetcher.rs:150 | Text before the first `<item>` is skipped: the blocks are the split of what follows it. |
| XmlScan.SplitJoinTags | src/fetcher.rs:150 | Splitting blocks joined by a tag-like separator that none contains gives the blocks back. |
| XmlScan.ItemBlocksOf | src/fetcher.rs:150 | A preamble followed by blocks each opened by `<item>` splits into exactly those blocks. |
| XmlScan.RssComments | src/fetcher.rs:142-165 | An RSS document of that shape, sent as UTF-8, maps to the pairs of its blocks. |
| XmlScan.BodyBeforeClose | src/fetcher.rs:151-152 | A block is read only up to its first `</item>`. |
| XmlScan.LinkAndComments | src/fetcher.rs:155-159 | An item body with a `<link>` then a `<comments>` element pairs their trimmed contents. |
| XmlScan.NoCommentsElement | src/fetcher.rs:157-159 | An item body without `<comments>` contributes nothing. |
| XmlScan.NoItems | src/fetcher.rs:444-455 | A document without `<item>` gives the empty map. |
| XmlScan.SingleItemWithComments | src/fetcher.rs:336-354 | One item with link and comments gives the one-entry map link -> comments. |
| XmlScan.ItemWithoutComments | src/fetcher.rs:386-401 | One item without comments gives the empty map. |
| XmlScan.MixedItems | src/fetcher.rs:403-428 | Items with, without, and with comments give a two-entry map holding the first and third links with their comments and not the second link. |
| XmlScan.ClosedBlockHasNoOpen | src/fetcher.rs:150-151 | A block closed by `</item>` contains no `<item>` when neither side does. |
| XmlScan.EmptyInput | src/fetcher.rs:430-435 | Empty input gives the empty map. |
| XmlScan.InvalidUtf8Input | src/fetcher.rs:437-442 | Bytes that are not UTF-8 give the empty map. |
| Text.ToLowercase | src/fetcher.rs:214 | Lower-casing keeps the length of the text. |
| Text.ToLowercaseSpec | src/fetcher.rs:214 | Lower-casing leaves no upper-case ASCII letter, turns each into its lower-case letter and keeps every other character. |
| Discussion.FirstRelLink | src/fetcher.rs:213-218 | The index of the first link whose lower-cased `rel` is "replies" or "comments" (missing rel = ""), or None exactly when no link has one. |
| Discussion.ExtractDiscussionLink | src/fetcher.rs:177-185 | None whenever the feed has discussion links turned off. |
| Discussion.DiscussionLinkCases | src/fetcher.rs:177-221 | None exactly when discussion is off, the HN main link is the item page, or no site rule, XML comments URL or discussion link applies; otherwise the value is the entry id under a site rule, the XML comments URL, or the href of a discussion link. |
| Discussion.SiteRuleFirst | src/fetcher.rs:189-205 | When an HN or Lobsters id rule applies, the id is the answer whatever the comments URL and links. |
| Discussion.XmlCommentsBeforeLinks | src/fetcher.rs:207-210 | With no site rule, the XML comments URL wins over every link. |
| Discussion.FirstDiscussionLinkWins | src/fetcher.rs:212-218 | With no site rule and no comments URL, the first discussion link's href is returned. |
| Discussion.CommentsOnlyAdd | src/fetcher.rs:207-210 | Supplying an XML comments URL never loses a discussion link: a found link stays found or is replaced by the comments URL. |
| DiscussionExamples.NoDiscussionWhenDisabled | src/fetcher.rs:463-470 | A feed with discussion off gets None. |
| DiscussionExamples.HnDiscussionFromEntryId | src/fetcher.rs:472-490 | On Hacker News the entry id is the discussion link. |
| DiscussionExamples.HnSkipWhenMainLinkIsDiscussion | src/fetcher.rs:492-512 | An HN post whose main link is the item page gets None. |
| DiscussionExamples.LobstersDiscussion | src/fetcher.rs:514-525 | On Lobsters the story id is the discussion link. |
| DiscussionExamples.DiscussionFromXmlComments | src/fetcher.rs:527-540 | Another feed uses the XML comments URL. |
| DiscussionExamples.DiscussionFromRepliesRel | src/fetcher.rs:542-558 | A `rel="replies"` link is used. |
| DiscussionExamples.DiscussionFromCommentsRel | src/fetcher.rs:560-581 | A `rel="comments"` link is used. |
| DiscussionExamples.NoDiscussionLinkFound | src/fetcher.rs:583-590 | Plain links and no comments give None. |
| DiscussionExamples.XmlCommentsTakePrecedenceOverRel | src/fetcher.rs:592-611 | The XML comments URL beats a `rel="replies"` link. |
| DiscussionExamples.CaseInsensitiveRel | src/fetcher.rs:613-633 | `rel="COMMENTS"` is matched regardless of case. |
| Entries.TitleOf | src/fetcher.rs:94-98 | The stored title is the entry's own title, or "Untitled" when it has none; it is empty only for an entry whose own title is empty. |
| Entries.MainLink | src/fetcher.rs:100-105 | The main link is the href of the first link; it is empty exactly when the entry has no link or its first href is empty (the entries that are skipped). |
| Entries.PublishedOf | src/fetcher.rs:116-120 | The stored date is the publication date, else the update date; there is one exactly when the entry has either. |
| Refresh.EntryFields | src/fetcher.rs:92-131 | The upserted row is keyed by the feed's id and the entry id, carries the entry's title, main link and date, and has a discussion link only when the feed has discussion links turned on. |
| Refresh.Ingested | src/fetcher.rs:91-132 | Upserting the entries in order grows the items table by at most one row per entry and never shrinks it; with no linked entry it changes nothing. |
| Refresh.IngestedKeeps | src/fetcher.rs:92-135 | Upserting a feed's entries keeps the items invariant, keeps every old row's id and key, and every new row belongs to this feed with the guid of a linked entry. |
| Refresh.IngestedOtherGuid | src/fetcher.rs:91-132 | A stored row that no linked entry of the refreshed feed names (another feed's row, or one whose guid only unlinked entries or no entry carries) keeps every column at its place. |
| Refresh.IngestedLastWins | src/fetcher.rs:92-132 | After the loop, an entry with a link is stored under (feed, id) with its title ("Untitled" if none), first link, discussion link and published-or-updated date, the last such entry of an id winning. |
| Refresh.IngestedOtherFeed | src/fetcher.rs:123-132 | Refreshing one feed leaves every other feed's items identical. |
| Refresh.RefreshedScope | src/fetcher.rs:83-89 | A failed download or parse fails with its message and changes no item; other feeds' items are never changed. |
| Refresh.RefreshedOutcome | src/fetcher.rs:80-139 | For a stored feed, the refresh fails exactly when the download or parse fails, and with that message. |
| Refresh.Fetcher.StoreEntry | src/fetcher.rs:92-132 | An entry without a link changes nothing; a linked entry fails exactly when its feed is not stored, changing nothing, and otherwise the items become `Upserted` with the entry's fields. |
| Refresh.Fetcher.StoreEntries | src/fetcher.rs:91-135 | For a stored feed the loop succeeds and the items become `Ingested` of the entries; for an unknown feed nothing changes, and the loop succeeds exactly when no entry has a link, otherwise it fails with the foreign-key message. |
| Refresh.RefreshedIs | src/fetcher.rs:80-139 | What the entry loop returns and leaves behind is the refresh of the parsed download. |
| Refresh.Fetcher.RefreshFeed | src/fetcher.rs:80-139 | The outcome and the new items table are `Refreshed(old feeds, old items, feed, download)`; the feeds are untouched and the invariant kept. |
| Refresh.CycleFeeds | src/fetcher.rs:64-74 | After n turns of the cycle the first n feeds are stamped with `now` and their download's error, and the rest are unchanged. |
| Refresh.CycleStatus | src/fetcher.rs:60-78 | After a cycle every feed has `lastFetched = now` and `lastError` = its download's error (None on success), keeping its id and homepage. |
| Refresh.CycleKeepsFailedFeed | src/fetcher.rs:65-70 | A feed whose download fails keeps exactly its old items. |
| Refresh.CycleItemsOutside | src/fetcher.rs:64-74 | Items of feeds not in the cycle are untouched. |
| Refresh.Fetcher.DoRefreshAll | src/fetcher.rs:60-78 | The loop leaves the tables equal to `Cycle` of the old tables over the stored feeds in id order, keeping the invariant. |
| Refresh.Fetcher.constructor | src/fetcher.rs:20-32 | A new fetcher holds the database and is not refreshing. |
| Refresh.Fetcher.IsRefreshing | src/fetcher.rs:34-36 | True exactly while the flag is held. |
| Refresh.Fetcher.TryBeginRefresh | src/fetcher.rs:40-47 | Claims the flag and reports success exactly when it was free; the flag is held afterwards either way. |
| Refresh.Fetcher.EndRefresh | src/fetcher.rs:52-55 | Releases the flag. |
| Refresh.Fetcher.RefreshAllFeeds | src/fetcher.rs:38-58 | When a cycle is already running nothing changes; otherwise one full cycle runs and the flag is released afterwards. |

## Left out

- HTTP: the request, the 30-second timeout and the user agent (`src/fetcher.rs:20-32`, `src/fetcher.rs:83-84`) are not modelled. Each download is an input: failed, or bytes paired with the parser's result.
- The `feed_rs` parser (`src/fetcher.rs:89`) is a library outside this model. Its result (entries, or a failure message) is part of the download input.
- `Refresh.Cycle`: a cycle is given one download per URL, as a function of the URL. Two feeds with the same URL cannot occur, because URLs are unique.
- Concurrency: `tokio::sync::RwLock` and `async` are not modelled. The two critical sections of `refresh_all_feeds` are the methods `TryBeginRefresh` and `EndRefresh`. A second cycle started while one runs is shown by calling `RefreshAllFeeds` with the flag held.
- `start_background_refresh` (`src/fetcher.rs:224-241`) is not modelled: it is the scheduler loop with its sleep.
- `Database::new` is not modelled: it is the connection pool. The table DDL, the index and the `homepage_url` migration are summed up by the constructor and the table invariants.
- The clock is a `now` parameter, one value per cycle. RFC 3339 timestamps and `DateTime` are the text the store keeps. `published` is that text.
- Storage and I/O errors other than the foreign-key violation are left out, as is a failing `get_all_feeds`.
- Error text is abstract. Download and parse messages are inputs. The foreign-key failure is SQLite's message, without the wrapping that sqlx and anyhow add.
- Logging is left out, including the `count` in `refresh_feed`, which is only logged.
- `Discussion.IsDiscussionRel` lower-cases ASCII letters only. This decides the same comparisons as Rust's `to_lowercase`. The only non-ASCII character that lower-cases to ASCII is the Kelvin sign, and it lower-cases to `k`. Neither "replies" nor "comments" contains `k`.
- Integer widths (`i64` ids, limits and offsets) are unbounded integers. No id or count here gets near 2^63.
- `test_extract_multiple_items_with_comments` (`src/fetcher.rs:356-383`) is covered by the general statements `XmlScan.RssComments`, `XmlScan.LinkRecorded` and `XmlScan.CommentsOf`. It is not restated on its literal document.
- The pagination tests of `src/db.rs:518-609` are covered by the general statements `Store.Database.GetItemsForFeed`, `Store.ConsecutivePages` and `Store.ListingIsTheSortedOrder`. They are not restated on their literal rows.
- The `Feed` and `Item` structs with their `sqlx::FromRow` mapping (`src/db.rs:6-26`) become the `Feed` and `Item` datatypes.
- The configuration, the web routes and `main` are not part of this model.
