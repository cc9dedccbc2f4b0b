/** The refresh of src/fetcher.rs: `refresh_feed` turns one downloaded feed into item upserts,
    `do_refresh_all` refreshes every stored feed and records each attempt, and
    `refresh_all_feeds` runs one such cycle at a time behind the `refreshing` flag.
    The network and the feed parser are inputs: a download is either a failure message or
    the response body together with what the parser made of it. */
module Refresh {
  import opened Wrappers
  import opened Utf8
  import opened FeedTable
  import opened ItemTable
  import opened Store
  import opened Entries
  import opened Discussion
  import opened XmlScan

  /** What the feed parser made of a response body. */
  datatype Parse = ParseFailed(message: string) | Parsed(entries: seq<Entry>)

  /** The outcome of the HTTP request for a feed's URL. */
  datatype Download = FetchFailed(message: string) | Downloaded(body: seq<byte>, parse: Parse)

  /** The text an upsert for a feed that is not in the table fails with. */
  const ForeignKeyMessage: string := "FOREIGN KEY constraint failed"

  /** The error a download alone decides: the request's or the parser's. */
  function DownloadError(d: Download): Option<string> {
    match d
    case FetchFailed(message) => Some(message)
    case Downloaded(_, ParseFailed(message)) => Some(message)
    case Downloaded(_, Parsed(_)) => None
  }

  /** `comments_map.get(&link)`. */
  function CommentsFor(comments: map<string, string>, link: string): Option<string> {
    if link in comments then Some(comments[link]) else None
  }

  /** The columns `refresh_feed` upserts for an entry with a link. */
  function EntryFields(feed: Feed, e: Entry, comments: map<string, string>): (r: ItemFields)
    ensures r.feedId == feed.id && r.guid == e.id
    ensures r.title == TitleOf(e) && r.link == MainLink(e) && r.published == PublishedOf(e)
    ensures r.discussionLink.Some? ==> feed.hasDiscussion
  {
    var link := MainLink(e);
    ItemFields(feed.id, e.id, TitleOf(e), link,
      ExtractDiscussionLink(feed, e, CommentsFor(comments, link), link), PublishedOf(e))
  }

  /** An entry without a link is skipped. */
  predicate Linked(e: Entry) {
    MainLink(e) != []
  }

  /** The items table after the entries are upserted in order, the unlinked ones skipped. */
  function Ingested(items: seq<Item>, feed: Feed, entries: seq<Entry>, comments: map<string, string>): (r: seq<Item>)
    ensures |items| <= |r| <= |items| + |entries|
    ensures (forall j | 0 <= j < |entries| :: !Linked(entries[j])) ==> r == items
    decreases |entries|
  {
    if entries == [] then items
    else
      var init := entries[..|entries| - 1];
      var prev := Ingested(items, feed, init, comments);
      var e := entries[|entries| - 1];
      assert forall j | 0 <= j < |init| :: init[j] == entries[j];
      if Linked(e) then
        UpsertKeepsRows(prev, EntryFields(feed, e, comments));
        Upserted(prev, EntryFields(feed, e, comments))
      else prev
  }

  /** `refresh_feed` as a function of the tables and the download: its result and the new items
      table. The feeds table is not changed. When the feed is not in the table the first linked
      entry's upsert fails and ends the refresh. */
  function Refreshed(feeds: seq<Feed>, items: seq<Item>, feed: Feed, d: Download): (Outcome<string>, seq<Item>) {
    match d
    case FetchFailed(message) => (Fail(message), items)
    case Downloaded(_, ParseFailed(message)) => (Fail(message), items)
    case Downloaded(body, Parsed(entries)) =>
      if FindById(feeds, feed.id).Some? then
        (Pass, Ingested(items, feed, entries, CommentsMap(body)))
      else if exists i | 0 <= i < |entries| :: Linked(entries[i]) then
        (Fail(ForeignKeyMessage), items)
      else
        (Pass, items)
  }

  /** Both tables of the store, as values. */
  datatype Tables = Tables(feeds: seq<Feed>, items: seq<Item>)

  /** One turn of `do_refresh_all`: refresh the feed, then record the attempt with its error. */
  function CycleStep(t: Tables, feed: Feed, d: Download, now: string): Tables {
    var (r, items) := Refreshed(t.feeds, t.items, feed, d);
    Tables(Stamped(t.feeds, feed.id, now, if r.Fail? then Some(r.error) else None, None), items)
  }

  /** `do_refresh_all` over a list of feeds, in order, each downloaded from its URL. */
  function Cycle(t: Tables, feeds: seq<Feed>, fetch: string -> Download, now: string): Tables
    decreases |feeds|
  {
    if feeds == [] then t
    else
      var last := feeds[|feeds| - 1];
      CycleStep(Cycle(t, feeds[..|feeds| - 1], fetch, now), last, fetch(last.url), now)
  }

  // ---------------------------------------------------------------------------------------
  // Ingesting entries

  /** The guids of the entries that have a link. */
  function LinkedIds(entries: seq<Entry>): set<string>
    decreases |entries|
  {
    if entries == [] then {}
    else
      var e := entries[|entries| - 1];
      LinkedIds(entries[..|entries| - 1]) + if Linked(e) then {e.id} else {}
  }

  /** A row that no linked entry of this feed names keeps every column at its place: rows of
      other feeds, and rows of this feed whose guid no linked entry carries. */
  lemma {:induction false} IngestedOtherGuid(items: seq<Item>, feed: Feed, entries: seq<Entry>,
                                             comments: map<string, string>, j: nat)
    requires ItemTable.WellFormed(items) && j < |items|
    requires items[j].feedId == feed.id ==> items[j].guid !in LinkedIds(entries)
    ensures j < |Ingested(items, feed, entries, comments)| && Ingested(items, feed, entries, comments)[j] == items[j]
    decreases |entries|
  {
    if entries != [] {
      var init, e := entries[..|entries| - 1], entries[|entries| - 1];
      IngestedOtherGuid(items, feed, init, comments, j);
      if Linked(e) {
        var prev := Ingested(items, feed, init, comments);
        IngestedKeeps(items, feed, init, comments);
        UpsertKeepsOtherRow(prev, EntryFields(feed, e, comments), j);
      }
    }
  }

  /** Every row past the first `n` belongs to the feed and carries the guid of a linked entry. */
  ghost predicate NewRowsFrom(r: seq<Item>, n: nat, feedId: int, entries: seq<Entry>) {
    forall j | n <= j < |r| :: r[j].feedId == feedId && r[j].guid in LinkedIds(entries)
  }

  /** Ingesting keeps the table invariant, keeps every existing row in its place with its id and
      key, and every row it adds belongs to the feed and carries the guid of a linked entry. */
  lemma {:induction false} IngestedKeeps(items: seq<Item>, feed: Feed, entries: seq<Entry>, comments: map<string, string>)
    requires ItemTable.WellFormed(items)
    ensures var r := Ingested(items, feed, entries, comments);
      && ItemTable.WellFormed(r)
      && RowsKept(items, r)
      && NewRowsFrom(r, |items|, feed.id, entries)
    decreases |entries|
  {
    if entries != [] {
      var init := entries[..|entries| - 1];
      var e := entries[|entries| - 1];
      var prev := Ingested(items, feed, init, comments);
      IngestedKeeps(items, feed, init, comments);
      assert LinkedIds(init) <= LinkedIds(entries);
      if Linked(e) {
        var f := EntryFields(feed, e, comments);
        UpsertWellFormed(prev, f);
        UpsertKeepsRows(prev, f);
        RowsKeptTrans(items, prev, Upserted(prev, f));
        NewRowsStep(prev, Upserted(prev, f), |items|, feed.id, LinkedIds(init), LinkedIds(entries), e.id);
      }
    }
  }

  /** An upsert of a linked guid keeps the added rows drawn from the linked guids. */
  lemma NewRowsStep(prev: seq<Item>, r: seq<Item>, n: nat, feedId: int, before: set<string>, after: set<string>, guid: string)
    requires before <= after && guid in after
    requires forall j | n <= j < |prev| :: prev[j].feedId == feedId && prev[j].guid in before
    requires RowsKept(prev, r)
    requires forall j | |prev| <= j < |r| :: HasKey(r[j], feedId, guid)
    ensures forall j | n <= j < |r| :: r[j].feedId == feedId && r[j].guid in after
  {
    forall j | n <= j < |r| ensures r[j].feedId == feedId && r[j].guid in after {
      if j < |prev| {
        assert HasKey(r[j], prev[j].feedId, prev[j].guid);
      } else {
        assert HasKey(r[j], feedId, guid);
      }
    }
  }

  /** The row of an entry's guid holds that entry's columns when no later linked entry has the
      same guid: a repeated guid in one download ends with the last entry's values. */
  lemma {:induction false} IngestedLastWins(items: seq<Item>, feed: Feed, entries: seq<Entry>,
                                            comments: map<string, string>, i: nat)
    requires ItemTable.WellFormed(items)
    requires i < |entries| && Linked(entries[i])
    requires forall j | i < j < |entries| :: !Linked(entries[j]) || entries[j].id != entries[i].id
    ensures var r := Ingested(items, feed, entries, comments);
      && FindRow(r, feed.id, entries[i].id).Some?
      && FieldsOf(r[FindRow(r, feed.id, entries[i].id).value]) == EntryFields(feed, entries[i], comments)
    decreases |entries|
  {
    var init := entries[..|entries| - 1];
    var e := entries[|entries| - 1];
    var prev := Ingested(items, feed, init, comments);
    IngestedKeeps(items, feed, init, comments);
    if i == |entries| - 1 {
      UpsertedRow(prev, EntryFields(feed, e, comments));
    } else {
      assert init[i] == entries[i];
      IngestedLastWins(items, feed, init, comments, i);
      if Linked(e) {
        var p := FindRow(prev, feed.id, entries[i].id).value;
        UpsertKeepsOtherRow(prev, EntryFields(feed, e, comments), p);
      }
    }
  }

  /** One more entry: upserted when it has a link, skipped otherwise. */
  lemma IngestedPrefix(items: seq<Item>, feed: Feed, entries: seq<Entry>, comments: map<string, string>, k: nat)
    requires k < |entries|
    ensures var prev := Ingested(items, feed, entries[..k], comments);
      Ingested(items, feed, entries[..k + 1], comments)
        == if Linked(entries[k]) then Upserted(prev, EntryFields(feed, entries[k], comments)) else prev
  {
    assert entries[..k + 1][..k] == entries[..k];
  }

  /** One entry of the loop of `refresh_feed`: the rows after it are those of the longer
      prefix, unless the upsert failed, which only an unknown feed makes it do. */
  lemma StoreStep(known: bool, before: seq<Item>, prev: seq<Item>, after: seq<Item>, feed: Feed,
                  entries: seq<Entry>, comments: map<string, string>, k: nat, stored: Outcome<StoreError>)
    requires k < |entries|
    requires known ==> prev == Ingested(before, feed, entries[..k], comments)
    requires !known ==> prev == before && forall j | 0 <= j < k :: !Linked(entries[j])
    requires !Linked(entries[k]) ==> stored.Pass? && after == prev
    requires Linked(entries[k]) ==> (stored.Fail? <==> !known)
    requires stored.Pass? && Linked(entries[k]) ==> after == Upserted(prev, EntryFields(feed, entries[k], comments))
    requires stored.Fail? ==> after == prev
    ensures stored.Pass? && known ==> after == Ingested(before, feed, entries[..k + 1], comments)
    ensures stored.Pass? && !known ==> after == before && forall j | 0 <= j < k + 1 :: !Linked(entries[j])
    ensures stored.Fail? ==> !known && after == before && Linked(entries[k])
  {
    IngestedPrefix(before, feed, entries, comments, k);
  }

  /** What the entry loop leaves behind is the refresh of a parsed download. */
  lemma RefreshedIs(feeds: seq<Feed>, items: seq<Item>, feed: Feed, body: seq<byte>, entries: seq<Entry>,
                    r: Outcome<string>, after: seq<Item>)
    requires FindById(feeds, feed.id).Some? ==> r == Pass && after == Ingested(items, feed, entries, CommentsMap(body))
    requires FindById(feeds, feed.id).None? ==> after == items
    requires FindById(feeds, feed.id).None? ==> (r == Pass <==> forall j | 0 <= j < |entries| :: !Linked(entries[j]))
    requires r.Fail? ==> r.error == ForeignKeyMessage
    ensures (r, after) == Refreshed(feeds, items, feed, Downloaded(body, Parsed(entries)))
  {
  }

  /** Ingesting touches only the feed's own rows. */
  lemma {:induction false} IngestedOtherFeed(items: seq<Item>, feed: Feed, entries: seq<Entry>,
                                             comments: map<string, string>, feedId: int)
    requires feedId != feed.id
    ensures ItemsOfFeed(Ingested(items, feed, entries, comments), feedId) == ItemsOfFeed(items, feedId)
    decreases |entries|
  {
    if entries != [] {
      var init := entries[..|entries| - 1];
      var e := entries[|entries| - 1];
      IngestedOtherFeed(items, feed, init, comments, feedId);
      if Linked(e) {
        UpsertCounts(Ingested(items, feed, init, comments), EntryFields(feed, e, comments), feedId);
      }
    }
  }

  /** A refresh changes only the rows of its own feed, and a failed download changes nothing. */
  lemma RefreshedScope(feeds: seq<Feed>, items: seq<Item>, feed: Feed, d: Download, feedId: int)
    ensures DownloadError(d).Some? ==> Refreshed(feeds, items, feed, d) == (Fail(DownloadError(d).value), items)
    ensures feedId != feed.id ==> ItemsOfFeed(Refreshed(feeds, items, feed, d).1, feedId) == ItemsOfFeed(items, feedId)
  {
    if d.Downloaded? && d.parse.Parsed? && FindById(feeds, feed.id).Some? {
      if feedId != feed.id {
        IngestedOtherFeed(items, feed, d.parse.entries, CommentsMap(d.body), feedId);
      }
    }
  }

  /** For a feed that is in the table, a refresh fails exactly when the download does. */
  lemma RefreshedOutcome(feeds: seq<Feed>, items: seq<Item>, feed: Feed, d: Download)
    requires FindById(feeds, feed.id).Some?
    ensures Refreshed(feeds, items, feed, d).0.Fail? <==> DownloadError(d).Some?
    ensures Refreshed(feeds, items, feed, d).0.Fail? ==> Refreshed(feeds, items, feed, d).0.error == DownloadError(d).value
  {
  }

  // ---------------------------------------------------------------------------------------
  // A whole cycle

  /** The feeds table part way through a cycle over the stored feeds `feeds`: the rows of the
      first `n` feeds carry this cycle's time and their own download's error, the others are as
      they were, and every row keeps its id, name, URL, discussion flag and homepage. */
  ghost predicate VisitedUpTo(c: seq<Feed>, feeds: seq<Feed>, fetch: string -> Download, now: string, n: nat) {
    && FeedTable.WellFormed(c)
    && |c| == |feeds|
    && (forall k | 0 <= k < |feeds| ::
          c[k].(lastFetched := feeds[k].lastFetched, lastError := feeds[k].lastError) == feeds[k])
    && (forall k | 0 <= k < n && k < |feeds| ::
          c[k].lastFetched == Some(now) && c[k].lastError == DownloadError(fetch(feeds[k].url)))
    && (forall k | n <= k < |feeds| :: c[k] == feeds[k])
  }

  /** A cycle over one more feed is one more turn. */
  lemma CyclePrefix(t: Tables, feeds: seq<Feed>, fetch: string -> Download, now: string, k: nat)
    requires k < |feeds|
    ensures Cycle(t, feeds[..k + 1], fetch, now) == CycleStep(Cycle(t, feeds[..k], fetch, now), feeds[k], fetch(feeds[k].url), now)
  {
    assert feeds[..k + 1][..k] == feeds[..k];
  }

  /** The tables after a refresh and the record of its attempt are one turn of the cycle. */
  lemma CycleStepIs(t: Tables, feed: Feed, d: Download, now: string, r: Outcome<string>, after: Tables)
    requires (r, after.items) == Refreshed(t.feeds, t.items, feed, d)
    requires after.feeds == Stamped(t.feeds, feed.id, now, if r.Fail? then Some(r.error) else None, None)
    ensures after == CycleStep(t, feed, d, now)
  {
  }

  /** One more turn of the cycle visits one more feed. */
  lemma CycleStepVisits(before: Tables, feeds: seq<Feed>, fetch: string -> Download, now: string, n: nat)
    requires 0 < n <= |feeds| && VisitedUpTo(before.feeds, feeds, fetch, now, n - 1)
    ensures VisitedUpTo(CycleStep(before, feeds[n - 1], fetch(feeds[n - 1].url), now).feeds, feeds, fetch, now, n)
  {
    var f := feeds[n - 1];
    assert before.feeds[n - 1].id == f.id;
    CycleStepFeeds(before, f, fetch(f.url), now);
    StampVisits(before.feeds, feeds, fetch, now, n);
  }

  /** For a feed in the table, a turn records the download's own error. */
  lemma CycleStepFeeds(t: Tables, feed: Feed, d: Download, now: string)
    requires FindById(t.feeds, feed.id).Some?
    ensures CycleStep(t, feed, d, now).feeds == Stamped(t.feeds, feed.id, now, DownloadError(d), None)
  {
    RefreshedOutcome(t.feeds, t.items, feed, d);
  }

  /** Stamping the next feed with its download's error visits one more feed. */
  lemma StampVisits(c: seq<Feed>, feeds: seq<Feed>, fetch: string -> Download, now: string, n: nat)
    requires 0 < n <= |feeds| && VisitedUpTo(c, feeds, fetch, now, n - 1)
    ensures VisitedUpTo(Stamped(c, feeds[n - 1].id, now, DownloadError(fetch(feeds[n - 1].url)), None), feeds, fetch, now, n)
  {
    var f := feeds[n - 1];
    var err := DownloadError(fetch(f.url));
    StampedKeeps(c, f.id, now, err, None);
    var s := Stamped(c, f.id, now, err, None);
    forall k | 0 <= k < |feeds|
      ensures c[k].id != f.id ==> s[k] == c[k]
      ensures c[k].id == f.id ==> s[k] == c[k].(lastFetched := Some(now), lastError := err)
    {
      StampedRow(c, f.id, now, err, None, k);
    }
  }

  lemma {:induction false} CycleFeeds(t: Tables, feeds: seq<Feed>, fetch: string -> Download, now: string, n: nat)
    requires FeedTable.WellFormed(t.feeds) && n <= |feeds| && feeds == t.feeds
    ensures VisitedUpTo(Cycle(t, feeds[..n], fetch, now).feeds, feeds, fetch, now, n)
    decreases n
  {
    if n > 0 {
      assert feeds[..n][..n - 1] == feeds[..n - 1];
      CycleFeeds(t, feeds, fetch, now, n - 1);
      CycleStepVisits(Cycle(t, feeds[..n - 1], fetch, now), feeds, fetch, now, n);
    }
  }

  /** After a cycle over the stored feeds every feed records this cycle's time and the error of
      its own download, or None when it was refreshed. The program reads the clock once per
      feed, so its timestamps differ within a cycle; here one `now` stands for all of them,
      and the equal times are a property of the model, not of the program. */
  lemma CycleStatus(t: Tables, fetch: string -> Download, now: string)
    requires FeedTable.WellFormed(t.feeds)
    ensures var c := Cycle(t, t.feeds, fetch, now);
      && |c.feeds| == |t.feeds|
      && forall k | 0 <= k < |t.feeds| ::
           && c.feeds[k].id == t.feeds[k].id
           && c.feeds[k].lastFetched == Some(now)
           && c.feeds[k].lastError == DownloadError(fetch(t.feeds[k].url))
           && c.feeds[k].homepageUrl == t.feeds[k].homepageUrl
  {
    CycleFeeds(t, t.feeds, fetch, now, |t.feeds|);
    assert t.feeds[..|t.feeds|] == t.feeds;
  }

  /** The items of a feed whose download failed are left as they were by the whole cycle. */
  lemma {:induction false} CycleKeepsFailedFeed(t: Tables, feeds: seq<Feed>, fetch: string -> Download, now: string, k: nat)
    requires k < |feeds| && DownloadError(fetch(feeds[k].url)).Some?
    requires forall j | 0 <= j < |feeds| && j != k :: feeds[j].id != feeds[k].id
    ensures ItemsOfFeed(Cycle(t, feeds, fetch, now).items, feeds[k].id) == ItemsOfFeed(t.items, feeds[k].id)
    decreases |feeds|
  {
    var init := feeds[..|feeds| - 1];
    var f := feeds[|feeds| - 1];
    var before := Cycle(t, init, fetch, now);
    RefreshedScope(before.feeds, before.items, f, fetch(f.url), feeds[k].id);
    if k < |feeds| - 1 {
      assert init[k] == feeds[k];
      CycleKeepsFailedFeed(t, init, fetch, now, k);
    } else {
      CycleItemsOutside(t, init, fetch, now, f.id);
    }
  }

  /** A cycle over feeds that do not include `feedId` leaves that feed's items alone. */
  lemma {:induction false} CycleItemsOutside(t: Tables, feeds: seq<Feed>, fetch: string -> Download, now: string, feedId: int)
    requires forall j | 0 <= j < |feeds| :: feeds[j].id != feedId
    ensures ItemsOfFeed(Cycle(t, feeds, fetch, now).items, feedId) == ItemsOfFeed(t.items, feedId)
    decreases |feeds|
  {
    if feeds != [] {
      var init := feeds[..|feeds| - 1];
      var f := feeds[|feeds| - 1];
      CycleItemsOutside(t, init, fetch, now, feedId);
      var before := Cycle(t, init, fetch, now);
      RefreshedScope(before.feeds, before.items, f, fetch(f.url), feedId);
    }
  }

  // ---------------------------------------------------------------------------------------
  // The refresher

  class Fetcher {
    /** The shared store. */
    const db: Database
    /** True while a refresh cycle runs. */
    var refreshing: bool

    /** `Fetcher::new`: no cycle is running. */
    constructor (db: Database)
      ensures this.db == db && !refreshing
    {
      this.db := db;
      refreshing := false;
    }

    /** `is_refreshing`: whether a cycle is in progress. */
    function IsRefreshing(): (r: bool)
      reads this
      ensures r <==> refreshing
    {
      refreshing
    }

    /** The first critical section of `refresh_all_feeds`: claim the flag unless it is held. */
    method TryBeginRefresh() returns (began: bool)
      modifies this
      ensures began <==> !old(refreshing)
      ensures refreshing
    {
      if refreshing {
        return false;
      }
      refreshing := true;
      began := true;
    }

    /** The second critical section of `refresh_all_feeds`: release the flag. */
    method EndRefresh()
      modifies this
      ensures !refreshing
    {
      refreshing := false;
    }

    /** `refresh_all_feeds`: when no cycle is running, run one and clear the flag afterwards;
        otherwise return at once, changing nothing. */
    method RefreshAllFeeds(fetch: string -> Download, now: string)
      requires db.Valid()
      modifies this, db
      ensures db.Valid()
      ensures old(refreshing) ==> refreshing && db.feeds == old(db.feeds) && db.items == old(db.items)
      ensures !old(refreshing) ==>
        && !refreshing
        && Tables(db.feeds, db.items) == Cycle(Tables(old(db.feeds), old(db.items)), old(db.feeds), fetch, now)
    {
      var began := TryBeginRefresh();
      if !began {
        return;
      }
      DoRefreshAll(fetch, now);
      EndRefresh();
    }

    /** `do_refresh_all`: refresh every stored feed in id order; record each attempt with the
        refresh's error, or None when it succeeded. */
    method DoRefreshAll(fetch: string -> Download, now: string)
      requires db.Valid()
      modifies db
      ensures db.Valid()
      ensures Tables(db.feeds, db.items) == Cycle(Tables(old(db.feeds), old(db.items)), old(db.feeds), fetch, now)
    {
      var feeds := db.GetAllFeeds();
      ghost var start := Tables(db.feeds, db.items);
      var k := 0;
      while k < |feeds|
        invariant 0 <= k <= |feeds|
        invariant db.Valid()
        invariant Tables(db.feeds, db.items) == Cycle(start, feeds[..k], fetch, now)
      {
        var feed := feeds[k];
        ghost var before := Tables(db.feeds, db.items);
        var r := RefreshFeed(feed, fetch(feed.url));
        var error := if r.Fail? then Some(r.error) else None;
        db.UpdateFeedFetched(feed.id, now, error, None);
        CycleStepIs(before, feed, fetch(feed.url), now, r, Tables(db.feeds, db.items));
        CyclePrefix(start, feeds, fetch, now, k);
        k := k + 1;
      }
      assert feeds[..k] == feeds;
    }

    /** The loop body of `refresh_feed` for one entry: skip it when it has no link, otherwise
        work out its discussion link and upsert it. */
    method StoreEntry(feed: Feed, e: Entry, comments: map<string, string>) returns (stored: Outcome<StoreError>)
      requires db.Valid()
      modifies db
      ensures db.Valid() && db.feeds == old(db.feeds)
      ensures !Linked(e) ==> stored.Pass? && db.items == old(db.items)
      ensures Linked(e) ==> (stored.Fail? <==> FindById(db.feeds, feed.id).None?)
      ensures stored.Pass? && Linked(e) ==> db.items == Upserted(old(db.items), EntryFields(feed, e, comments))
      ensures stored.Fail? ==> db.items == old(db.items)
    {
      var link := MainLink(e);
      if link == [] {
        return Pass;
      }
      var discussion := ExtractDiscussionLink(feed, e, CommentsFor(comments, link), link);
      stored := db.UpsertItem(feed.id, e.id, TitleOf(e), link, discussion, PublishedOf(e));
    }

    /** `refresh_feed`: download, pair links with XML comments, parse, and upsert each entry
        that has a link; the first failure ends the refresh with its message. */
    method RefreshFeed(feed: Feed, download: Download) returns (r: Outcome<string>)
      requires db.Valid()
      modifies db
      ensures db.Valid()
      ensures db.feeds == old(db.feeds)
      ensures (r, db.items) == Refreshed(old(db.feeds), old(db.items), feed, download)
    {
      if download.FetchFailed? {
        return Fail(download.message);
      }
      var comments := ExtractCommentsFromXml(download.body);
      if download.parse.ParseFailed? {
        return Fail(download.parse.message);
      }
      r := StoreEntries(feed, download.parse.entries, comments);
      RefreshedIs(old(db.feeds), old(db.items), feed, download.body, download.parse.entries, r, db.items);
    }

    /** The loop of `refresh_feed` over the parsed entries, in order; the first failed upsert
        ends it. */
    method StoreEntries(feed: Feed, entries: seq<Entry>, comments: map<string, string>) returns (r: Outcome<string>)
      requires db.Valid()
      modifies db
      ensures db.Valid() && db.feeds == old(db.feeds)
      ensures FindById(db.feeds, feed.id).Some? ==> r == Pass && db.items == Ingested(old(db.items), feed, entries, comments)
      ensures FindById(db.feeds, feed.id).None? ==> db.items == old(db.items)
      ensures FindById(db.feeds, feed.id).None? ==>
        (r == Pass <==> forall j | 0 <= j < |entries| :: !Linked(entries[j]))
      ensures r.Fail? ==> r.error == ForeignKeyMessage
    {
      ghost var known := FindById(db.feeds, feed.id).Some?;
      var k := 0;
      while k < |entries|
        invariant 0 <= k <= |entries|
        invariant db.Valid() && db.feeds == old(db.feeds)
        invariant known ==> db.items == Ingested(old(db.items), feed, entries[..k], comments)
        invariant !known ==> db.items == old(db.items) && forall j | 0 <= j < k :: !Linked(entries[j])
      {
        ghost var prev := db.items;
        var stored := StoreEntry(feed, entries[k], comments);
        StoreStep(known, old(db.items), prev, db.items, feed, entries, comments, k, stored);
        if stored.Fail? {
          return Fail(ForeignKeyMessage);
        }
        k := k + 1;
      }
      assert entries[..k] == entries;
      r := Pass;
    }
  }
}
