/** The store of src/db.rs: a `Database` holding the `feeds` and `items` tables, with the
    configuration sync, the queries the web routes use, the item upsert and the feed status
    update. The SQL tables are sequences of rows kept in rowid order; each statement is one
    method or function over them. */
module Store {
  import opened Wrappers
  import opened FeedTable
  import opened ItemTable

  /** The one way a statement of the model can fail: `items.feed_id REFERENCES feeds(id)`,
      enforced because the connection turns foreign keys on. */
  datatype StoreError = ForeignKeyViolation

  class Database {
    var feeds: seq<Feed>
    var items: seq<Item>

    /** Both tables keep their keys, and every item belongs to a feed that exists. */
    ghost predicate Valid()
      reads this
    {
      && FeedTable.WellFormed(feeds)
      && ItemTable.WellFormed(items)
      && forall i | 0 <= i < |items| :: FindById(feeds, items[i].feedId).Some?
    }

    /** `new` followed by `initialize` on a fresh database: both tables exist and are empty. */
    constructor ()
      ensures Valid()
      ensures feeds == [] && items == []
    {
      feeds := [];
      items := [];
    }

    /** `sync_feeds`: for each configuration entry in order, insert the feed or, when its URL
        is already known, overwrite its name and discussion flag. */
    method SyncFeeds(configs: seq<FeedConfig>)
      requires Valid()
      modifies this
      ensures Valid()
      ensures feeds == SyncedAll(old(feeds), configs)
      ensures items == old(items)
    {
      var k := 0;
      while k < |configs|
        invariant 0 <= k <= |configs|
        invariant feeds == SyncedAll(old(feeds), configs[..k])
        invariant items == old(items)
        invariant Valid()
      {
        var c := configs[k];
        ghost var before := feeds;
        SyncKeepsReferences(feeds, items, c);
        match FindByUrl(feeds, c.url) {
          case Some(i) =>
            feeds := feeds[i := feeds[i].(name := c.name, hasDiscussion := c.hasDiscussion)];
          case None =>
            feeds := feeds + [Feed(FeedTable.NextId(feeds), c.name, c.url, c.hasDiscussion, None, None, None)];
        }
        assert feeds == Synced(before, c);
        assert configs[..k + 1][..k] == configs[..k];
        k := k + 1;
      }
      assert configs[..|configs|] == configs;
    }

    /** `get_all_feeds`: every feed, in ascending id order. */
    function GetAllFeeds(): (r: seq<Feed>)
      reads this
      requires Valid()
      ensures multiset(r) == multiset(feeds)
      ensures forall i, j | 0 <= i < j < |r| :: r[i].id < r[j].id
    {
      feeds
    }

    /** `get_feed`: the feed with this id, if there is one. */
    function GetFeed(feedId: int): (r: Option<Feed>)
      reads this
      ensures r.Some? ==> r.value in feeds && r.value.id == feedId
      ensures r.None? <==> forall f | f in feeds :: f.id != feedId
    {
      match FindById(feeds, feedId)
      case Some(i) => Some(feeds[i])
      case None => None
    }

    /** `get_item_count_for_feed`: how many items the feed has. */
    function GetItemCountForFeed(feedId: int): (n: nat)
      reads this
      ensures n <= |items|
      ensures n == |set i | 0 <= i < |items| && items[i].feedId == feedId|
      ensures n == 0 <==> forall x | x in items :: x.feedId != feedId
    {
      var rows := ItemsOfFeed(items, feedId);
      ItemsOfFeedCount(items, feedId);
      assert rows != [] ==> rows[0] in rows;
      |rows|
    }

    /** `get_items_for_feed`: one page of the feed's items, newest first with undated items
        last, ties broken by the later insertion. A negative `limit` means no limit and a
        negative `offset` counts as 0. */
    function GetItemsForFeed(feedId: int, limit: int, offset: int): (r: seq<Item>)
      reads this
      requires Valid()
      ensures forall x | x in r :: x in items && x.feedId == feedId
      ensures Sorted(r)
      ensures limit >= 0 && offset >= 0 ==> |r| == Max(0, Min(limit, GetItemCountForFeed(feedId) - offset))
      ensures limit >= 0 && offset < 0 ==> |r| == Min(limit, GetItemCountForFeed(feedId))
      ensures limit < 0 ==> |r| == Max(0, GetItemCountForFeed(feedId) - Max(0, offset))
      ensures RunAt(r, Listing(ItemsOfFeed(items, feedId)), Max(0, offset))
    {
      FeedPage(items, feedId, limit, offset);
      Page(Listing(ItemsOfFeed(items, feedId)), limit, offset)
    }

    /** `upsert_item`: store the entry under its (feed, guid) key, overwriting the columns of an
        item already stored with that key; fails, changing nothing, when the feed does not exist. */
    method UpsertItem(feedId: int, guid: string, title: string, link: string,
                      discussionLink: Option<string>, published: Option<string>)
      returns (r: Outcome<StoreError>)
      requires Valid()
      modifies this
      ensures Valid()
      ensures feeds == old(feeds)
      ensures r.Fail? <==> FindById(feeds, feedId).None?
      ensures r.Pass? ==> items == Upserted(old(items), ItemFields(feedId, guid, title, link, discussionLink, published))
      ensures r.Fail? ==> items == old(items) && r.error == ForeignKeyViolation
    {
      if FindById(feeds, feedId).None? {
        return Fail(ForeignKeyViolation);
      }
      var f := ItemFields(feedId, guid, title, link, discussionLink, published);
      UpsertWellFormed(items, f);
      match FindRow(items, feedId, guid) {
        case Some(i) =>
          items := items[i := items[i].(title := title, link := link, discussionLink := discussionLink, published := published)];
        case None =>
          items := items + [Item(ItemTable.NextId(items), feedId, guid, title, link, discussionLink, published)];
      }
      r := Pass;
    }

    /** `update_feed_fetched`: record an attempt at `now`, store its error (None clears the last
        one) and, when a homepage is given, the homepage. An unknown id changes nothing. */
    method UpdateFeedFetched(feedId: int, now: string, error: Option<string>, homepageUrl: Option<string>)
      requires Valid()
      modifies this
      ensures Valid()
      ensures feeds == Stamped(old(feeds), feedId, now, error, homepageUrl)
      ensures items == old(items)
    {
      StampedKeeps(feeds, feedId, now, error, homepageUrl);
      var stamped := Stamped(feeds, feedId, now, error, homepageUrl);
      forall id | FindById(feeds, id).Some?
        ensures FindById(stamped, id).Some?
      {
        assert stamped[FindById(feeds, id).value].id == id;
      }
      feeds := stamped;
    }
  }

  /** A sync keeps the table invariant and every feed an item refers to. */
  lemma SyncKeepsReferences(feeds: seq<Feed>, items: seq<Item>, c: FeedConfig)
    requires FeedTable.WellFormed(feeds)
    requires forall i | 0 <= i < |items| :: FindById(feeds, items[i].feedId).Some?
    ensures FeedTable.WellFormed(Synced(feeds, c))
    ensures forall i | 0 <= i < |items| :: FindById(Synced(feeds, c), items[i].feedId).Some?
  {
    SyncedKeeps(feeds, c);
    forall i | 0 <= i < |items|
      ensures FindById(Synced(feeds, c), items[i].feedId).Some?
    {
      assert Synced(feeds, c)[FindById(feeds, items[i].feedId).value].id == items[i].feedId;
    }
  }

  /** Walking the pages of a feed in steps of `limit` visits its listing without gaps or
      overlaps: page `offset` followed by page `offset + limit` is the page of twice the size. */
  lemma ConsecutivePages(db: Database, feedId: int, limit: nat, offset: nat)
    requires db.Valid()
    ensures db.GetItemsForFeed(feedId, limit, offset) + db.GetItemsForFeed(feedId, limit, offset + limit)
         == db.GetItemsForFeed(feedId, limit + limit, offset)
  {
    PagesAdjacent(Listing(ItemsOfFeed(db.items, feedId)), limit, offset);
  }

  /** The listing is determined by the stored rows alone: any sorted arrangement of the feed's
      items is the one `get_items_for_feed` returns when it asks for everything. */
  lemma ListingIsTheSortedOrder(db: Database, feedId: int, s: seq<Item>)
    requires db.Valid()
    requires Sorted(s) && multiset(s) == multiset(ItemsOfFeed(db.items, feedId))
    ensures db.GetItemsForFeed(feedId, -1, 0) == s
  {
    var rows := ItemsOfFeed(db.items, feedId);
    ItemsOfFeedIdsDistinct(db.items, feedId);
    ListingSorted(rows);
    SortedUnique(Listing(rows), s);
    assert Page(Listing(rows), -1, 0) == Listing(rows);
  }
}
