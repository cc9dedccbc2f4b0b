/** The `feeds` table of the store (src/db.rs): rows in id order with unique URLs, the
    insert-or-update of `sync_feeds` keyed by URL, and the status update of
    `update_feed_fetched`, all as functions over the sequence of rows. */
module FeedTable {
  import opened Wrappers

  /** A row of `feeds`. `lastFetched` is the RFC 3339 text of the last attempt. */
  datatype Feed = Feed(
    id: int,
    name: string,
    url: string,
    hasDiscussion: bool,
    lastFetched: Option<string>,
    lastError: Option<string>,
    homepageUrl: Option<string>)

  /** One `[[feeds]]` entry of the configuration. */
  datatype FeedConfig = FeedConfig(name: string, url: string, hasDiscussion: bool)

  // ---------------------------------------------------------------------------------------
  // Table invariant

  /** Rowids: positive and strictly increasing in insertion order. */
  ghost predicate IdsIncreasing(feeds: seq<Feed>) {
    && (forall i | 0 <= i < |feeds| :: feeds[i].id >= 1)
    && (forall i, j | 0 <= i < j < |feeds| :: feeds[i].id < feeds[j].id)
  }

  /** `url TEXT NOT NULL UNIQUE`. */
  ghost predicate UrlsUnique(feeds: seq<Feed>) {
    forall i, j | 0 <= i < j < |feeds| :: feeds[i].url != feeds[j].url
  }

  ghost predicate WellFormed(feeds: seq<Feed>) {
    IdsIncreasing(feeds) && UrlsUnique(feeds)
  }

  /** The rowid SQLite gives the next inserted row: one more than the largest, 1 in an empty table. */
  function NextId(feeds: seq<Feed>): (id: int)
    ensures IdsIncreasing(feeds) ==> id >= 1 && forall i | 0 <= i < |feeds| :: feeds[i].id < id
  {
    if feeds == [] then 1 else feeds[|feeds| - 1].id + 1
  }

  /** The row with this URL. */
  function FindByUrl(feeds: seq<Feed>, url: string): (r: Option<nat>)
    ensures r.Some? ==> r.value < |feeds| && feeds[r.value].url == url
    ensures r.Some? ==> forall j | 0 <= j < r.value :: feeds[j].url != url
    ensures r.None? ==> forall j | 0 <= j < |feeds| :: feeds[j].url != url
  {
    if feeds == [] then None
    else if feeds[0].url == url then Some(0)
    else
      match FindByUrl(feeds[1..], url)
      case None => None
      case Some(j) => Some(j + 1)
  }

  /** `WHERE id = ?`: the row with this id. */
  function FindById(feeds: seq<Feed>, id: int): (r: Option<nat>)
    ensures r.Some? ==> r.value < |feeds| && feeds[r.value].id == id
    ensures r.None? ==> forall j | 0 <= j < |feeds| :: feeds[j].id != id
  {
    if feeds == [] then None
    else if feeds[0].id == id then Some(0)
    else
      match FindById(feeds[1..], id)
      case None => None
      case Some(j) => Some(j + 1)
  }

  /** The columns that neither `sync_feeds` nor a later sync ever changes on an existing row. */
  predicate SameIdentity(a: Feed, b: Feed) {
    && a.id == b.id
    && a.url == b.url
    && a.lastFetched == b.lastFetched
    && a.lastError == b.lastError
    && a.homepageUrl == b.homepageUrl
  }

  // ---------------------------------------------------------------------------------------
  // sync_feeds

  /** `INSERT INTO feeds (name, url, has_discussion) ... ON CONFLICT(url) DO UPDATE SET
      name, has_discussion`, for one configuration entry. */
  function Synced(feeds: seq<Feed>, c: FeedConfig): (r: seq<Feed>)
    ensures |r| == |feeds| <==> FindByUrl(feeds, c.url).Some?
    ensures |r| == |feeds| || |r| == |feeds| + 1
  {
    match FindByUrl(feeds, c.url)
    case Some(i) => feeds[i := feeds[i].(name := c.name, hasDiscussion := c.hasDiscussion)]
    case None => feeds + [Feed(NextId(feeds), c.name, c.url, c.hasDiscussion, None, None, None)]
  }

  /** `sync_feeds`: the entries applied one after another, in configuration order. */
  function SyncedAll(feeds: seq<Feed>, configs: seq<FeedConfig>): seq<Feed>
    decreases |configs|
  {
    if configs == [] then feeds
    else Synced(SyncedAll(feeds, configs[..|configs| - 1]), configs[|configs| - 1])
  }

  /** Every row of `before` is still at its place in `after`, with its identity. */
  ghost predicate IdentitiesKept(before: seq<Feed>, after: seq<Feed>) {
    && |before| <= |after|
    && forall i | 0 <= i < |before| :: SameIdentity(after[i], before[i])
  }

  /** One entry keeps the invariant, keeps every row's identity and adds at most a row. */
  lemma SyncedKeeps(feeds: seq<Feed>, c: FeedConfig)
    requires WellFormed(feeds)
    ensures var r := Synced(feeds, c);
      && WellFormed(r)
      && IdentitiesKept(feeds, r)
      && |r| <= |feeds| + 1
      && (forall i | |feeds| <= i < |r| :: r[i] == Feed(NextId(feeds), c.name, c.url, c.hasDiscussion, None, None, None))
      && FindByUrl(r, c.url).Some?
      && r[FindByUrl(r, c.url).value].name == c.name
      && r[FindByUrl(r, c.url).value].hasDiscussion == c.hasDiscussion
  {
    match FindByUrl(feeds, c.url)
    case Some(i) => SyncedUpdate(feeds, c, i);
    case None => SyncedInsert(feeds, c);
  }

  /** The update of the row that has the URL. */
  lemma SyncedUpdate(feeds: seq<Feed>, c: FeedConfig, i: nat)
    requires WellFormed(feeds) && FindByUrl(feeds, c.url) == Some(i)
    ensures var r := feeds[i := feeds[i].(name := c.name, hasDiscussion := c.hasDiscussion)];
      && WellFormed(r)
      && |r| == |feeds|
      && IdentitiesKept(feeds, r)
      && FindByUrl(r, c.url) == Some(i)
  {
    var r := feeds[i := feeds[i].(name := c.name, hasDiscussion := c.hasDiscussion)];
    assert forall j | 0 <= j < |r| :: r[j].id == feeds[j].id && r[j].url == feeds[j].url;
    assert forall j | 0 <= j < i :: r[j] == feeds[j];
    FindByUrlAt(r, c.url, i);
  }

  /** The insert of a row for a new URL. */
  lemma SyncedInsert(feeds: seq<Feed>, c: FeedConfig)
    requires WellFormed(feeds) && FindByUrl(feeds, c.url).None?
    ensures var r := feeds + [Feed(NextId(feeds), c.name, c.url, c.hasDiscussion, None, None, None)];
      && WellFormed(r)
      && IdentitiesKept(feeds, r)
      && FindByUrl(r, c.url) == Some(|feeds|)
  {
    var r := feeds + [Feed(NextId(feeds), c.name, c.url, c.hasDiscussion, None, None, None)];
    assert forall j | 0 <= j < |feeds| :: r[j] == feeds[j];
    FindByUrlAt(r, c.url, |feeds|);
  }

  /** The first row with the URL is where the lookup stops. */
  lemma FindByUrlAt(feeds: seq<Feed>, url: string, i: nat)
    requires i < |feeds| && feeds[i].url == url
    requires forall j | 0 <= j < i :: feeds[j].url != url
    ensures FindByUrl(feeds, url) == Some(i)
  {
    match FindByUrl(feeds, url)
    case Some(k) =>
    case None =>
  }

  /** An entry for another URL leaves a row alone. */
  lemma SyncedOtherUrl(feeds: seq<Feed>, c: FeedConfig, url: string)
    requires WellFormed(feeds) && url != c.url && FindByUrl(feeds, url).Some?
    ensures FindByUrl(Synced(feeds, c), url) == FindByUrl(feeds, url)
    ensures Synced(feeds, c)[FindByUrl(feeds, url).value] == feeds[FindByUrl(feeds, url).value]
  {
    var r := Synced(feeds, c);
    var i := FindByUrl(feeds, url).value;
    SyncedKeeps(feeds, c);
    assert forall j | 0 <= j < |feeds| :: r[j].url == feeds[j].url;
    match FindByUrl(feeds, c.url)
    case Some(k) =>
      assert k != i;
    case None =>
  }

  /** The URLs the configuration names. */
  function ConfiguredUrls(configs: seq<FeedConfig>): set<string>
    decreases |configs|
  {
    if configs == [] then {} else ConfiguredUrls(configs[..|configs| - 1]) + {configs[|configs| - 1].url}
  }

  /** Every row past the first `n` has never been fetched and has one of the URLs. */
  ghost predicate AddedUnfetched(r: seq<Feed>, n: nat, urls: set<string>) {
    forall i | n <= i < |r| ::
      && r[i].lastFetched.None? && r[i].lastError.None? && r[i].homepageUrl.None?
      && r[i].url in urls
  }

  /** `sync_feeds` keeps the table invariant, removes no feed, and leaves the id, URL and fetch
      status of every existing feed as they were; every row it adds is a configured URL that
      has never been fetched. */
  lemma {:induction false} SyncedAllKeeps(feeds: seq<Feed>, configs: seq<FeedConfig>)
    requires WellFormed(feeds)
    ensures var r := SyncedAll(feeds, configs);
      && WellFormed(r)
      && IdentitiesKept(feeds, r)
      && AddedUnfetched(r, |feeds|, ConfiguredUrls(configs))
    decreases |configs|
  {
    if configs != [] {
      var init := configs[..|configs| - 1];
      var c := configs[|configs| - 1];
      var prev := SyncedAll(feeds, init);
      SyncedAllKeeps(feeds, init);
      SyncedKeeps(prev, c);
      AddedStep(feeds, prev, Synced(prev, c), ConfiguredUrls(init), ConfiguredUrls(configs), c.url);
    }
  }

  /** One more sync keeps the identities and the added rows unfetched and configured. */
  lemma AddedStep(feeds: seq<Feed>, prev: seq<Feed>, r: seq<Feed>, before: set<string>, after: set<string>, url: string)
    requires before <= after && url in after
    requires IdentitiesKept(feeds, prev) && AddedUnfetched(prev, |feeds|, before)
    requires IdentitiesKept(prev, r)
    requires forall i | |prev| <= i < |r| :: r[i].url == url && r[i].lastFetched.None? && r[i].lastError.None? && r[i].homepageUrl.None?
    ensures IdentitiesKept(feeds, r) && AddedUnfetched(r, |feeds|, after)
  {
    forall i | |feeds| <= i < |r|
      ensures r[i].lastFetched.None? && r[i].lastError.None? && r[i].homepageUrl.None? && r[i].url in after
    {
      if i < |prev| {
        assert SameIdentity(r[i], prev[i]);
      }
    }
  }

  /** After `sync_feeds` every configured URL has a row, holding the name and discussion flag of
      the last entry that names that URL. */
  lemma {:induction false} SyncedAllReflects(feeds: seq<Feed>, configs: seq<FeedConfig>, k: nat)
    requires WellFormed(feeds) && k < |configs|
    requires forall m | k < m < |configs| :: configs[m].url != configs[k].url
    ensures var r := SyncedAll(feeds, configs);
      && FindByUrl(r, configs[k].url).Some?
      && r[FindByUrl(r, configs[k].url).value].name == configs[k].name
      && r[FindByUrl(r, configs[k].url).value].hasDiscussion == configs[k].hasDiscussion
    decreases |configs|
  {
    var init := configs[..|configs| - 1];
    var c := configs[|configs| - 1];
    var prev := SyncedAll(feeds, init);
    SyncedAllKeeps(feeds, init);
    if k == |configs| - 1 {
      SyncedKeeps(prev, c);
    } else {
      assert init[k] == configs[k];
      SyncedAllReflects(feeds, init, k);
      SyncedOtherUrl(prev, c, configs[k].url);
    }
  }

  /** A row with a given id survives a sync. */
  /** A feed whose URL no configuration entry names keeps its whole row, name and discussion
      flag included, at its place. */
  lemma {:induction false} SyncedAllOtherUrl(feeds: seq<Feed>, configs: seq<FeedConfig>, i: nat)
    requires WellFormed(feeds) && i < |feeds| && feeds[i].url !in ConfiguredUrls(configs)
    ensures i < |SyncedAll(feeds, configs)| && SyncedAll(feeds, configs)[i] == feeds[i]
    decreases |configs|
  {
    if configs != [] {
      var init, c := configs[..|configs| - 1], configs[|configs| - 1];
      SyncedAllOtherUrl(feeds, init, i);
      var prev := SyncedAll(feeds, init);
      var url := feeds[i].url;
      SyncedAllKeeps(feeds, init);
      FindByUrlAt(prev, url, i);
      SyncedOtherUrl(prev, c, url);
    }
  }

  lemma {:induction false} SyncedAllKeepsId(feeds: seq<Feed>, configs: seq<FeedConfig>, id: int)
    requires WellFormed(feeds) && FindById(feeds, id).Some?
    ensures FindById(SyncedAll(feeds, configs), id).Some?
  {
    SyncedAllKeeps(feeds, configs);
    var i := FindById(feeds, id).value;
    assert SyncedAll(feeds, configs)[i].id == id;
  }

  // ---------------------------------------------------------------------------------------
  // update_feed_fetched

  /** `SET last_fetched = now, last_error = error, homepage_url = COALESCE(homepage, homepage_url)`. */
  function Stamp(f: Feed, now: string, error: Option<string>, homepage: Option<string>): (r: Feed)
    ensures r.id == f.id && r.name == f.name && r.url == f.url && r.hasDiscussion == f.hasDiscussion
    ensures r.lastFetched == Some(now) && r.lastError == error
    ensures homepage.Some? ==> r.homepageUrl == homepage
    ensures homepage.None? ==> r.homepageUrl == f.homepageUrl
  {
    f.(lastFetched := Some(now),
       lastError := error,
       homepageUrl := if homepage.Some? then homepage else f.homepageUrl)
  }

  /** `UPDATE feeds SET ... WHERE id = feedId`. */
  function Stamped(feeds: seq<Feed>, feedId: int, now: string, error: Option<string>, homepage: Option<string>): seq<Feed> {
    seq(|feeds|, i requires 0 <= i < |feeds| =>
      if feeds[i].id == feedId then Stamp(feeds[i], now, error, homepage) else feeds[i])
  }

  /** The status update records the attempt time, replaces the error (None clears it), changes the
      homepage only when one is given, and leaves every other column and every other row alone. */
  lemma StampedRow(feeds: seq<Feed>, feedId: int, now: string, error: Option<string>, homepage: Option<string>, i: nat)
    requires i < |feeds|
    ensures var r := Stamped(feeds, feedId, now, error, homepage);
      && |r| == |feeds|
      && (feeds[i].id != feedId ==> r[i] == feeds[i])
      && (feeds[i].id == feedId ==>
            && r[i].lastFetched == Some(now)
            && r[i].lastError == error
            && (homepage.Some? ==> r[i].homepageUrl == homepage)
            && (homepage.None? ==> r[i].homepageUrl == feeds[i].homepageUrl)
            && r[i].(lastFetched := feeds[i].lastFetched, lastError := feeds[i].lastError,
                     homepageUrl := feeds[i].homepageUrl) == feeds[i])
  {
  }

  lemma StampedKeeps(feeds: seq<Feed>, feedId: int, now: string, error: Option<string>, homepage: Option<string>)
    requires WellFormed(feeds)
    ensures var r := Stamped(feeds, feedId, now, error, homepage);
      && WellFormed(r)
      && |r| == |feeds|
      && forall i | 0 <= i < |r| ::
           (&& r[i].id == feeds[i].id && r[i].url == feeds[i].url
            && r[i].name == feeds[i].name && r[i].hasDiscussion == feeds[i].hasDiscussion)
  {
  }
}
