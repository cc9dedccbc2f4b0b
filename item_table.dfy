/** The `items` table of the store (src/db.rs): one row per (feed_id, guid), rows kept in
    insertion (rowid) order, the `ORDER BY published DESC NULLS LAST, id DESC` listing, the
    `LIMIT ? OFFSET ?` page and the insert-or-update of `upsert_item`, all as functions over
    the sequence of rows. */
module ItemTable {
  import opened Wrappers

  /** A row of `items`. `published` is the RFC 3339 text the store keeps. */
  datatype Item = Item(
    id: int,
    feedId: int,
    guid: string,
    title: string,
    link: string,
    discussionLink: Option<string>,
    published: Option<string>)

  /** The values one `upsert_item` call binds: the key (feedId, guid) and the four columns
      it writes. */
  datatype ItemFields = ItemFields(
    feedId: int,
    guid: string,
    title: string,
    link: string,
    discussionLink: Option<string>,
    published: Option<string>)

  function FieldsOf(it: Item): ItemFields {
    ItemFields(it.feedId, it.guid, it.title, it.link, it.discussionLink, it.published)
  }

  predicate HasKey(it: Item, feedId: int, guid: string) {
    it.feedId == feedId && it.guid == guid
  }

  // ---------------------------------------------------------------------------------------
  // Table invariant

  /** Rowids: positive and strictly increasing in insertion order. */
  ghost predicate IdsIncreasing(items: seq<Item>) {
    && (forall i | 0 <= i < |items| :: items[i].id >= 1)
    && (forall i, j | 0 <= i < j < |items| :: items[i].id < items[j].id)
  }

  /** UNIQUE(feed_id, guid). */
  ghost predicate KeysUnique(items: seq<Item>) {
    forall i, j | 0 <= i < j < |items| :: !HasKey(items[j], items[i].feedId, items[i].guid)
  }

  ghost predicate WellFormed(items: seq<Item>) {
    IdsIncreasing(items) && KeysUnique(items)
  }

  ghost predicate IdsDistinct(items: seq<Item>) {
    forall i, j | 0 <= i < j < |items| :: items[i].id != items[j].id
  }

  /** The rowid SQLite gives the next inserted row: one more than the largest, 1 in an empty table. */
  function NextId(items: seq<Item>): (id: int)
    ensures IdsIncreasing(items) ==> id >= 1 && forall i | 0 <= i < |items| :: items[i].id < id
  {
    if items == [] then 1 else items[|items| - 1].id + 1
  }

  // ---------------------------------------------------------------------------------------
  // Selection and count

  /** `WHERE feed_id = ?`: the rows of one feed, in table order. */
  function ItemsOfFeed(items: seq<Item>, feedId: int): (r: seq<Item>)
    ensures |r| <= |items|
    ensures forall x | x in r :: x in items && x.feedId == feedId
    ensures forall x | x in items && x.feedId == feedId :: x in r
  {
    if items == [] then []
    else
      var last := items[|items| - 1];
      assert items == items[..|items| - 1] + [last];
      ItemsOfFeed(items[..|items| - 1], feedId) + (if last.feedId == feedId then [last] else [])
  }

  /** The selection holds each row of the feed as often as the table does, and no other row. */
  lemma {:induction false} ItemsOfFeedExact(items: seq<Item>, feedId: int)
    ensures forall x :: multiset(ItemsOfFeed(items, feedId))[x]
                        == if x.feedId == feedId then multiset(items)[x] else 0
  {
    if items != [] {
      var n := |items| - 1;
      var init, last := items[..n], items[n];
      ItemsOfFeedExact(init, feedId);
      assert items == init + [last];
      assert multiset(items) == multiset(init) + multiset{last};
    }
  }

  /** The positions of the feed's rows in the table. */
  ghost function RowsOf(items: seq<Item>, feedId: int): set<int> {
    set i | 0 <= i < |items| && items[i].feedId == feedId
  }

  /** `COUNT(*) ... WHERE feed_id = ?`: the selection has one row per matching row of the table. */
  lemma {:induction false} ItemsOfFeedCount(items: seq<Item>, feedId: int)
    ensures |ItemsOfFeed(items, feedId)| == |RowsOf(items, feedId)|
  {
    if items != [] {
      var n := |items| - 1;
      ItemsOfFeedCount(items[..n], feedId);
      RowsOfSnoc(items, feedId);
    }
  }

  lemma RowsOfSnoc(items: seq<Item>, feedId: int)
    requires items != []
    ensures var n := |items| - 1;
      && n !in RowsOf(items[..n], feedId)
      && RowsOf(items, feedId) == RowsOf(items[..n], feedId) + (if items[n].feedId == feedId then {n} else {})
  {
    var n := |items| - 1;
    var init := items[..n];
    forall i | 0 <= i < n ensures items[i] == init[i] {
    }
  }

  /** The selection keeps the table order: with ids increasing in the table, they increase
      in the selection too. */
  lemma {:induction false} ItemsOfFeedInOrder(items: seq<Item>, feedId: int)
    requires IdsIncreasing(items)
    ensures IdsIncreasing(ItemsOfFeed(items, feedId))
  {
    if items != [] {
      var n := |items| - 1;
      var init, last := items[..n], items[n];
      assert IdsIncreasing(init) by {
        forall i | 0 <= i < n ensures init[i] == items[i] {
        }
      }
      ItemsOfFeedInOrder(init, feedId);
      if last.feedId == feedId {
        var prev := ItemsOfFeed(init, feedId);
        forall x | x in prev ensures x.id < last.id {
          var m :| 0 <= m < n && init[m] == x;
          assert items[m] == x;
        }
        IncreasingSnoc(prev, last);
      }
    }
  }

  lemma IncreasingSnoc(s: seq<Item>, x: Item)
    requires IdsIncreasing(s) && x.id >= 1
    requires forall y | y in s :: y.id < x.id
    ensures IdsIncreasing(s + [x])
  {
    var r := s + [x];
    forall i, j | 0 <= i < j < |r| ensures r[i].id < r[j].id {
      if j == |s| {
        assert r[i] == s[i];
      } else {
        assert r[i] == s[i] && r[j] == s[j];
      }
    }
    forall i | 0 <= i < |r| ensures r[i].id >= 1 {
      if i < |s| {
        assert r[i] == s[i];
      }
    }
  }

  /** Selecting keeps ids distinct. */
  lemma {:induction false} ItemsOfFeedIdsDistinct(items: seq<Item>, feedId: int)
    requires IdsDistinct(items)
    ensures IdsDistinct(ItemsOfFeed(items, feedId))
  {
    if items != [] {
      var init := items[..|items| - 1];
      var last := items[|items| - 1];
      ItemsOfFeedIdsDistinct(init, feedId);
      var r := ItemsOfFeed(init, feedId);
      forall x | x in r ensures x.id != last.id {
        var k :| 0 <= k < |init| && init[k] == x;
      }
    }
  }

  // ---------------------------------------------------------------------------------------
  // Listing order

  /** Text order as the store compares TEXT (the BINARY collation compares UTF-8 bytes, and
      UTF-8 byte order is code point order): strictly lexicographic. */
  predicate TextLess(a: string, b: string) {
    if a == [] then b != []
    else if b == [] then false
    else if a[0] != b[0] then a[0] < b[0]
    else TextLess(a[1..], b[1..])
  }

  lemma {:induction false} TextLessIrreflexive(a: string)
    ensures !TextLess(a, a)
  {
    if a != [] {
      TextLessIrreflexive(a[1..]);
    }
  }

  lemma {:induction false} TextLessTransitive(a: string, b: string, c: string)
    requires TextLess(a, b) && TextLess(b, c)
    ensures TextLess(a, c)
  {
    if a != [] && a[0] == b[0] && b[0] == c[0] {
      TextLessTransitive(a[1..], b[1..], c[1..]);
    }
  }

  lemma {:induction false} TextLessAsymmetric(a: string, b: string)
    requires TextLess(a, b)
    ensures !TextLess(b, a)
  {
    if a != [] && a[0] == b[0] {
      TextLessAsymmetric(a[1..], b[1..]);
    }
  }

  lemma {:induction false} TextLessTotal(a: string, b: string)
    requires a != b
    ensures TextLess(a, b) || TextLess(b, a)
  {
    if a != [] && b != [] && a[0] == b[0] {
      assert a == [a[0]] + a[1..] && b == [b[0]] + b[1..];
      TextLessTotal(a[1..], b[1..]);
    }
  }

  /** `ORDER BY published DESC NULLS LAST, id DESC`: `a` is listed before `b`. */
  predicate ListedBefore(a: Item, b: Item) {
    match (a.published, b.published)
    case (Some(p), Some(q)) => TextLess(q, p) || (p == q && a.id > b.id)
    case (Some(_), None) => true
    case (None, Some(_)) => false
    case (None, None) => a.id > b.id
  }

  lemma ListedBeforeAsymmetric(a: Item, b: Item)
    requires ListedBefore(a, b)
    ensures !ListedBefore(b, a)
  {
    if a.published.Some? && b.published.Some? {
      var p, q := a.published.value, b.published.value;
      if TextLess(q, p) {
        TextLessAsymmetric(q, p);
      } else {
        TextLessIrreflexive(p);
      }
    }
  }

  lemma ListedBeforeTransitive(a: Item, b: Item, c: Item)
    requires ListedBefore(a, b) && ListedBefore(b, c)
    ensures ListedBefore(a, c)
  {
    if a.published.Some? && b.published.Some? && c.published.Some? {
      var p, q, r := a.published.value, b.published.value, c.published.value;
      if TextLess(q, p) && TextLess(r, q) {
        TextLessTransitive(r, q, p);
      }
    }
  }

  /** Two rows with different ids are always ordered one way or the other. */
  lemma ListedBeforeTotal(a: Item, b: Item)
    requires a.id != b.id
    ensures ListedBefore(a, b) || ListedBefore(b, a)
  {
    if a.published.Some? && b.published.Some? && a.published != b.published {
      TextLessTotal(a.published.value, b.published.value);
    }
  }

  ghost predicate Sorted(s: seq<Item>) {
    forall i, j | 0 <= i < j < |s| :: ListedBefore(s[i], s[j])
  }

  /** Rows with a `published` value come before every row without one. */
  lemma NullsLast(s: seq<Item>, i: int, j: int)
    requires Sorted(s) && 0 <= i < |s| && 0 <= j < |s|
    requires s[i].published.Some? && s[j].published.None?
    ensures i < j
  {
  }

  /** Places `x` in front of the first row it is listed before. */
  function Insert(x: Item, s: seq<Item>): (r: seq<Item>)
    ensures multiset(r) == multiset(s) + multiset{x}
  {
    if s == [] then [x]
    else if ListedBefore(x, s[0]) then [x] + s
    else
      assert s == [s[0]] + s[1..];
      [s[0]] + Insert(x, s[1..])
  }

  /** The rows in listing order (an insertion sort). */
  function Listing(s: seq<Item>): (r: seq<Item>)
    ensures multiset(r) == multiset(s)
  {
    if s == [] then []
    else
      assert s == [s[0]] + s[1..];
      Insert(s[0], Listing(s[1..]))
  }

  lemma {:induction false} InsertSorted(x: Item, s: seq<Item>)
    requires Sorted(s)
    requires forall y | y in s :: y.id != x.id
    ensures Sorted(Insert(x, s))
  {
    if s == [] {
    } else if ListedBefore(x, s[0]) {
      BeforeAll(x, s);
      SortedCons(x, s);
    } else {
      ListedBeforeTotal(x, s[0]);
      SortedTail(s);
      InsertSorted(x, s[1..]);
      HeadBeforeInserted(x, s, Insert(x, s[1..]));
      SortedCons(s[0], Insert(x, s[1..]));
    }
  }

  lemma SortedTail(s: seq<Item>)
    requires Sorted(s) && s != []
    ensures Sorted(s[1..])
  {
    forall i, j | 0 <= i < j < |s| - 1 ensures ListedBefore(s[1..][i], s[1..][j]) {
      assert s[1..][i] == s[i + 1] && s[1..][j] == s[j + 1];
    }
  }

  /** A row listed before every row of a sorted run can head it. */
  lemma SortedCons(a: Item, t: seq<Item>)
    requires Sorted(t) && forall k | 0 <= k < |t| :: ListedBefore(a, t[k])
    ensures Sorted([a] + t)
  {
    var r := [a] + t;
    forall i, j | 0 <= i < j < |r| ensures ListedBefore(r[i], r[j]) {
      if i == 0 {
        assert r[j] == t[j - 1];
      } else {
        assert r[i] == t[i - 1] && r[j] == t[j - 1];
      }
    }
  }

  /** Listed before the head of a sorted run, listed before all of it. */
  lemma BeforeAll(x: Item, s: seq<Item>)
    requires Sorted(s) && s != [] && ListedBefore(x, s[0])
    ensures forall k | 0 <= k < |s| :: ListedBefore(x, s[k])
  {
    forall k | 0 < k < |s| ensures ListedBefore(x, s[k]) {
      ListedBeforeTransitive(x, s[0], s[k]);
    }
  }

  /** The head of a sorted run is listed before the rest of it with `x` added, when it is
      listed before `x`. */
  lemma HeadBeforeInserted(x: Item, s: seq<Item>, t: seq<Item>)
    requires Sorted(s) && s != [] && ListedBefore(s[0], x)
    requires multiset(t) == multiset(s[1..]) + multiset{x}
    ensures forall k | 0 <= k < |t| :: ListedBefore(s[0], t[k])
  {
    forall k | 0 <= k < |t| ensures ListedBefore(s[0], t[k]) {
      assert t[k] in multiset(t);
      if t[k] != x {
        assert t[k] in multiset(s[1..]);
        var m :| 0 <= m < |s[1..]| && s[1..][m] == t[k];
        assert s[m + 1] == t[k];
      }
    }
  }

  /** Rows with distinct ids come out of `Listing` in listing order. */
  lemma {:induction false} ListingSorted(s: seq<Item>)
    requires IdsDistinct(s)
    ensures Sorted(Listing(s))
  {
    if s != [] {
      var t := Listing(s[1..]);
      assert IdsDistinct(s[1..]) by {
        forall i, j | 0 <= i < j < |s[1..]| ensures s[1..][i].id != s[1..][j].id {
          assert s[1..][i] == s[i + 1] && s[1..][j] == s[j + 1];
        }
      }
      ListingSorted(s[1..]);
      forall y | y in t ensures y.id != s[0].id {
        assert y in multiset(t);
        var m :| 0 <= m < |s[1..]| && s[1..][m] == y;
        assert s[m + 1] == y;
      }
      InsertSorted(s[0], t);
    }
  }

  /** The listing order leaves no freedom: two sorted arrangements of the same rows are equal. */
  lemma {:induction false} SortedUnique(a: seq<Item>, b: seq<Item>)
    requires Sorted(a) && Sorted(b) && multiset(a) == multiset(b)
    ensures a == b
  {
    assert |a| == |multiset(a)| == |multiset(b)| == |b|;
    if a != [] {
      SameHead(a, b);
      SameRest(a, b);
      SortedTail(a);
      SortedTail(b);
      SortedUnique(a[1..], b[1..]);
      assert a == [a[0]] + a[1..] && b == [b[0]] + b[1..];
    }
  }

  /** Two sorted arrangements of the same rows start with the same row. */
  lemma SameHead(a: seq<Item>, b: seq<Item>)
    requires Sorted(a) && Sorted(b) && multiset(a) == multiset(b) && a != [] && b != []
    ensures a[0] == b[0]
  {
    if a[0] != b[0] {
      assert a[0] in multiset(b);
      var k :| 0 <= k < |b| && b[k] == a[0];
      assert b[0] in multiset(a);
      var m :| 0 <= m < |a| && a[m] == b[0];
      assert ListedBefore(b[0], a[0]);
      assert ListedBefore(a[0], b[0]);
      ListedBeforeAsymmetric(a[0], b[0]);
    }
  }

  /** Taking the same first row off the same rows leaves the same rows. */
  lemma SameRest(a: seq<Item>, b: seq<Item>)
    requires multiset(a) == multiset(b) && a != [] && b != [] && a[0] == b[0]
    ensures multiset(a[1..]) == multiset(b[1..])
  {
    assert a == [a[0]] + a[1..] && b == [b[0]] + b[1..];
    assert multiset(a[1..]) == multiset(a) - multiset{a[0]};
    assert multiset(b[1..]) == multiset(b) - multiset{b[0]};
  }

  // ---------------------------------------------------------------------------------------
  // Pages

  function Min(a: int, b: int): int { if a <= b then a else b }
  function Max(a: int, b: int): int { if a >= b then a else b }

  /** `r` is the run of `s` that starts at `start`. */
  ghost predicate RunAt(r: seq<Item>, s: seq<Item>, start: int) {
    forall k | 0 <= k < |r| :: 0 <= start + k < |s| && r[k] == s[start + k]
  }

  /** `LIMIT limit OFFSET offset`: a negative limit means no limit and a negative offset
      counts as 0. The page is the run of rows starting at the offset, cut at the limit. */
  function Page(s: seq<Item>, limit: int, offset: int): (r: seq<Item>)
    ensures limit >= 0 && offset >= 0 ==> |r| == Max(0, Min(limit, |s| - offset))
    ensures limit >= 0 && offset < 0 ==> |r| == Min(limit, |s|)
    ensures limit < 0 ==> |r| == Max(0, |s| - Max(0, offset))
    ensures r != [] ==> Max(0, offset) + |r| <= |s|
    ensures RunAt(r, s, Max(0, offset))
  {
    var start := if offset < 0 then 0 else Min(offset, |s|);
    var stop := if limit < 0 then |s| else Min(start + limit, |s|);
    s[start..stop]
  }

  /** A contiguous run of a sorted listing is sorted. */
  lemma SortedRun(s: seq<Item>, start: int, r: seq<Item>)
    requires Sorted(s)
    requires RunAt(r, s, start)
    ensures Sorted(r)
  {
    forall i, j | 0 <= i < j < |r| ensures ListedBefore(r[i], r[j]) {
      var a, b := r[i], r[j];
      assert 0 <= start + i < start + j < |s|;
      assert a == s[start + i] && b == s[start + j];
    }
  }

  /** A page of a feed's listing: rows of that feed, in listing order, taken from a listing as
      long as the feed's selection. */
  lemma FeedPage(items: seq<Item>, feedId: int, limit: int, offset: int)
    requires IdsDistinct(items)
    ensures var all := Listing(ItemsOfFeed(items, feedId));
      var r := Page(all, limit, offset);
      && |all| == |ItemsOfFeed(items, feedId)|
      && Sorted(r)
      && forall x | x in r :: x in items && x.feedId == feedId
  {
    var rows := ItemsOfFeed(items, feedId);
    ItemsOfFeedIdsDistinct(items, feedId);
    ListingSorted(rows);
    var listing := Listing(rows);
    assert |listing| == |multiset(listing)| == |multiset(rows)| == |rows|;
    var r := Page(listing, limit, offset);
    SortedRun(listing, Max(0, offset), r);
    forall x | x in r ensures x in items && x.feedId == feedId {
      assert x in multiset(listing);
    }
  }

  /** Consecutive pages are adjacent runs of one listing: page O and page O + L together are
      the page of size 2L at O. */
  lemma PagesAdjacent(s: seq<Item>, limit: nat, offset: nat)
    ensures Page(s, limit, offset) + Page(s, limit, offset + limit) == Page(s, limit + limit, offset)
  {
    var p1, p2, p := Page(s, limit, offset), Page(s, limit, offset + limit), Page(s, limit + limit, offset);
    assert |p1| + |p2| == |p|;
    forall k | 0 <= k < |p| ensures (p1 + p2)[k] == p[k] {
      if k >= |p1| {
        assert (p1 + p2)[k] == p2[k - |p1|];
      }
    }
  }

  // ---------------------------------------------------------------------------------------
  // Insert-or-update

  /** The first row with key (feedId, guid). */
  function FindRow(items: seq<Item>, feedId: int, guid: string): (r: Option<nat>)
    ensures r.Some? ==> r.value < |items| && HasKey(items[r.value], feedId, guid)
    ensures r.Some? ==> forall j | 0 <= j < r.value :: !HasKey(items[j], feedId, guid)
    ensures r.None? ==> forall j | 0 <= j < |items| :: !HasKey(items[j], feedId, guid)
  {
    if items == [] then None
    else if HasKey(items[0], feedId, guid) then Some(0)
    else
      match FindRow(items[1..], feedId, guid)
      case None => None
      case Some(j) => Some(j + 1)
  }

  lemma FindRowAt(items: seq<Item>, feedId: int, guid: string, i: nat)
    requires i < |items| && HasKey(items[i], feedId, guid)
    requires forall j | 0 <= j < i :: !HasKey(items[j], feedId, guid)
    ensures FindRow(items, feedId, guid) == Some(i)
  {
  }

  /** `INSERT ... ON CONFLICT(feed_id, guid) DO UPDATE SET title, link, discussion_link,
      published`: overwrite the row with that key, or append a new row with the next rowid. */
  function Upserted(items: seq<Item>, f: ItemFields): seq<Item> {
    match FindRow(items, f.feedId, f.guid)
    case Some(i) =>
      items[i := items[i].(title := f.title, link := f.link, discussionLink := f.discussionLink, published := f.published)]
    case None =>
      items + [Item(NextId(items), f.feedId, f.guid, f.title, f.link, f.discussionLink, f.published)]
  }

  /** The upsert keeps the table invariant. */
  lemma UpsertWellFormed(items: seq<Item>, f: ItemFields)
    requires WellFormed(items)
    ensures WellFormed(Upserted(items, f))
  {
    var r := Upserted(items, f);
    match FindRow(items, f.feedId, f.guid)
    case Some(i) =>
      assert forall j | 0 <= j < |r| :: r[j].id == items[j].id && r[j].feedId == items[j].feedId && r[j].guid == items[j].guid;
    case None =>
      assert forall j | 0 <= j < |items| :: r[j] == items[j];
  }

  /** Every row of `before` is still at its place in `after`, with its id and key. */
  ghost predicate RowsKept(before: seq<Item>, after: seq<Item>) {
    && |before| <= |after|
    && forall j | 0 <= j < |before| :: after[j].id == before[j].id && HasKey(after[j], before[j].feedId, before[j].guid)
  }

  lemma RowsKeptTrans(a: seq<Item>, b: seq<Item>, c: seq<Item>)
    requires RowsKept(a, b) && RowsKept(b, c)
    ensures RowsKept(a, c)
  {
  }

  /** The upsert keeps every row with its id and key, and adds at most one row, with the key
      written. */
  lemma UpsertKeepsRows(items: seq<Item>, f: ItemFields)
    ensures var r := Upserted(items, f);
      && RowsKept(items, r)
      && |r| <= |items| + 1
      && forall j | |items| <= j < |r| :: HasKey(r[j], f.feedId, f.guid)
  {
  }

  /** After the upsert exactly one row has the key, and it holds the values just written. */
  lemma UpsertedRow(items: seq<Item>, f: ItemFields)
    requires WellFormed(items)
    ensures var r := Upserted(items, f);
      && FindRow(r, f.feedId, f.guid).Some?
      && FieldsOf(r[FindRow(r, f.feedId, f.guid).value]) == f
      && forall j | 0 <= j < |r| && HasKey(r[j], f.feedId, f.guid) :: j == FindRow(r, f.feedId, f.guid).value
  {
    var r := Upserted(items, f);
    UpsertWellFormed(items, f);
    match FindRow(items, f.feedId, f.guid)
    case Some(i) =>
      FindRowAt(r, f.feedId, f.guid, i);
    case None =>
      FindRowAt(r, f.feedId, f.guid, |items|);
  }

  /** Re-upserting a key keeps its row, and that row's id, where they were, and leaves every
      other row as it was; the table does not grow. */
  lemma UpsertExistingKeepsId(items: seq<Item>, f: ItemFields, i: nat)
    requires i < |items| && HasKey(items[i], f.feedId, f.guid)
    requires KeysUnique(items)
    ensures |Upserted(items, f)| == |items|
    ensures Upserted(items, f)[i].id == items[i].id
    ensures FieldsOf(Upserted(items, f)[i]) == f
    ensures forall j | 0 <= j < |items| && j != i :: Upserted(items, f)[j] == items[j]
  {
    assert FindRow(items, f.feedId, f.guid) == Some(i);
  }

  /** A new key adds one row at the end, with an id above every existing id. */
  lemma UpsertNewKeyAppends(items: seq<Item>, f: ItemFields)
    requires IdsIncreasing(items)
    requires forall j | 0 <= j < |items| :: !HasKey(items[j], f.feedId, f.guid)
    ensures var r := Upserted(items, f);
      && |r| == |items| + 1
      && r[..|items|] == items
      && FieldsOf(r[|items|]) == f
      && forall j | 0 <= j < |items| :: items[j].id < r[|items|].id
  {
  }

  /** Repeating an upsert with the same values changes nothing. */
  lemma UpsertIdempotent(items: seq<Item>, f: ItemFields)
    ensures Upserted(Upserted(items, f), f) == Upserted(items, f)
  {
    var r := Upserted(items, f);
    match FindRow(items, f.feedId, f.guid)
    case Some(i) =>
      FindRowAt(r, f.feedId, f.guid, i);
    case None =>
      FindRowAt(r, f.feedId, f.guid, |items|);
  }

  /** An upsert leaves a row with another key where it was, as it was, and still found by its key. */
  lemma UpsertKeepsOtherRow(items: seq<Item>, f: ItemFields, i: nat)
    requires KeysUnique(items)
    requires i < |items| && !HasKey(items[i], f.feedId, f.guid)
    ensures |items| <= |Upserted(items, f)|
    ensures Upserted(items, f)[i] == items[i]
    ensures FindRow(items, items[i].feedId, items[i].guid) == Some(i)
         ==> FindRow(Upserted(items, f), items[i].feedId, items[i].guid) == Some(i)
  {
    var r := Upserted(items, f);
    match FindRow(items, f.feedId, f.guid)
    case Some(j) =>
      assert j != i;
    case None =>
  }

  lemma {:induction false} ItemsOfFeedUpdate(items: seq<Item>, i: nat, x: Item, feedId: int)
    requires i < |items| && items[i].feedId == x.feedId
    ensures |ItemsOfFeed(items[i := x], feedId)| == |ItemsOfFeed(items, feedId)|
    ensures x.feedId != feedId ==> ItemsOfFeed(items[i := x], feedId) == ItemsOfFeed(items, feedId)
  {
    var n := |items|;
    var u := items[i := x];
    if i < n - 1 {
      assert u[..n - 1] == items[..n - 1][i := x];
      ItemsOfFeedUpdate(items[..n - 1], i, x, feedId);
    } else {
      assert u[..n - 1] == items[..n - 1];
    }
    ItemsOfFeedGlue(u, items, feedId);
  }

  /** Two non-empty tables whose last rows belong to the same feed select as many rows when
      their prefixes do, and the same rows when their prefixes do and their last rows agree or
      are not selected. */
  lemma ItemsOfFeedGlue(a: seq<Item>, b: seq<Item>, feedId: int)
    requires a != [] && b != [] && a[|a| - 1].feedId == b[|b| - 1].feedId
    ensures |ItemsOfFeed(a[..|a| - 1], feedId)| == |ItemsOfFeed(b[..|b| - 1], feedId)|
            ==> |ItemsOfFeed(a, feedId)| == |ItemsOfFeed(b, feedId)|
    ensures ItemsOfFeed(a[..|a| - 1], feedId) == ItemsOfFeed(b[..|b| - 1], feedId)
            && (a[|a| - 1] == b[|b| - 1] || a[|a| - 1].feedId != feedId)
            ==> ItemsOfFeed(a, feedId) == ItemsOfFeed(b, feedId)
  {
    ItemsOfFeedLast(a, feedId);
    ItemsOfFeedLast(b, feedId);
  }

  /** The selection of a non-empty table: that of all rows but the last, then the last if it
      belongs to the feed. */
  lemma ItemsOfFeedLast(items: seq<Item>, feedId: int)
    requires items != []
    ensures ItemsOfFeed(items, feedId)
         == ItemsOfFeed(items[..|items| - 1], feedId)
            + (if items[|items| - 1].feedId == feedId then [items[|items| - 1]] else [])
  {
  }

  lemma ItemsOfFeedAppend(items: seq<Item>, x: Item, feedId: int)
    ensures ItemsOfFeed(items + [x], feedId) == ItemsOfFeed(items, feedId) + (if x.feedId == feedId then [x] else [])
  {
    assert (items + [x])[..|items|] == items;
  }

  /** The upsert touches one feed only: the number of rows of the upserted feed grows by one
      exactly when the key was new, and the rows of every other feed stay as they were. */
  lemma UpsertCounts(items: seq<Item>, f: ItemFields, feedId: int)
    ensures var n := |ItemsOfFeed(items, feedId)|;
      |ItemsOfFeed(Upserted(items, f), feedId)|
        == if feedId == f.feedId && FindRow(items, f.feedId, f.guid).None? then n + 1 else n
    ensures feedId != f.feedId ==> ItemsOfFeed(Upserted(items, f), feedId) == ItemsOfFeed(items, feedId)
  {
    match FindRow(items, f.feedId, f.guid)
    case Some(i) =>
      var x := items[i].(title := f.title, link := f.link, discussionLink := f.discussionLink, published := f.published);
      ItemsOfFeedUpdate(items, i, x, feedId);
    case None =>
      ItemsOfFeedAppend(items, Item(NextId(items), f.feedId, f.guid, f.title, f.link, f.discussionLink, f.published), feedId);
  }

  /** No cross-feed merge: the same guid upserted under two feeds gives two rows, each with
      its own values, each selected only under its own feed. */
  lemma SameGuidTwoFeeds(items: seq<Item>, f1: ItemFields, f2: ItemFields)
    requires WellFormed(items)
    requires f1.guid == f2.guid && f1.feedId != f2.feedId
    ensures var r := Upserted(Upserted(items, f1), f2);
      && FindRow(r, f1.feedId, f1.guid).Some?
      && FindRow(r, f2.feedId, f2.guid).Some?
      && FieldsOf(r[FindRow(r, f1.feedId, f1.guid).value]) == f1
      && FieldsOf(r[FindRow(r, f2.feedId, f2.guid).value]) == f2
      && FindRow(r, f1.feedId, f1.guid) != FindRow(r, f2.feedId, f2.guid)
  {
    var r1 := Upserted(items, f1);
    UpsertedRow(items, f1);
    UpsertWellFormed(items, f1);
    UpsertedRow(r1, f2);
    var i1 := FindRow(r1, f1.feedId, f1.guid).value;
    // the second upsert leaves the first feed's row alone
    var r := Upserted(r1, f2);
    match FindRow(r1, f2.feedId, f2.guid)
    case Some(i) =>
      assert i != i1;
      UpsertExistingKeepsId(r1, f2, i);
      assert r[i1] == r1[i1];
      FindRowAt(r, f1.feedId, f1.guid, i1);
    case None =>
      assert r[i1] == r1[i1];
      FindRowAt(r, f1.feedId, f1.guid, i1);
  }
}
