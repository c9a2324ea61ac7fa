/** Listing and searching the store page by page, from a cursor, newest first. */
module Paging {
  import opened Bytes
  import opened Helpers
  import opened Mailbox
  import opened MailStore

  const DEFAULT_PAGE_LIMIT := 50
  const MAX_PAGE_LIMIT := 200

  datatype Filter = Filter(starred: bool, unread: bool, hasAttachments: bool, tags: seq<Tag>)

  /** A filter and, for a search, whether an index entry matches it. */
  datatype Query = Query(filter: Filter, search: Option<Entry -> bool>)

  datatype PageStart = Offset(n: int) | Before(rank: int)

  datatype Failure = CursorWithOffset | UnknownCursor

  datatype Answer = Page(messages: seq<Row>, total: nat, nextCursor: Option<Id>) | Failed(failure: Failure)

  /** Whether the message carries one of the tags, or no tag is asked for. */
  predicate HasTag(m: Row, f: Filter) {
    f.tags == [] || exists i :: 0 <= i < |f.tags| && f.tags[i] in m.tags
  }

  /** The same, decided by the tag table. */
  predicate HasTagRow(m: Row, f: Filter, tagRows: set<(Tag, int)>) {
    f.tags == [] || exists i :: 0 <= i < |f.tags| && (f.tags[i], m.rank) in tagRows
  }

  predicate PassesFlags(m: Row, f: Filter) {
    (f.starred ==> m.isStarred) && (f.unread ==> !m.isRead) && (f.hasAttachments ==> m.hasAttachments)
  }

  predicate Wanted(q: Query, fts: map<int, Entry>, tagRows: set<(Tag, int)>, m: Row) {
    && (q.search.Some? ==> m.rank in fts && q.search.value(fts[m.rank]))
    && PassesFlags(m, q.filter) && HasTagRow(m, q.filter, tagRows)
  }

  /** Filtering by the tag table is filtering by the tags the messages carry. */
  lemma TagTableDecides(rows: seq<Row>, tagRows: set<(Tag, int)>, m: Row, f: Filter)
    requires Tagged(rows, tagRows) && Ascending(rows) && m in rows
    ensures HasTagRow(m, f, tagRows) <==> HasTag(m, f)
  {
    if i :| 0 <= i < |f.tags| && (f.tags[i], m.rank) in tagRows {
      var j :| 0 <= j < |rows| && rows[j].rank == m.rank && f.tags[i] in rows[j].tags;
      SameRank(rows, rows[j], m);
    }
  }

  /** Counting matches on the index alone is counting the messages they join. */
  lemma SearchCountIsJoined(rows: seq<Row>, fts: map<int, Entry>, content: map<int, seq<Byte>>,
                            bodyOf: seq<Byte> -> string, matches: Entry -> bool)
    requires Keyed(rows, fts, content, bodyOf) && Ascending(rows)
    ensures |set k | k in fts && matches(fts[k])| == |Where(rows, (m: Row) => m.rank in fts && matches(fts[m.rank]))|
  {
    var keep := (m: Row) => m.rank in fts && matches(fts[m.rank]);
    var joined := Where(rows, keep);
    WhereMembers(rows, keep);
    WhereAscends(rows, keep);
    RanksCount(joined);
    var hits := set k | k in fts && matches(fts[k]);
    forall k | k in hits ensures k in Ranks(joined) {
      var i :| 0 <= i < |rows| && rows[i].rank == k;
      assert rows[i] in joined;
    }
    assert hits == Ranks(joined);
  }

  function Ranks(rows: seq<Row>): set<int> {
    set m | m in rows :: m.rank
  }

  lemma {:induction false} RanksCount(rows: seq<Row>)
    requires Ascending(rows)
    ensures |Ranks(rows)| == |rows|
  {
    if rows != [] {
      var n := |rows| - 1;
      RanksCount(rows[..n]);
      assert forall m :: m in rows <==> m in rows[..n] || m == rows[n];
      assert Ranks(rows) == Ranks(rows[..n]) + {rows[n].rank};
      assert rows[n].rank !in Ranks(rows[..n]);
    }
  }

  // ---------- Pages ----------

  function Take(rows: seq<Row>, n: nat): seq<Row> {
    if |rows| <= n then rows else rows[..n]
  }

  function Drop(rows: seq<Row>, n: nat): seq<Row> {
    if |rows| <= n then [] else rows[n..]
  }

  /** The messages wanted, newest first. */
  function Listing(rows: seq<Row>, wanted: Row -> bool): seq<Row> {
    Reversed(Where(rows, wanted))
  }

  /** What of the listing is left from `start` on. */
  function From(rows: seq<Row>, wanted: Row -> bool, start: PageStart): seq<Row> {
    match start
    case Offset(n) => Drop(Listing(rows, wanted), if n < 0 then 0 else n)
    case Before(rank) => Listing(rows, (m: Row) => m.rank < rank && wanted(m))
  }

  function Distance(a: int, b: int): nat {
    if a < b then b - a else a - b
  }

  /** How many messages a page may hold: what was asked for, or the size nearest to it that is allowed. */
  function Clamp(limit: Option<int>): (n: nat)
    ensures 1 <= n <= MAX_PAGE_LIMIT
    ensures limit.None? ==> n == 50
    ensures limit.Some? ==> forall k :: 1 <= k <= 200 ==> Distance(n, limit.value) <= Distance(k, limit.value)
  {
    if limit.None? then DEFAULT_PAGE_LIMIT
    else if limit.value < 1 then 1 else if MAX_PAGE_LIMIT < limit.value then MAX_PAGE_LIMIT else limit.value
  }

  function Wanting(store: Store, q: Query): Row -> bool
    reads store
  {
    var fts, tagRows := store.fts, store.tagRows;
    (m: Row) => Wanted(q, fts, tagRows, m)
  }

  predicate Unfiltered(f: Filter) {
    !f.starred && !f.unread && !f.hasAttachments && f.tags == []
  }

  /** Without a filter every message is wanted, or every one the search matches. */
  lemma WantedUnfiltered(rows: seq<Row>, q: Query, fts: map<int, Entry>, tagRows: set<(Tag, int)>)
    requires Unfiltered(q.filter)
    ensures q.search.None? ==> Where(rows, (m: Row) => Wanted(q, fts, tagRows, m)) == rows
    ensures q.search.Some? ==>
              Where(rows, (m: Row) => Wanted(q, fts, tagRows, m)) ==
              Where(rows, (m: Row) => m.rank in fts && q.search.value(fts[m.rank]))
  {
    if q.search.None? {
      WhereAll(rows, (m: Row) => Wanted(q, fts, tagRows, m));
    } else {
      WhereSame(rows, (m: Row) => Wanted(q, fts, tagRows, m), (m: Row) => m.rank in fts && q.search.value(fts[m.rank]));
    }
  }

  /** The total of a listing. Without a filter it is counted on the index, or on the table, alone. */
  method CountWanted(store: Store, q: Query) returns (total: nat)
    requires store.Valid()
    ensures total == |Listing(store.messages, Wanting(store, q))|
  {
    hide Wanted, Keyed, Tagged, NoOrphans, Ascending, Where;
    if Unfiltered(q.filter) {
      WantedUnfiltered(store.messages, q, store.fts, store.tagRows);
      if q.search.Some? {
        SearchCountIsJoined(store.messages, store.fts, store.content, store.bodyOf, q.search.value);
        total := |set k | k in store.fts && q.search.value(store.fts[k])|;
      } else {
        total := |store.messages|;
      }
    } else {
      total := |Where(store.messages, Wanting(store, q))|;
    }
  }

  /** One page of the listing. It reads one row more than it returns to learn whether more remain. */
  method ListMessages(store: Store, q: Query, before: Option<Id>, offset: Option<int>, limit: Option<int>)
    returns (answer: Answer)
    requires store.Valid()
    ensures match answer
            case Failed(CursorWithOffset) => before.Some? && offset.Some?
            case Failed(UnknownCursor) => before.Some? && offset.None? && RankOf(store.messages, before.value).None?
            case Page(messages, total, nextCursor) =>
              && (before.Some? ==> offset.None? && RankOf(store.messages, before.value).Some?)
              && var start := if before.Some? then Before(RankOf(store.messages, before.value).value)
                              else Offset(if offset.Some? then offset.value else 0);
                 var left := From(store.messages, Wanting(store, q), start);
                 && messages == Take(left, Clamp(limit))
                 && nextCursor == (if Clamp(limit) < |left| then Some(left[Clamp(limit) - 1].id) else None)
                 && total == |Listing(store.messages, Wanting(store, q))|
                 && (before.None? ==>
                       Placed(store.messages, Wanting(store, q),
                              if offset.Some? && offset.value > 0 then offset.value else 0, messages))
  {
    hide Wanted, Listing, From, RankOf, Wanting, Clamp, Placed;
    var n := Clamp(limit);
    var start: PageStart;
    if before.Some? {
      if offset.Some? {
        return Failed(CursorWithOffset);
      }
      var rank := RankOf(store.messages, before.value);
      if rank.None? {
        return Failed(UnknownCursor);
      }
      start := Before(rank.value);
    } else {
      start := Offset(if offset.Some? then offset.value else 0);
    }
    var messages := Take(From(store.messages, Wanting(store, q), start), n + 1);
    var hasMore := n < |messages|;
    messages := Take(messages, n);
    var nextCursor := if hasMore then Some(messages[|messages| - 1].id) else None;
    var total := CountWanted(store, q);
    if before.None? {
      OffsetPage(store.messages, Wanting(store, q), start.n, n);
    }
    answer := Page(messages, total, nextCursor);
  }

  // ---------- Pages by offset ----------

  /** The wanted messages newer than `rank`, by rank. */
  function Newer(rows: seq<Row>, wanted: Row -> bool, rank: int): set<int> {
    set m | m in rows && wanted(m) && rank < m.rank :: m.rank
  }

  /** The messages of a page that starts at offset `n`: each has as many newer wanted ones as its place says. */
  ghost predicate Placed(rows: seq<Row>, wanted: Row -> bool, n: nat, page: seq<Row>) {
    forall i :: 0 <= i < |page| ==>
      page[i] in rows && wanted(page[i]) && |Newer(rows, wanted, page[i].rank)| == n + i
  }

  lemma ListingPlaced(rows: seq<Row>, wanted: Row -> bool)
    requires Ascending(rows)
    ensures Placed(rows, wanted, 0, Listing(rows, wanted))
  {
    hide Ascending;
    ListingFalls(rows, wanted);
    var listing := Listing(rows, wanted);
    hide Listing;
    forall i | 0 <= i < |listing|
      ensures listing[i] in rows && wanted(listing[i]) && |Newer(rows, wanted, listing[i].rank)| == i
    {
      assert listing[i] in listing;
      RanksFall(listing[..i]);
      assert Ranks(listing[..i]) == Newer(rows, wanted, listing[i].rank) by {
        forall m | m in rows && wanted(m) && listing[i].rank < m.rank ensures m in listing[..i] {
          var j :| 0 <= j < |listing| && listing[j] == m;
          assert j < i && listing[..i][j] == m;
        }
        forall m | m in listing[..i] ensures m in rows && wanted(m) && listing[i].rank < m.rank {
          assert m in listing;
        }
      }
    }
  }

  lemma {:induction false} RanksFall(listing: seq<Row>)
    requires Falling(listing)
    ensures |Ranks(listing)| == |listing|
  {
    if listing != [] {
      var n := |listing| - 1;
      RanksFall(listing[..n]);
      assert forall m :: m in listing <==> m in listing[..n] || m == listing[n];
      assert Ranks(listing) == Ranks(listing[..n]) + {listing[n].rank};
      assert listing[n].rank !in Ranks(listing[..n]);
    }
  }

  /** A page at an offset holds the messages of those places, as many as there are up to its size. */
  lemma OffsetPage(rows: seq<Row>, wanted: Row -> bool, offset: int, size: nat)
    requires Ascending(rows)
    ensures var n := if offset < 0 then 0 else offset;
            var page := Take(From(rows, wanted, Offset(offset)), size);
            && Placed(rows, wanted, n, page)
            && (|page| == size || n + |page| == |Listing(rows, wanted)| || (page == [] && |Listing(rows, wanted)| <= n))
  {
    ListingPlaced(rows, wanted);
    hide Listing, Newer;
  }

  /** Pages read at one offset after another join to the front of the listing, and in the end to all of it. */
  lemma {:induction false} OffsetPagesJoin(rows: seq<Row>, wanted: Row -> bool, size: nat, count: nat)
    ensures Joined(PagesAt(rows, wanted, size, count)) == Take(Listing(rows, wanted), count * size)
  {
    hide Listing;
    var pages := PagesAt(rows, wanted, size, count);
    if count > 0 {
      OffsetPagesJoin(rows, wanted, size, count - 1);
      assert pages[..count - 1] == PagesAt(rows, wanted, size, count - 1);
      assert count * size == (count - 1) * size + size;
      NextJoins(Listing(rows, wanted), (count - 1) * size, size);
    }
  }

  lemma NextJoins(listing: seq<Row>, n: nat, size: nat)
    ensures Take(listing, n) + Take(Drop(listing, n), size) == Take(listing, n + size)
  {
  }

  /** The pages at offsets 0, `size`, twice `size` and so on. */
  function PagesAt(rows: seq<Row>, wanted: Row -> bool, size: nat, count: nat): seq<seq<Row>> {
    seq(count, i requires 0 <= i < count => Take(From(rows, wanted, Offset(i * size)), size))
  }

  // ---------- What is wanted ----------

  /** No filter and no search leaves nothing out, and each part of a query asks for one thing more of a message. */
  lemma EachPartAsks(q: Query, fts: map<int, Entry>, tagRows: set<(Tag, int)>, m: Row, t: Tag, matches: Entry -> bool)
    ensures Wanted(Query(Filter(false, false, false, []), None), fts, tagRows, m)
    ensures Wanted(q.(filter := q.filter.(starred := true)), fts, tagRows, m) <==>
            Wanted(q.(filter := q.filter.(starred := false)), fts, tagRows, m) && m.isStarred
    ensures Wanted(q.(filter := q.filter.(unread := true)), fts, tagRows, m) <==>
            Wanted(q.(filter := q.filter.(unread := false)), fts, tagRows, m) && !m.isRead
    ensures Wanted(q.(filter := q.filter.(hasAttachments := true)), fts, tagRows, m) <==>
            Wanted(q.(filter := q.filter.(hasAttachments := false)), fts, tagRows, m) && m.hasAttachments
    ensures Wanted(q.(search := Some(matches)), fts, tagRows, m) <==>
            Wanted(q.(search := None), fts, tagRows, m) && m.rank in fts && matches(fts[m.rank])
    ensures Wanted(q.(filter := q.filter.(tags := [t])), fts, tagRows, m) <==>
            Wanted(q.(filter := q.filter.(tags := [])), fts, tagRows, m) && (t, m.rank) in tagRows
    ensures q.filter.tags != [] ==>
              (Wanted(q.(filter := q.filter.(tags := q.filter.tags + [t])), fts, tagRows, m) <==>
               Wanted(q, fts, tagRows, m) || Wanted(q.(filter := q.filter.(tags := [t])), fts, tagRows, m))
  {
    OneTag(q.filter, tagRows, m, t);
    OneTag(Filter(false, false, false, []), tagRows, m, t);
    hide HasTagRow;
  }

  lemma OneTag(f: Filter, tagRows: set<(Tag, int)>, m: Row, t: Tag)
    ensures HasTagRow(m, f.(tags := [t]), tagRows) <==> (t, m.rank) in tagRows
    ensures HasTagRow(m, f.(tags := []), tagRows)
    ensures f.tags != [] ==>
      (HasTagRow(m, f.(tags := f.tags + [t]), tagRows) <==> HasTagRow(m, f, tagRows) || (t, m.rank) in tagRows)
    ensures forall a, b, c :: HasTagRow(m, f.(starred := a, unread := b, hasAttachments := c), tagRows) <==>
              HasTagRow(m, f, tagRows)
  {
    assert [t][0] == t;
    var more := f.tags + [t];
    assert more[|f.tags|] == t;
    assert forall i :: 0 <= i < |f.tags| ==> more[i] == f.tags[i];
  }

  // ---------- Following the cursor ----------

  lemma {:induction false} WhereSame(rows: seq<Row>, p: Row -> bool, q: Row -> bool)
    requires forall m :: m in rows ==> p(m) == q(m)
    ensures Where(rows, p) == Where(rows, q)
  {
    if rows != [] {
      var n := |rows| - 1;
      WhereSame(rows[..n], p, q);
      assert rows[n] in rows;
    }
  }

  lemma {:induction false} WhereTwice(rows: seq<Row>, p: Row -> bool, q: Row -> bool)
    ensures Where(Where(rows, q), p) == Where(rows, (m: Row) => p(m) && q(m))
  {
    if rows != [] {
      var n := |rows| - 1;
      WhereTwice(rows[..n], p, q);
      WhereConcat(Where(rows[..n], q), if q(rows[n]) then [rows[n]] else [], p);
      WhereOne(rows[n], p);
    }
  }

  lemma WhereOne(m: Row, p: Row -> bool)
    ensures Where([m], p) == if p(m) then [m] else []
    ensures Where([], p) == []
  {
    assert [m][..0] == [];
  }

  /** Of a table in key order, the rows below a key are the rows before it. */
  lemma BelowIsPrefix(rows: seq<Row>, k: nat)
    requires Ascending(rows) && k < |rows|
    ensures Where(rows, (m: Row) => m.rank < rows[k].rank) == rows[..k]
  {
    var below := (m: Row) => m.rank < rows[k].rank;
    var head, tail := rows[..k], rows[k..];
    SplitAt(rows, k);
    assert rows == head + tail;
    hide Ascending, Where;
    WhereAll(head, below);
    WhereNone(tail, below);
    WhereConcat(head, tail, below);
  }

  lemma SplitAt(rows: seq<Row>, k: nat)
    requires Ascending(rows) && k < |rows|
    ensures (forall m :: m in rows[..k] ==> m.rank < rows[k].rank) &&
            (forall m :: m in rows[k..] ==> rows[k].rank <= m.rank)
  {
    forall m | m in rows[k..] ensures rows[k].rank <= m.rank {
      var i :| k <= i < |rows| && rows[i] == m;
    }
  }

  /** Reading on from a listed row yields what the listing has after it. */
  lemma ContinuesListing(rows: seq<Row>, wanted: Row -> bool, k: nat)
    requires Ascending(rows) && k < |Listing(rows, wanted)|
    ensures From(rows, wanted, Before(Listing(rows, wanted)[k].rank)) == Drop(Listing(rows, wanted), k + 1)
  {
    var found := Where(rows, wanted);
    var j := |found| - 1 - k;
    var rank := found[j].rank;
    WhereAscends(rows, wanted);
    BelowIsPrefix(found, j);
    WhereTwice(rows, (m: Row) => m.rank < rank, wanted);
    WhereSame(rows, (m: Row) => ((m: Row) => m.rank < rank)(m) && wanted(m), (m: Row) => m.rank < rank && wanted(m));
    assert Where(rows, (m: Row) => m.rank < rank && wanted(m)) == found[..j];
    hide Where;
    assert Reversed(found[..j]) == Drop(Reversed(found), k + 1);
  }

  /** Following the cursor over a store that does not change lists everything wanted, once and in order. */
  method ReadAll(store: Store, q: Query, limit: Option<int>) returns (all: seq<Row>)
    requires store.Valid()
    ensures all == Listing(store.messages, Wanting(store, q))
  {
    hide Wanted, Wanting, Keyed, Tagged, NoOrphans, Ascending, DistinctIds, RankOf, Clamp, From, Listing, Take, Drop;
    ghost var wanted := Wanting(store, q);
    ghost var listing := Listing(store.messages, wanted);
    all := [];
    var cursor: Option<Id> := None;
    var more := true;
    FromStart(store.messages, wanted);
    while more
      invariant all == Take(listing, |all|) && |all| <= |listing|
      invariant !more ==> all == listing
      invariant more && cursor.None? ==> all == []
      invariant more && cursor.Some? ==> all != [] && cursor == Some(listing[|all| - 1].id)
      decreases |listing| - |all|, more
    {
      var answer := ListMessages(store, q, cursor, None, limit);
      if cursor.Some? {
        ListedRank(store.messages, wanted, |all| - 1);
        ContinuesListing(store.messages, wanted, |all| - 1);
      }
      PageOfRest(listing, all, Drop(listing, |all|), Clamp(limit));
      all := all + answer.messages;
      cursor := answer.nextCursor;
      more := cursor.Some?;
    }
  }

  lemma FromStart(rows: seq<Row>, wanted: Row -> bool)
    ensures From(rows, wanted, Offset(0)) == Drop(Listing(rows, wanted), 0) && Take(Listing(rows, wanted), 0) == []
  {
  }

  lemma ListedRank(rows: seq<Row>, wanted: Row -> bool, k: nat)
    requires Ascending(rows) && DistinctIds(rows) && k < |Listing(rows, wanted)|
    ensures RankOf(rows, Listing(rows, wanted)[k].id) == Some(Listing(rows, wanted)[k].rank)
  {
    WhereMembers(rows, wanted);
    var m := Listing(rows, wanted)[k];
    assert m in Where(rows, wanted);
    OnlyThat(rows, m.id);
  }

  lemma PageOfRest(listing: seq<Row>, all: seq<Row>, left: seq<Row>, n: nat)
    requires all == Take(listing, |all|) && left == Drop(listing, |all|) && |all| <= |listing| && 1 <= n
    ensures var page := Take(left, n);
            && all + page == Take(listing, |all + page|) && |all + page| <= |listing|
            && (n < |left| ==> |page| == n && left[n - 1] == listing[|all + page| - 1])
            && (|left| <= n ==> all + page == listing)
  {
  }

  // ---------- Following the cursor while the store changes ----------

  predicate Falling(rows: seq<Row>) {
    forall i, j :: 0 <= i < j < |rows| ==> rows[j].rank < rows[i].rank
  }

  lemma ListingFalls(rows: seq<Row>, wanted: Row -> bool)
    requires Ascending(rows)
    ensures Falling(Listing(rows, wanted)) && forall m :: m in Listing(rows, wanted) <==> m in rows && wanted(m)
  {
    WhereAscends(rows, wanted);
    WhereMembers(rows, wanted);
    var found := Where(rows, wanted);
    var listing := Reversed(found);
    forall m | m in found ensures m in listing {
      var i :| 0 <= i < |found| && found[i] == m;
      assert listing[|found| - 1 - i] == m;
    }
    hide Where;
    forall m | m in listing ensures m in found {
      var i :| 0 <= i < |listing| && listing[i] == m;
      assert found[|found| - 1 - i] == m;
    }
  }

  /** A page holds every wanted message between its start and its end. */
  lemma PageIsFull(rows: seq<Row>, wanted: Row -> bool, bound: Option<int>, n: nat)
    requires Ascending(rows) && 1 <= n
    ensures var left := From(rows, wanted, if bound.Some? then Before(bound.value) else Offset(0));
            var page := Take(left, n);
            && Falling(page) && (n < |left| ==> |page| == n && page[n - 1] == left[n - 1])
            && (forall m :: m in page ==> m in rows && wanted(m) && (bound.Some? ==> m.rank < bound.value))
            && (forall m :: m in rows && wanted(m) && (bound.Some? ==> m.rank < bound.value) ==>
                  m in page || (n < |left| && m.rank < left[n - 1].rank))
  {
    hide *;
    LeftFalls(rows, wanted, bound);
    FirstFalls(From(rows, wanted, if bound.Some? then Before(bound.value) else Offset(0)), n);
  }

  lemma LeftFalls(rows: seq<Row>, wanted: Row -> bool, bound: Option<int>)
    requires Ascending(rows)
    ensures var left := From(rows, wanted, if bound.Some? then Before(bound.value) else Offset(0));
            Falling(left) && forall m :: m in left <==> m in rows && wanted(m) && (bound.Some? ==> m.rank < bound.value)
  {
    hide Ascending, Falling, Listing;
    if bound.Some? {
      ListingFalls(rows, (m: Row) => m.rank < bound.value && wanted(m));
    } else {
      ListingFalls(rows, wanted);
    }
  }

  lemma FirstFalls(left: seq<Row>, n: nat)
    requires Falling(left) && 1 <= n
    ensures Falling(Take(left, n)) && forall m :: m in Take(left, n) ==> m in left
    ensures forall m :: m in left ==> m in Take(left, n) || (n < |left| && m.rank < left[n - 1].rank)
    ensures n < |left| ==> |Take(left, n)| == n && Take(left, n)[n - 1] == left[n - 1]
  {
    var page := Take(left, n);
    forall m | m in left ensures m in page || (n < |left| && m.rank < left[n - 1].rank) {
      var i :| 0 <= i < |left| && left[i] == m;
      assert i < n ==> i < |page| && page[i] == m;
    }
  }

  /** Whether the message at `rank` with `id` was wanted at every page. */
  ghost predicate Steady(listings: seq<seq<Row>>, id: Id, rank: int) {
    forall k :: 0 <= k < |listings| ==> HasPair(listings[k], id, rank)
  }

  /** What was returned falls in order, was all there at the start, and was wanted when it was read. */
  ghost predicate Sound(start: seq<Row>, all: seq<Row>, listings: seq<seq<Row>>) {
    && Falling(all)
    && (forall id, r :: HasPair(all, id, r) ==> HasPair(start, id, r))
    && (forall m :: m in all ==> exists k :: 0 <= k < |listings| && m in listings[k])
  }

  /** Every message wanted throughout was returned, down to `bound`. */
  ghost predicate Complete(all: seq<Row>, listings: seq<seq<Row>>, bound: Option<int>) {
    forall id, r :: Steady(listings, id, r) && (bound.Some? ==> bound.value <= r) ==> HasPair(all, id, r)
  }

  /** Below `bound` the store holds nothing it did not hold at the start. */
  ghost predicate NoneNew(start: seq<Row>, now: seq<Row>, bound: Option<int>) {
    forall id, r :: HasPair(now, id, r) && (bound.Some? ==> r < bound.value) ==> HasPair(start, id, r)
  }

  /** The next page starts after the last row returned, which is still stored. */
  ghost predicate Resumes(now: seq<Row>, all: seq<Row>, cursor: Option<Id>, bound: Option<int>) {
    && cursor.Some? == bound.Some? == (all != [])
    && (bound.Some? ==> all[|all| - 1].rank == bound.value && HasPair(now, cursor.value, bound.value))
  }

  /** One more page, read of a store that changed as it may have. */
  lemma ReadPage(start: seq<Row>, now: seq<Row>, all: seq<Row>, listings: seq<seq<Row>>, cursor: Option<Id>,
                 bound: Option<int>, wanted: Row -> bool, n: nat)
    requires Ascending(now) && 1 <= n && Sound(start, all, listings) && NoneNew(start, now, bound)
    requires Resumes(now, all, cursor, bound) && (bound.Some? ==> Complete(all, listings, bound))
    ensures var left := From(now, wanted, if bound.Some? then Before(bound.value) else Offset(0));
            var more, lists := all + Take(left, n), listings + [Listing(now, wanted)];
            && Sound(start, more, lists)
            && (if n < |left| then
                  && Complete(more, lists, Some(left[n - 1].rank))
                  && Resumes(now, more, Some(left[n - 1].id), Some(left[n - 1].rank))
                  && (bound.Some? ==> left[n - 1].rank < bound.value)
                  && HasPair(start, left[n - 1].id, left[n - 1].rank)
                else Complete(more, lists, None))
  {
    hide *;
    PageIsFull(now, wanted, bound, n);
    ListingFalls(now, wanted);
    var left := From(now, wanted, if bound.Some? then Before(bound.value) else Offset(0));
    var page := Take(left, n);
    var end := if n < |left| then Some(left[n - 1].rank) else None;
    ResumedAt(now, all, cursor, bound);
    PageSound(start, now, all, listings, bound, page, Listing(now, wanted));
    PageComplete(all, listings, bound, page, Listing(now, wanted), end);
    if n < |left| {
      assert page[n - 1] in page;
      Old(start, now, bound, left[n - 1]);
      ResumesAfter(now, all, page);
    }
  }

  lemma ResumedAt(now: seq<Row>, all: seq<Row>, cursor: Option<Id>, bound: Option<int>)
    requires Resumes(now, all, cursor, bound)
    ensures bound.Some? == (all != []) && (bound.Some? ==> all[|all| - 1].rank == bound.value)
  {
  }

  lemma ResumesAfter(now: seq<Row>, all: seq<Row>, page: seq<Row>)
    requires page != [] && page[|page| - 1] in now
    ensures var last := page[|page| - 1]; Resumes(now, all + page, Some(last.id), Some(last.rank))
  {
    InRows(now, page[|page| - 1]);
  }

  lemma InRows(rows: seq<Row>, m: Row)
    requires m in rows
    ensures HasPair(rows, m.id, m.rank)
  {
  }

  lemma Old(start: seq<Row>, now: seq<Row>, bound: Option<int>, m: Row)
    requires NoneNew(start, now, bound) && m in now && (bound.Some? ==> m.rank < bound.value)
    ensures HasPair(start, m.id, m.rank)
  {
    InRows(now, m);
  }

  lemma PageSound(start: seq<Row>, now: seq<Row>, all: seq<Row>, listings: seq<seq<Row>>, bound: Option<int>,
                  page: seq<Row>, listing: seq<Row>)
    requires Sound(start, all, listings) && NoneNew(start, now, bound) && Falling(page)
    requires bound.Some? == (all != []) && (bound.Some? ==> all[|all| - 1].rank == bound.value)
    requires forall m :: m in page ==> m in now && m in listing && (bound.Some? ==> m.rank < bound.value)
    ensures Sound(start, all + page, listings + [listing])
  {
    var more, lists := all + page, listings + [listing];
    forall i, j | 0 <= i < j < |more| ensures more[j].rank < more[i].rank {
      if i < |all| <= j {
        assert page[j - |all|] in page && all[|all| - 1].rank <= all[i].rank;
      }
    }
    forall id, r | HasPair(more, id, r) ensures HasPair(start, id, r) {
      var i :| 0 <= i < |more| && more[i].id == id && more[i].rank == r;
      if i < |all| {
        assert all[i].id == id;
        assert HasPair(all, id, r);
      } else {
        assert page[i - |all|] in page;
        Old(start, now, bound, page[i - |all|]);
      }
    }
    forall m | m in more ensures exists k :: 0 <= k < |lists| && m in lists[k] {
      if m in all {
        var k :| 0 <= k < |listings| && m in listings[k];
        assert lists[k] == listings[k];
      } else {
        assert m in page && m in lists[|listings|];
      }
    }
  }

  lemma PageComplete(all: seq<Row>, listings: seq<seq<Row>>, bound: Option<int>, page: seq<Row>, listing: seq<Row>,
                     end: Option<int>)
    requires bound.Some? ==> Complete(all, listings, bound)
    requires forall m :: m in listing && (bound.Some? ==> m.rank < bound.value) ==>
               m in page || (end.Some? && m.rank < end.value)
    ensures Complete(all + page, listings + [listing], end)
  {
    var more, lists := all + page, listings + [listing];
    forall id, r | Steady(lists, id, r) && (end.Some? ==> end.value <= r) ensures HasPair(more, id, r) {
      if bound.Some? && bound.value <= r {
        forall k | 0 <= k < |listings| ensures HasPair(listings[k], id, r) {
          assert lists[k] == listings[k];
        }
        assert Steady(listings, id, r) && HasPair(all, id, r);
        var i :| 0 <= i < |all| && all[i].id == id && all[i].rank == r;
        assert more[i] == all[i];
      } else {
        assert HasPair(lists[|listings|], id, r);
        var i :| 0 <= i < |listing| && listing[i].id == id && listing[i].rank == r;
        assert listing[i] in listing && listing[i] in page;
        var j :| 0 <= j < |page| && page[j] == listing[i];
        assert more[|all| + j] == page[j];
      }
    }
  }

  /** The store changes between two pages, sparing the cursor. */
  lemma BetweenPages(start: seq<Row>, was: seq<Row>, now: seq<Row>, all: seq<Row>, cursor: Id, bound: int)
    requires NoneNew(start, was, Some(bound)) && Resumes(was, all, Some(cursor), Some(bound)) &&
             Evolved(was, now, cursor)
    ensures NoneNew(start, now, Some(bound)) && Resumes(now, all, Some(cursor), Some(bound))
  {
    hide HasPair;
  }

  lemma LessNew(start: seq<Row>, now: seq<Row>, bound: Option<int>, lower: int)
    requires NoneNew(start, now, bound) && (bound.Some? ==> lower <= bound.value)
    ensures NoneNew(start, now, Some(lower))
  {
  }

  lemma CursorFound(rows: seq<Row>, id: Id, rank: int)
    requires DistinctIds(rows) && HasPair(rows, id, rank)
    ensures RankOf(rows, id) == Some(rank)
  {
  }

  lemma IdsDiffer(start: seq<Row>, all: seq<Row>, listings: seq<seq<Row>>)
    requires DistinctIds(start) && Sound(start, all, listings)
    ensures forall i, j :: 0 <= i < j < |all| ==> all[i].id != all[j].id
  {
    forall i, j | 0 <= i < j < |all| ensures all[i].id != all[j].id {
      assert HasPair(all, all[i].id, all[i].rank) && HasPair(all, all[j].id, all[j].rank);
      CursorFound(start, all[i].id, all[i].rank);
      CursorFound(start, all[j].id, all[j].rank);
    }
  }

  /** Places still ahead of a reader who is at `bound`. */
  ghost function Ahead(start: seq<Row>, bound: Option<int>): set<int> {
    set m | m in start && (bound.Some? ==> m.rank < bound.value) :: m.rank
  }

  lemma AheadShrinks(start: seq<Row>, bound: Option<int>, id: Id, lower: int)
    requires HasPair(start, id, lower) && (bound.Some? ==> lower < bound.value)
    ensures Ahead(start, Some(lower)) < Ahead(start, bound)
  {
    var i :| 0 <= i < |start| && start[i].id == id && start[i].rank == lower;
    assert start[i] in start;
    assert lower in Ahead(start, bound) && lower !in Ahead(start, Some(lower));
  }

  lemma Starting(start: seq<Row>)
    ensures Sound(start, [], []) && NoneNew(start, start, None) && Resumes(start, [], None, None)
    ensures forall n :: Paged([], [], n, false)
    ensures Joined([]) == [] && PageBefore([], 0) == []
  {
  }

  /** What of a listing comes after the page before. */
  function After(listing: seq<Row>, before: seq<Row>): seq<Row> {
    if before == [] then listing else Where(listing, (m: Row) => m.rank < before[|before| - 1].rank)
  }

  function PageBefore(pages: seq<seq<Row>>, k: nat): seq<Row>
    requires k <= |pages|
  {
    if k == 0 then [] else pages[k - 1]
  }

  /** Page `k` is the next `n` rows of its listing, and had more after it unless it ended the reading. */
  predicate PageAt(listings: seq<seq<Row>>, pages: seq<seq<Row>>, n: nat, ended: bool, k: nat)
    requires k < |pages| == |listings|
  {
    var left := After(listings[k], PageBefore(pages, k));
    pages[k] == Take(left, n) && (n < |left| <==> !ended || k + 1 < |pages|)
  }

  /** Each page is the next part of its listing, and every page but the last had more after it. */
  predicate Paged(listings: seq<seq<Row>>, pages: seq<seq<Row>>, n: nat, ended: bool) {
    |pages| == |listings| && forall k :: 0 <= k < |pages| ==> PageAt(listings, pages, n, ended, k)
  }

  function Joined(pages: seq<seq<Row>>): seq<Row> {
    if pages == [] then [] else Joined(pages[..|pages| - 1]) + pages[|pages| - 1]
  }

  lemma {:induction false} WhereReversed(rows: seq<Row>, p: Row -> bool)
    ensures Where(Reversed(rows), p) == Reversed(Where(rows, p))
  {
    if rows == [] {
      assert Reversed(rows) == [];
    } else {
      hide Where, Reversed;
      var n := |rows| - 1;
      var last := [rows[n]];
      assert rows == rows[..n] + last;
      WhereReversed(rows[..n], p);
      WhereConcat(rows[..n], last, p);
      WhereConcat(last, Reversed(rows[..n]), p);
      WhereOne(rows[n], p);
      ReversedConcat(rows[..n], last);
      ReversedConcat(Where(rows[..n], p), Where(last, p));
      ReversedShort(last);
      ReversedShort(Where(last, p));
    }
  }

  /** Reading from the cursor is reading what the listing has after the page before. */
  lemma FromIsAfter(rows: seq<Row>, wanted: Row -> bool, bound: Option<int>, before: seq<Row>)
    requires bound.Some? == (before != []) && (bound.Some? ==> before[|before| - 1].rank == bound.value)
    ensures From(rows, wanted, if bound.Some? then Before(bound.value) else Offset(0)) ==
            After(Listing(rows, wanted), before)
  {
    if bound.Some? {
      var below := (m: Row) => m.rank < before[|before| - 1].rank;
      WhereReversed(Where(rows, wanted), below);
      WhereTwice(rows, below, wanted);
      WhereSame(rows, (m: Row) => below(m) && wanted(m), (m: Row) => m.rank < bound.value && wanted(m));
    } else {
      FromStart(rows, wanted);
    }
  }

  lemma NextPaged(listings: seq<seq<Row>>, pages: seq<seq<Row>>, n: nat, listing: seq<Row>, page: seq<Row>, more: bool)
    requires Paged(listings, pages, n, false)
    requires var left := After(listing, PageBefore(pages, |pages|)); page == Take(left, n) && (more <==> n < |left|)
    ensures Paged(listings + [listing], pages + [page], n, !more)
    ensures Joined(pages + [page]) == Joined(pages) + page
  {
    hide After, Take, Joined, PageAt;
    JoinedSnoc(pages, page);
    var lists, all := listings + [listing], pages + [page];
    LastPage(listings, pages, n, listing, page, more);
    var ended := !more;
    forall k | 0 <= k < |all| ensures PageAt(lists, all, n, ended, k) {
      if k < |pages| {
        SamePage(listings, pages, n, k, ended, listing, page);
      }
    }
  }

  lemma SamePage(listings: seq<seq<Row>>, pages: seq<seq<Row>>, n: nat, k: nat, ended: bool, listing: seq<Row>,
                 page: seq<Row>)
    requires k < |pages| == |listings| && PageAt(listings, pages, n, false, k)
    ensures PageAt(listings + [listing], pages + [page], n, ended, k)
  {
    hide After, Take;
    assert (listings + [listing])[k] == listings[k] && (pages + [page])[k] == pages[k];
    assert PageBefore(pages + [page], k) == PageBefore(pages, k);
  }

  lemma LastPage(listings: seq<seq<Row>>, pages: seq<seq<Row>>, n: nat, listing: seq<Row>, page: seq<Row>, more: bool)
    requires |pages| == |listings|
    requires var left := After(listing, PageBefore(pages, |pages|)); page == Take(left, n) && (more <==> n < |left|)
    ensures PageAt(listings + [listing], pages + [page], n, !more, |pages|)
  {
    hide After, Take;
    assert PageBefore(pages + [page], |pages|) == PageBefore(pages, |pages|);
  }

  lemma JoinedSnoc(pages: seq<seq<Row>>, page: seq<Row>)
    ensures Joined(pages + [page]) == Joined(pages) + page
  {
    assert (pages + [page])[..|pages|] == pages;
  }

  /**
   * Following the cursor while anything happens to the store between two
   * pages except the loss of the message the cursor names. No message comes
   * twice, each was wanted when it came, and one that was stored and wanted
   * for every page comes once. `listings` holds what was wanted at each page,
   * and `pages` what was read of it.
   */
  method ReadWhileChanging(store: Store, q: Query, limit: Option<int>)
    returns (all: seq<Row>, ghost listings: seq<seq<Row>>, ghost pages: seq<seq<Row>>)
    requires store.Valid()
    modifies store
    ensures listings != [] && listings[0] == old(Listing(store.messages, Wanting(store, q)))
    ensures listings[|listings| - 1] == Listing(store.messages, Wanting(store, q))
    ensures all == Joined(pages) && Paged(listings, pages, Clamp(limit), true)
    ensures Falling(all) && forall i, j :: 0 <= i < j < |all| ==> all[i].id != all[j].id
    ensures forall m :: m in all ==> exists k :: 0 <= k < |listings| && m in listings[k]
    ensures forall id, r :: Steady(listings, id, r) ==> HasPair(all, id, r)
  {
    hide Wanted, Wanting, Keyed, Tagged, NoOrphans, Ascending, DistinctIds, RankOf, Clamp, From, Listing, Take, Drop,
      Sound, Complete, NoneNew, Resumes, Evolved, HasPair, Steady, Ahead, Paged, Joined, After, PageBefore;
    ghost var start := store.messages;
    ghost var bound: Option<int> := None;
    all, listings, pages := [], [], [];
    var cursor: Option<Id> := None;
    Starting(start);
    while true
      invariant store.Valid() && cursor.Some? == bound.Some?
      invariant Sound(start, all, listings) && NoneNew(start, store.messages, bound)
      invariant Resumes(store.messages, all, cursor, bound) && (bound.Some? ==> Complete(all, listings, bound))
      invariant bound.Some? ==> RankOf(store.messages, cursor.value) == bound
      invariant if listings == [] then bound.None? && store.messages == start &&
                Wanting(store, q) == old(Wanting(store, q))
                else listings[0] == old(Listing(store.messages, Wanting(store, q)))
      invariant all == Joined(pages) && Paged(listings, pages, Clamp(limit), false) &&
                EndsAt(PageBefore(pages, |pages|), bound)
      decreases Ahead(start, bound)
    {
      ghost var wanted := Wanting(store, q);
      var answer := ListMessages(store, q, cursor, None, limit);
      ReadPage(start, store.messages, all, listings, cursor, bound, wanted, Clamp(limit));
      FromIsAfter(store.messages, wanted, bound, PageBefore(pages, |pages|));
      ghost var left := From(store.messages, wanted, if bound.Some? then Before(bound.value) else Offset(0));
      ghost var listing := Listing(store.messages, wanted);
      NextPaged(listings, pages, Clamp(limit), listing, answer.messages, answer.nextCursor.Some?);
      all, listings, pages := all + answer.messages, listings + [listing], pages + [answer.messages];
      if answer.nextCursor.None? {
        break;
      }
      ghost var last := left[Clamp(limit) - 1];
      FullPage(left, Clamp(limit), pages);
      AheadShrinks(start, bound, last.id, last.rank);
      LessNew(start, store.messages, bound, last.rank);
      cursor, bound := answer.nextCursor, Some(last.rank);
      ghost var was := store.messages;
      store.Churn(cursor.value);
      BetweenPages(start, was, store.messages, all, cursor.value, last.rank);
      Found(store.messages, all, cursor.value, last.rank);
    }
    Finished(start, all, listings);
  }

  /** The page before ends at `bound`, if there is one. */
  predicate EndsAt(before: seq<Row>, bound: Option<int>) {
    bound.Some? == (before != []) && (bound.Some? ==> before[|before| - 1].rank == bound.value)
  }

  lemma FullPage(left: seq<Row>, n: nat, pages: seq<seq<Row>>)
    requires pages != [] && pages[|pages| - 1] == Take(left, n) && 1 <= n < |left|
    ensures EndsAt(PageBefore(pages, |pages|), Some(left[n - 1].rank))
  {
  }

  lemma Found(now: seq<Row>, all: seq<Row>, cursor: Id, bound: int)
    requires DistinctIds(now) && Resumes(now, all, Some(cursor), Some(bound))
    ensures RankOf(now, cursor) == Some(bound)
  {
    CursorFound(now, cursor, bound);
  }

  lemma Finished(start: seq<Row>, all: seq<Row>, listings: seq<seq<Row>>)
    requires DistinctIds(start) && Sound(start, all, listings) && Complete(all, listings, None)
    ensures Falling(all) && forall i, j :: 0 <= i < j < |all| ==> all[i].id != all[j].id
    ensures forall m :: m in all ==> exists k :: 0 <= k < |listings| && m in listings[k]
    ensures forall id, r :: Steady(listings, id, r) ==> HasPair(all, id, r)
  {
    IdsDiffer(start, all, listings);
  }
}
