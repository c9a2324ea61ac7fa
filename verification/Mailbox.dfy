/**
 * The message store: a table of messages in arrival order, and four tables
 * derived from it by explicit statements, triggers and cascades.
 */
module Mailbox {
  import opened Bytes
  import opened Helpers

  type Id = string
  type Tag = string

  /** A stored message; `rank` is its key, which grows with arrival. */
  datatype Row = Row(rank: int, id: Id, sender: string, recipients: string, subject: string,
                     hasAttachments: bool, isRead: bool, isStarred: bool, tags: seq<Tag>, createdAt: int)

  /** What the full-text index holds of a message. */
  datatype Entry = Entry(subject: string, body: string, sender: string, recipients: string)

  datatype Attachment = Attachment(rank: int, name: string)

  /** A message parsed ahead of its write. */
  datatype Prepared = Prepared(sender: string, recipients: string, subject: string, hasAttachments: bool,
                               body: string, raw: seq<Byte>, attachments: seq<string>)

  const FTS_ROWS_PER_STATEMENT := 1000
  const WRITE_ATTEMPTS := 5

  // ---------- Tables as values ----------

  /** The messages table, in key order. */
  predicate Ascending(rows: seq<Row>) {
    forall i, j :: 0 <= i < j < |rows| ==> rows[i].rank < rows[j].rank
  }

  predicate DistinctIds(rows: seq<Row>) {
    forall i, j :: 0 <= i < j < |rows| ==> rows[i].id != rows[j].id
  }

  predicate Has(rows: seq<Row>, rank: int) {
    exists i :: 0 <= i < |rows| && rows[i].rank == rank
  }

  function Where(rows: seq<Row>, keep: Row -> bool): seq<Row> {
    if rows == [] then []
    else
      var n := |rows| - 1;
      Where(rows[..n], keep) + (if keep(rows[n]) then [rows[n]] else [])
  }

  function AttachmentsWhere(rows: seq<Attachment>, keep: Attachment -> bool): (r: seq<Attachment>)
    ensures forall a :: a in r <==> a in rows && keep(a)
  {
    if rows == [] then []
    else
      var n := |rows| - 1;
      AttachmentsWhere(rows[..n], keep) + (if keep(rows[n]) then [rows[n]] else [])
  }

  function NextRank(rows: seq<Row>): int {
    if rows == [] then 1 else rows[|rows| - 1].rank + 1
  }

  /** Key of the message with `id`, if it is stored. */
  function RankOf(rows: seq<Row>, id: Id): (r: Option<int>)
    ensures r.None? ==> forall m :: m in rows ==> m.id != id
    ensures r.Some? ==> exists i :: 0 <= i < |rows| && rows[i].id == id && rows[i].rank == r.value
  {
    if rows == [] then None
    else
      var n := |rows| - 1;
      if rows[n].id == id then Some(rows[n].rank) else RankOf(rows[..n], id)
  }

  function EntryOf(m: Row, body: string): Entry {
    Entry(m.subject, body, m.sender, m.recipients)
  }

  /** The index and the content table hold exactly the stored messages, each under its key. */
  ghost predicate Keyed(rows: seq<Row>, fts: map<int, Entry>, content: map<int, seq<Byte>>,
                        bodyOf: seq<Byte> -> string) {
    && fts.Keys == content.Keys
    && (forall i :: 0 <= i < |rows| ==>
          rows[i].rank in fts && rows[i].rank in content &&
          fts[rows[i].rank] == EntryOf(rows[i], bodyOf(content[rows[i].rank])))
    && (forall k :: k in fts ==> Has(rows, k))
  }

  /** The tag table holds exactly the tags of the stored messages. */
  ghost predicate Tagged(rows: seq<Row>, tagRows: set<(Tag, int)>) {
    && (forall i, t :: 0 <= i < |rows| && t in rows[i].tags ==> (t, rows[i].rank) in tagRows)
    && (forall t, k :: (t, k) in tagRows ==> exists i :: 0 <= i < |rows| && rows[i].rank == k && t in rows[i].tags)
  }

  ghost predicate NoOrphans(rows: seq<Row>, attachments: seq<Attachment>) {
    forall a :: a in attachments ==> Has(rows, a.rank)
  }

  // ---------- Lemmas about the tables ----------

  lemma {:induction false} WhereMembers(rows: seq<Row>, keep: Row -> bool)
    ensures forall m :: m in Where(rows, keep) <==> m in rows && keep(m)
  {
    if rows != [] {
      var n := |rows| - 1;
      WhereMembers(rows[..n], keep);
      assert rows == rows[..n] + [rows[n]];
    }
  }

  lemma {:induction false} WhereAscends(rows: seq<Row>, keep: Row -> bool)
    requires Ascending(rows)
    ensures Ascending(Where(rows, keep))
  {
    if rows != [] {
      var n := |rows| - 1;
      WhereAscends(rows[..n], keep);
      WhereMembers(rows[..n], keep);
      var front := Where(rows[..n], keep);
      forall i | 0 <= i < |front| ensures front[i].rank < rows[n].rank {
        assert front[i] in rows[..n];
      }
    }
  }

  lemma {:induction false} WhereDistinct(rows: seq<Row>, keep: Row -> bool)
    requires DistinctIds(rows)
    ensures DistinctIds(Where(rows, keep))
  {
    if rows != [] {
      var n := |rows| - 1;
      WhereDistinct(rows[..n], keep);
      WhereMembers(rows[..n], keep);
      var front := Where(rows[..n], keep);
      forall i | 0 <= i < |front| ensures front[i].id != rows[n].id {
        assert front[i] in rows[..n];
      }
    }
  }

  lemma {:induction false} WhereAll(rows: seq<Row>, keep: Row -> bool)
    requires forall m :: m in rows ==> keep(m)
    ensures Where(rows, keep) == rows
  {
    if rows != [] {
      var n := |rows| - 1;
      WhereAll(rows[..n], keep);
      assert keep(rows[n]);
    }
  }

  lemma {:induction false} WhereNone(rows: seq<Row>, keep: Row -> bool)
    requires forall m :: m in rows ==> !keep(m)
    ensures Where(rows, keep) == []
  {
    if rows != [] {
      var n := |rows| - 1;
      WhereNone(rows[..n], keep);
      assert !keep(rows[n]);
    }
  }

  lemma {:induction false} WhereConcat(a: seq<Row>, b: seq<Row>, keep: Row -> bool)
    ensures Where(a + b, keep) == Where(a, keep) + Where(b, keep)
  {
    var all := a + b;
    if b == [] {
      assert all == a;
    } else {
      var n := |b| - 1;
      WhereConcat(a, b[..n], keep);
      assert all[..|all| - 1] == a + b[..n] && all[|all| - 1] == b[n];
    }
  }

  lemma SameRank(rows: seq<Row>, a: Row, b: Row)
    requires Ascending(rows) && a in rows && b in rows && a.rank == b.rank
    ensures a == b
  {
  }

  /** Deleting rows by key, from the table, the index and the content alike. */
  lemma DeleteKeyed(rows: seq<Row>, fts: map<int, Entry>, content: map<int, seq<Byte>>, bodyOf: seq<Byte> -> string,
                    doomed: set<int>)
    requires Keyed(rows, fts, content, bodyOf)
    ensures Keyed(Where(rows, (m: Row) => m.rank !in doomed), fts - doomed, content - doomed, bodyOf)
  {
    var kept := Where(rows, (m: Row) => m.rank !in doomed);
    WhereMembers(rows, (m: Row) => m.rank !in doomed);
    forall i | 0 <= i < |kept|
      ensures kept[i].rank in fts - doomed && kept[i].rank in content - doomed
      ensures fts[kept[i].rank] == EntryOf(kept[i], bodyOf(content[kept[i].rank]))
    {
      assert kept[i] in kept && kept[i] in rows;
    }
    forall k | k in fts - doomed ensures Has(kept, k) {
      KeptHas(rows, doomed, k);
    }
  }

  lemma KeptHas(rows: seq<Row>, doomed: set<int>, k: int)
    requires Has(rows, k) && k !in doomed
    ensures Has(Where(rows, (m: Row) => m.rank !in doomed), k)
  {
    var i :| 0 <= i < |rows| && rows[i].rank == k;
    var kept := Where(rows, (m: Row) => m.rank !in doomed);
    WhereMembers(rows, (m: Row) => m.rank !in doomed);
    assert rows[i] in kept;
    var j :| 0 <= j < |kept| && kept[j] == rows[i];
  }

  lemma DeleteTagged(rows: seq<Row>, tagRows: set<(Tag, int)>, doomed: set<int>)
    requires Tagged(rows, tagRows)
    ensures Tagged(Where(rows, (m: Row) => m.rank !in doomed), set p | p in tagRows && p.1 !in doomed)
  {
    var kept := Where(rows, (m: Row) => m.rank !in doomed);
    WhereMembers(rows, (m: Row) => m.rank !in doomed);
    var less := set p | p in tagRows && p.1 !in doomed;
    forall i, t | 0 <= i < |kept| && t in kept[i].tags ensures (t, kept[i].rank) in less {
      assert kept[i] in kept && kept[i] in rows;
    }
    forall t, k | (t, k) in less ensures exists i :: 0 <= i < |kept| && kept[i].rank == k && t in kept[i].tags {
      var i :| 0 <= i < |rows| && rows[i].rank == k && t in rows[i].tags;
      assert rows[i] in kept;
    }
  }

  lemma DeleteNoOrphans(rows: seq<Row>, attachments: seq<Attachment>, doomed: set<int>)
    requires NoOrphans(rows, attachments)
    ensures NoOrphans(Where(rows, (m: Row) => m.rank !in doomed),
                      AttachmentsWhere(attachments, (a: Attachment) => a.rank !in doomed))
  {
    var left := AttachmentsWhere(attachments, (a: Attachment) => a.rank !in doomed);
    forall a | a in left ensures Has(Where(rows, (m: Row) => m.rank !in doomed), a.rank) {
      KeptHas(rows, doomed, a.rank);
    }
  }

  /** A row is inserted, and in time its index entry and content. */
  lemma InsertKeyed(rows: seq<Row>, fts: map<int, Entry>, content: map<int, seq<Byte>>, bodyOf: seq<Byte> -> string,
                    m: Row, raw: seq<Byte>)
    requires Keyed(rows, fts, content, bodyOf) && Ascending(rows) && m.rank == NextRank(rows)
    ensures Keyed(rows + [m], fts[m.rank := EntryOf(m, bodyOf(raw))], content[m.rank := raw], bodyOf)
    ensures m.rank !in fts
  {
    RankUnused(rows);
    var all := rows + [m];
    forall k | k in fts || k == m.rank ensures Has(all, k) {
      if k == m.rank {
        assert all[|rows|].rank == k;
      } else {
        var i :| 0 <= i < |rows| && rows[i].rank == k;
        assert all[i].rank == k;
      }
    }
  }

  lemma RankUnused(rows: seq<Row>)
    requires Ascending(rows)
    ensures !Has(rows, NextRank(rows)) && forall i :: 0 <= i < |rows| ==> rows[i].rank < NextRank(rows)
  {
  }

  lemma InsertTagged(rows: seq<Row>, tagRows: set<(Tag, int)>, m: Row)
    requires Tagged(rows, tagRows)
    ensures Tagged(rows + [m], tagRows + (set t | t in m.tags :: (t, m.rank)))
  {
    var all, more := rows + [m], tagRows + (set t | t in m.tags :: (t, m.rank));
    forall t, k | (t, k) in more ensures exists i :: 0 <= i < |all| && all[i].rank == k && t in all[i].tags {
      if (t, k) in tagRows {
        var i :| 0 <= i < |rows| && rows[i].rank == k && t in rows[i].tags;
        assert all[i] == rows[i];
      } else {
        assert all[|rows|].rank == k;
      }
    }
  }

  lemma GrowNoOrphans(rows: seq<Row>, attachments: seq<Attachment>, m: Row)
    requires NoOrphans(rows, attachments)
    ensures NoOrphans(rows + [m], attachments) && Has(rows + [m], m.rank)
  {
    var all := rows + [m];
    assert all[|rows|].rank == m.rank;
    forall a | a in attachments ensures Has(all, a.rank) {
      var i :| 0 <= i < |rows| && rows[i].rank == a.rank;
      assert all[i].rank == a.rank;
    }
  }

  lemma IdNew(rows: seq<Row>, m: Row)
    requires Ascending(rows) && DistinctIds(rows) && RankOf(rows, m.id).None? && m.rank == NextRank(rows)
    ensures Ascending(rows + [m]) && DistinctIds(rows + [m])
  {
  }

  /** What an update may change of a row: its flags and tags. */
  predicate SameMessage(a: Row, b: Row) {
    b == a.(isRead := b.isRead, isStarred := b.isStarred, tags := b.tags)
  }

  lemma UpdateKeyed(rows: seq<Row>, fts: map<int, Entry>, content: map<int, seq<Byte>>, bodyOf: seq<Byte> -> string,
                    attachments: seq<Attachment>, i: nat, m: Row)
    requires Keyed(rows, fts, content, bodyOf) && NoOrphans(rows, attachments) && i < |rows| && SameMessage(rows[i], m)
    requires Ascending(rows) && DistinctIds(rows)
    ensures var now := rows[i := m];
            Keyed(now, fts, content, bodyOf) && NoOrphans(now, attachments) && Ascending(now) && DistinctIds(now)
  {
    var now := rows[i := m];
    assert forall j :: 0 <= j < |now| ==> now[j].rank == rows[j].rank && now[j].id == rows[j].id;
    forall k | Has(rows, k) ensures Has(now, k) {
      var j :| 0 <= j < |rows| && rows[j].rank == k;
      assert now[j].rank == k;
    }
  }

  lemma UpdateTagged(rows: seq<Row>, tagRows: set<(Tag, int)>, i: nat, m: Row)
    requires Tagged(rows, tagRows) && Ascending(rows) && i < |rows| && m.rank == rows[i].rank
    ensures Tagged(rows[i := m], (set p | p in tagRows && p.1 != m.rank) + (set t | t in m.tags :: (t, m.rank)))
  {
    var now, after := rows[i := m], (set p | p in tagRows && p.1 != m.rank) + (set t | t in m.tags :: (t, m.rank));
    forall t, k | (t, k) in after ensures exists j :: 0 <= j < |now| && now[j].rank == k && t in now[j].tags {
      if k == m.rank {
        assert now[i] == m;
      } else {
        var j :| 0 <= j < |rows| && rows[j].rank == k && t in rows[j].tags;
        assert now[j] == rows[j];
      }
    }
  }

  lemma SameTagged(rows: seq<Row>, tagRows: set<(Tag, int)>, i: nat, m: Row)
    requires Tagged(rows, tagRows) && i < |rows| && m.rank == rows[i].rank && m.tags == rows[i].tags
    ensures Tagged(rows[i := m], tagRows)
  {
    var now := rows[i := m];
    forall t, k | (t, k) in tagRows ensures exists j :: 0 <= j < |now| && now[j].rank == k && t in now[j].tags {
      var j :| 0 <= j < |rows| && rows[j].rank == k && t in rows[j].tags;
      assert now[j].rank == k && now[j].tags == rows[j].tags;
    }
  }

  // ---------- What a reader may rely on while the store changes ----------

  predicate HasPair(rows: seq<Row>, id: Id, rank: int) {
    exists i :: 0 <= i < |rows| && rows[i].id == id && rows[i].rank == rank
  }

  /** While `spare` stays stored it keeps its place, and nothing new appears below it. */
  ghost predicate Evolved(was: seq<Row>, now: seq<Row>, spare: Id) {
    forall c :: HasPair(was, spare, c) ==>
      HasPair(now, spare, c) && forall id, r :: r < c && HasPair(now, id, r) ==> HasPair(was, id, r)
  }

  lemma EvolvedTwice(a: seq<Row>, b: seq<Row>, c: seq<Row>, spare: Id)
    requires Evolved(a, b, spare) && Evolved(b, c, spare)
    ensures Evolved(a, c, spare)
  {
    hide HasPair;
  }

  lemma DeletionEvolves(rows: seq<Row>, keep: Row -> bool, spare: Id)
    requires forall m :: m in rows && m.id == spare ==> keep(m)
    ensures Evolved(rows, Where(rows, keep), spare)
  {
    var now := Where(rows, keep);
    WhereMembers(rows, keep);
    forall c | HasPair(rows, spare, c) ensures HasPair(now, spare, c) {
      var i :| 0 <= i < |rows| && rows[i].id == spare && rows[i].rank == c;
      assert rows[i] in now;
    }
    forall id, r | HasPair(now, id, r) ensures HasPair(rows, id, r) {
      var i :| 0 <= i < |now| && now[i].id == id && now[i].rank == r;
      assert now[i] in now && now[i] in rows;
    }
  }

  lemma InsertEvolves(rows: seq<Row>, more: seq<Row>, spare: Id)
    requires Ascending(rows + more)
    ensures Evolved(rows, rows + more, spare)
  {
    var now := rows + more;
    forall c | HasPair(rows, spare, c)
      ensures HasPair(now, spare, c) && forall id, r :: r < c && HasPair(now, id, r) ==> HasPair(rows, id, r)
    {
      var i :| 0 <= i < |rows| && rows[i].id == spare && rows[i].rank == c;
      assert now[i] == rows[i];
      forall id, r | r < c && HasPair(now, id, r) ensures HasPair(rows, id, r) {
        var j :| 0 <= j < |now| && now[j].id == id && now[j].rank == r;
        assert j < |rows| && rows[j] == now[j];
      }
    }
  }

  lemma UpdateEvolves(rows: seq<Row>, i: nat, m: Row, spare: Id)
    requires i < |rows| && SameMessage(rows[i], m)
    ensures Evolved(rows, rows[i := m], spare)
  {
    var now := rows[i := m];
    assert forall j :: 0 <= j < |now| ==> now[j].rank == rows[j].rank && now[j].id == rows[j].id;
    forall id, r ensures HasPair(now, id, r) <==> HasPair(rows, id, r) {
      if HasPair(rows, id, r) {
        var j :| 0 <= j < |rows| && rows[j].id == id && rows[j].rank == r;
        assert now[j].id == id;
      }
    }
  }
}
