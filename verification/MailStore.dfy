/** The store's operations, each one transaction over the tables of `Mailbox`. */
module MailStore {
  import opened Bytes
  import opened Helpers
  import opened Mailbox

  /** How an attempt at a transaction ends; only a commit leaves anything behind. */
  datatype Result<T> = Committed(value: T) | Contended | Refused

  /** How the database takes a statement. */
  datatype Execution = Done | Locked | Broken

  /** Milliseconds for which a contended write is attempted again. */
  const WRITE_RETRY_BUDGET := 5000

  datatype Change = Change(isRead: Option<bool>, isStarred: Option<bool>, tags: Option<seq<Tag>>)

  function Changed(m: Row, c: Change): Row {
    m.(isRead := if c.isRead.Some? then c.isRead.value else m.isRead,
       isStarred := if c.isStarred.Some? then c.isStarred.value else m.isStarred,
       tags := if c.tags.Some? then c.tags.value else m.tags)
  }

  /** Of two updates in turn, a field keeps what the later gave, or else what the earlier gave, or else what it was. */
  lemma LaterUpdateWins(m: Row, earlier: Change, later: Change)
    ensures var now := Changed(Changed(m, earlier), later);
            && (later.isRead.Some? ==> now.isRead == later.isRead.value)
            && (later.isRead.None? && earlier.isRead.Some? ==> now.isRead == earlier.isRead.value)
            && (later.isRead.None? && earlier.isRead.None? ==> now.isRead == m.isRead)
            && (later.isStarred.Some? ==> now.isStarred == later.isStarred.value)
            && (later.isStarred.None? && earlier.isStarred.Some? ==> now.isStarred == earlier.isStarred.value)
            && (later.isStarred.None? && earlier.isStarred.None? ==> now.isStarred == m.isStarred)
            && (later.tags.Some? ==> now.tags == later.tags.value)
            && (later.tags.None? && earlier.tags.Some? ==> now.tags == earlier.tags.value)
            && (later.tags.None? && earlier.tags.None? ==> now.tags == m.tags)
            && now.(isRead := m.isRead, isStarred := m.isStarred, tags := m.tags) == m
  {
  }

  /** `m` is the row a prepared message is first stored as. */
  predicate StoredAs(p: Prepared, m: Row) {
    m == Row(m.rank, m.id, p.sender, p.recipients, p.subject, p.hasAttachments, false, false, [], m.createdAt)
  }

  /** `rows` store the `messages` in order, under consecutive keys. */
  predicate StoreAs(messages: seq<Prepared>, rows: seq<Row>, first: int) {
    && |rows| == |messages|
    && forall i :: 0 <= i < |rows| ==> StoredAs(messages[i], rows[i]) && rows[i].rank == first + i
  }

  /** The attachment rows of a message stored under `rank`, in the order it carries them. */
  function AttachmentsOf(p: Prepared, rank: int): seq<Attachment> {
    seq(|p.attachments|, i requires 0 <= i < |p.attachments| => Attachment(rank, p.attachments[i]))
  }

  function AttachmentRows(messages: seq<Prepared>, rows: seq<Row>): seq<Attachment>
    requires |messages| == |rows|
  {
    if rows == [] then []
    else
      var n := |rows| - 1;
      AttachmentRows(messages[..n], rows[..n]) + AttachmentsOf(messages[n], rows[n].rank)
  }

  function Contents(messages: seq<Prepared>, rows: seq<Row>): map<int, seq<Byte>>
    requires |messages| == |rows|
  {
    if rows == [] then map[]
    else
      var n := |rows| - 1;
      Contents(messages[..n], rows[..n])[rows[n].rank := messages[n].raw]
  }

  /** The index entries of `rows`. */
  function Entries(messages: seq<Prepared>, rows: seq<Row>): map<int, Entry>
    requires |messages| == |rows|
  {
    if rows == [] then map[]
    else
      var n := |rows| - 1;
      Entries(messages[..n], rows[..n])[rows[n].rank := EntryOf(rows[n], messages[n].body)]
  }

  class Store {
    /** The parser, which decides what is indexed of a source. */
    const bodyOf: seq<Byte> -> string
    /** How the database takes statement `n` of a batch, when, and the id minted for it if it stores a message. */
    const execution: nat -> Execution
    const clock: nat -> int
    const ids: nat -> Id
    /** Statements of batches so far. */
    var statements: nat
    var messages: seq<Row>
    var fts: map<int, Entry>
    var content: map<int, seq<Byte>>
    var attachments: seq<Attachment>
    var tagRows: set<(Tag, int)>

    constructor (bodyOf: seq<Byte> -> string, execution: nat -> Execution, clock: nat -> int, ids: nat -> Id)
      ensures Valid() && messages == [] && this.bodyOf == bodyOf
      ensures this.execution == execution && this.clock == clock && this.ids == ids
    {
      this.bodyOf, this.execution, this.clock, this.ids, statements := bodyOf, execution, clock, ids, 0;
      messages, fts, content, attachments, tagRows := [], map[], map[], [], {};
    }

    ghost predicate Ordered() reads this {
      Ascending(messages) && DistinctIds(messages)
    }

    /** Every derived table mirrors the messages. */
    ghost predicate Valid() reads this {
      && Ordered() && Keyed(messages, fts, content, bodyOf) && Tagged(messages, tagRows)
      && NoOrphans(messages, attachments)
    }

    predicate Parsed(p: Prepared) {
      p.body == bodyOf(p.raw)
    }

    // ---------- Statements ----------

    /** Deletes message rows; content, attachments and tags follow by cascade. */
    method DeleteMessages(doomed: set<int>)
      modifies `messages, `content, `attachments, `tagRows
      ensures messages == Where(old(messages), (m: Row) => m.rank !in doomed)
      ensures content == old(content) - doomed
      ensures attachments == AttachmentsWhere(old(attachments), (a: Attachment) => a.rank !in doomed)
      ensures tagRows == set p | p in old(tagRows) && p.1 !in doomed
    {
      messages := Where(messages, (m: Row) => m.rank !in doomed);
      content := content - doomed;
      attachments := AttachmentsWhere(attachments, (a: Attachment) => a.rank !in doomed);
      tagRows := set p | p in tagRows && p.1 !in doomed;
    }

    /** Inserts a message row; a trigger files its tags. */
    method InsertMessage(m: Row)
      modifies `messages, `tagRows
      ensures messages == old(messages) + [m]
      ensures tagRows == old(tagRows) + set t | t in m.tags :: (t, m.rank)
    {
      messages := messages + [m];
      if m.tags != [] {
        tagRows := tagRows + set t | t in m.tags :: (t, m.rank);
      }
    }

    /** Updates one message row; a trigger files its tags again if they changed. */
    method UpdateRow(i: nat, m: Row)
      requires i < |messages| && m.rank == messages[i].rank
      modifies `messages, `tagRows
      ensures messages == old(messages)[i := m]
      ensures tagRows == if m.tags == old(messages)[i].tags then old(tagRows)
                         else (set p | p in old(tagRows) && p.1 != m.rank) + set t | t in m.tags :: (t, m.rank)
    {
      var was := messages[i].tags;
      messages := messages[i := m];
      if m.tags != was {
        tagRows := set p | p in tagRows && p.1 != m.rank;
        tagRows := tagRows + set t | t in m.tags :: (t, m.rank);
      }
    }

    // ---------- Deleting ----------

    lemma DeletionMirrors(doomed: set<int>)
      requires Valid()
      ensures var kept := Where(messages, (m: Row) => m.rank !in doomed);
              && Ascending(kept) && DistinctIds(kept)
              && Keyed(kept, fts - doomed, content - doomed, bodyOf)
              && Tagged(kept, set p | p in tagRows && p.1 !in doomed)
              && NoOrphans(kept, AttachmentsWhere(attachments, (a: Attachment) => a.rank !in doomed))
    {
      WhereAscends(messages, (m: Row) => m.rank !in doomed);
      WhereDistinct(messages, (m: Row) => m.rank !in doomed);
      DeleteKeyed(messages, fts, content, bodyOf, doomed);
      DeleteTagged(messages, tagRows, doomed);
      DeleteNoOrphans(messages, attachments, doomed);
    }

    /** Nothing is changed in what stays, and what belongs to a message that stays is kept. */
    twostate predicate OnlyRemoves() reads this {
      && (forall m :: m in messages ==> m in old(messages))
      && (forall k :: k in content ==> k in old(content) && content[k] == old(content)[k])
      && (forall a :: a in attachments <==> a in old(attachments) && Has(messages, a.rank))
    }

    /** One transaction that deletes messages by key. */
    method Remove(doomed: set<int>)
      requires Valid()
      modifies this
      ensures Valid() && OnlyRemoves() && messages == Where(old(messages), (m: Row) => m.rank !in doomed)
      ensures forall m :: m in messages <==> m in old(messages) && m.rank !in doomed
      ensures forall spare :: Spares(old(messages), doomed, spare) ==> Evolved(old(messages), messages, spare)
    {
      hide Ascending, DistinctIds, Keyed, Tagged, Evolved;
      DeletionMirrors(doomed);
      var keep := (m: Row) => m.rank !in doomed;
      var kept := Where(messages, keep);
      WhereMembers(messages, keep);
      forall spare | Spares(messages, doomed, spare)
        ensures Evolved(messages, kept, spare)
      {
        DeletionEvolves(messages, keep, spare);
      }
      forall a | a in attachments ensures Has(kept, a.rank) <==> a.rank !in doomed {
        if a.rank !in doomed {
          KeptHas(messages, doomed, a.rank);
        } else {
          assert forall i :: 0 <= i < |kept| ==> kept[i] in kept;
        }
      }
      fts := fts - doomed;
      DeleteMessages(doomed);
    }

    /** Deletes one message, or reports that it is not stored. */
    method Delete(id: Id) returns (found: bool)
      requires Valid()
      modifies this
      ensures Valid() && OnlyRemoves() && found == (exists m :: m in old(messages) && m.id == id)
      ensures forall m :: m in messages <==> m in old(messages) && m.id != id
      ensures forall spare :: spare != id ==> Evolved(old(messages), messages, spare)
    {
      hide Ascending, DistinctIds, Keyed, Tagged, NoOrphans, Evolved;
      var rank := RankOf(messages, id);
      OnlyThat(messages, id);
      Remove(if rank.Some? then {rank.value} else {});
      found := rank.Some?;
    }

    /** Deletes every message created before `cutoff`. */
    method DeleteOlderThan(cutoff: int) returns (ids: set<Id>)
      requires Valid()
      modifies this
      ensures Valid() && OnlyRemoves()
      ensures forall m :: m in messages <==> m in old(messages) && cutoff <= m.createdAt
      ensures ids == set m | m in old(messages) && m.createdAt < cutoff :: m.id
      ensures forall spare :: spare !in ids ==> Evolved(old(messages), messages, spare)
    {
      hide Ascending, DistinctIds, Keyed, Tagged, NoOrphans, Evolved;
      ids := set m | m in messages && m.createdAt < cutoff :: m.id;
      var doomed := set m | m in messages && m.createdAt < cutoff :: m.rank;
      OneRowPerKey(messages);
      Remove(doomed);
    }

    /**
     * Keeps the newest messages, at most `max` of them. `seen` is a count read
     * before the transaction, which later writes may have outdated.
     */
    method TrimToMax(max: int, seen: int) returns (ids: set<Id>)
      requires Valid()
      modifies this
      ensures Valid() && OnlyRemoves()
      ensures var n := if max <= 0 then 0 else max;
              messages == if seen <= max || |old(messages)| <= n then old(messages)
                          else old(messages)[|old(messages)| - n..]
      ensures ids == set m | m in old(messages) && m !in messages :: m.id
      ensures forall spare :: spare !in ids ==> Evolved(old(messages), messages, spare)
    {
      hide DistinctIds, Keyed, Tagged, Evolved;
      ids := {};
      NothingEvolves(messages);
      var offset := if max <= 0 then 0 else max;
      if seen <= max || |messages| <= offset {
        return;
      }
      var cut := |messages| - offset;
      var threshold := messages[cut - 1].rank;
      var doomed := set m | m in messages && m.rank <= threshold :: m.rank;
      ids := set m | m in messages && m.rank in doomed :: m.id;
      NewestKept(messages, cut, doomed);
      hide Ascending;
      Remove(doomed);
    }

    /** Empties every table, the derived ones first. */
    method DeleteAll() returns (count: nat)
      requires Valid()
      modifies this
      ensures Valid() && count == |old(messages)|
      ensures messages == [] && fts == map[] && content == map[] && attachments == [] && tagRows == {}
    {
      count := |messages|;
      fts := map[];
      content := map[];
      attachments := [];
      tagRows := {};
      messages := [];
    }

    // ---------- Updating ----------

    /** Changes flags and tags of one message in a single statement, or reports that it is not stored. */
    method UpdateMessage(id: Id, change: Change) returns (found: bool)
      requires Valid()
      modifies `messages, `tagRows
      ensures Valid() && found == (exists m :: m in old(messages) && m.id == id)
      ensures |messages| == |old(messages)|
      ensures forall i :: 0 <= i < |messages| ==>
        var was, now := old(messages)[i], messages[i];
        if was.id != id then now == was
        else
          && now.isRead == (match change.isRead case Some(read) => read case None => was.isRead)
          && now.isStarred == (match change.isStarred case Some(starred) => starred case None => was.isStarred)
          && now.tags == (match change.tags case Some(tags) => tags case None => was.tags)
          && now.rank == was.rank && now.id == was.id && now.createdAt == was.createdAt
          && now.sender == was.sender && now.recipients == was.recipients && now.subject == was.subject
          && now.hasAttachments == was.hasAttachments
      ensures forall spare :: Evolved(old(messages), messages, spare)
    {
      hide Keyed, Tagged, NoOrphans, Evolved;
      NothingEvolves(messages);
      var i := 0;
      while i < |messages| && messages[i].id != id
        invariant 0 <= i <= |messages|
        invariant forall j :: 0 <= j < i ==> messages[j].id != id
      {
        i := i + 1;
      }
      found := i < |messages|;
      if found {
        var m := Changed(messages[i], change);
        UpdateKeyed(messages, fts, content, bodyOf, attachments, i, m);
        UpdateTagged(messages, tagRows, i, m);
        if m.tags == messages[i].tags {
          SameTagged(messages, tagRows, i, m);
        }
        ghost var now := messages[i := m];
        forall spare ensures Evolved(messages, now, spare) {
          UpdateEvolves(messages, i, m, spare);
        }
        UpdateRow(i, m);
      }
    }

    // ---------- Inserting ----------

    /** One statement of a batch. */
    method Execute() returns (e: Execution)
      modifies `statements
      ensures statements == old(statements) + 1 && e == execution(old(statements))
    {
      e := execution(statements);
      statements := statements + 1;
    }

    predicate AllDone(from: nat, to: int) {
      forall n :: from <= n < to ==> execution(n).Done?
    }

    /** A write failed because of its last statement, which met a lock or an error, or minted an id that `rows` use. */
    predicate FailedLast(contended: bool, from: nat, rows: seq<Row>) reads `statements {
      && from < statements && AllDone(from, statements - 1)
      && match execution(statements - 1)
         case Locked => contended
         case Broken => !contended
         case Done => !contended && exists m :: m in rows && m.id == ids(statements - 1)
    }

    /** Writes the attachment rows of a message until a statement fails. */
    method WriteAttachments(p: Prepared, rank: int) returns (e: Execution)
      modifies `attachments, `statements
      ensures old(statements) <= statements && AllDone(old(statements), if e.Done? then statements else statements - 1)
      ensures if e.Done? then attachments == old(attachments) + AttachmentsOf(p, rank)
              else old(statements) < statements && e == execution(statements - 1)
    {
      e := Done;
      var k := 0;
      while k < |p.attachments|
        invariant 0 <= k <= |p.attachments| && e.Done?
        invariant old(statements) <= statements && AllDone(old(statements), statements)
        invariant attachments == old(attachments) + AttachmentsOf(p, rank)[..k]
      {
        e := Execute();
        if !e.Done? {
          return;
        }
        attachments := attachments + [Attachment(rank, p.attachments[k])];
        k := k + 1;
      }
    }

    /** Writes a message with its content and attachment rows, unless a statement fails. */
    method InsertRows(p: Prepared) returns (r: Result<Row>)
      requires Ordered()
      modifies `messages, `content, `attachments, `tagRows, `statements
      ensures if r.Committed? then old(statements) < statements && AllDone(old(statements), statements)
              else FailedLast(r.Contended?, old(statements), old(messages))
      ensures r.Committed? ==>
        var m := r.value;
        && StoredAs(p, m) && m.rank == NextRank(old(messages)) && RankOf(old(messages), m.id).None?
        && m.id == ids(old(statements)) && m.createdAt == clock(old(statements))
        && messages == old(messages) + [m] && tagRows == old(tagRows)
        && content == old(content)[m.rank := p.raw]
        && attachments == old(attachments) + AttachmentsOf(p, m.rank)
    {
      hide Ascending, DistinctIds, RankOf, AttachmentsOf;
      var id, now := ids(statements), clock(statements);
      OnlyThat(messages, id);
      var e := Execute();
      if e.Locked? {
        return Contended;
      }
      if e.Broken? || RankOf(messages, id).Some? {
        return Refused;
      }
      var m := Row(NextRank(messages), id, p.sender, p.recipients, p.subject, p.hasAttachments, false, false, [], now);
      InsertMessage(m);
      assert (set t | t in m.tags :: (t, m.rank)) == {};
      e := Execute();
      if !e.Done? {
        return if e.Locked? then Contended else Refused;
      }
      content := content[m.rank := p.raw];
      e := WriteAttachments(p, m.rank);
      if !e.Done? {
        return if e.Locked? then Contended else Refused;
      }
      return Committed(m);
    }

    /** Adds one index row per message, in a single statement. */
    method IndexIn(batch: seq<Prepared>, rows: seq<Row>)
      requires |batch| == |rows|
      modifies `fts
      ensures fts == old(fts) + Entries(batch, rows)
    {
      var k := 0;
      while k < |rows|
        invariant 0 <= k <= |rows|
        invariant fts == old(fts) + Entries(batch[..k], rows[..k])
      {
        assert batch[..k + 1][..k] == batch[..k] && rows[..k + 1][..k] == rows[..k];
        fts := fts[rows[k].rank := EntryOf(rows[k], batch[k].body)];
        k := k + 1;
      }
      assert batch[..k] == batch && rows[..k] == rows;
    }

    /** The tables mirror the messages once `pending` has been indexed. */
    ghost predicate MirroredWith(pending: map<int, Entry>) reads this {
      && Ordered() && Keyed(messages, fts + pending, content, bodyOf) && Tagged(messages, tagRows)
      && NoOrphans(messages, attachments)
    }

    /** The ids of `rows` were in use before, or minted for one of these statements. */
    predicate MintedSince(rows: seq<Row>, before: seq<Row>, from: nat, to: nat) {
      forall m :: m in rows ==> m in before || exists n :: from <= n < to && m.id == ids(n)
    }

    /** A failed write, with what its batch had stored by then accounted for. */
    predicate Explained(contended: bool, from: nat, rows: seq<Row>) reads `statements {
      && from < statements && AllDone(from, statements - 1)
      && match execution(statements - 1)
         case Locked => contended
         case Broken => !contended
         case Done =>
           && !contended
           && ((exists m :: m in rows && m.id == ids(statements - 1))
               || exists n :: from <= n < statements - 1 && ids(n) == ids(statements - 1))
    }

    lemma Explain(contended: bool, from: nat, failed: nat, rows: seq<Row>, before: seq<Row>)
      requires FailedLast(contended, failed, rows) && from <= failed && AllDone(from, failed)
      requires MintedSince(rows, before, from, failed)
      ensures Explained(contended, from, before)
    {
      if execution(statements - 1).Done? {
        var m :| m in rows && m.id == ids(statements - 1);
        assert m in before || exists n :: from <= n < failed && m.id == ids(n);
      }
    }

    /** Writes every message, in order, and indexes them last; stops at the first statement that fails. */
    method InsertAllIn(batch: seq<Prepared>) returns (r: Result<seq<Row>>)
      requires Valid() && forall i :: 0 <= i < |batch| ==> Parsed(batch[i])
      modifies this
      ensures r.Committed? ==> Valid() && Inserted(batch, r.value)
      ensures if r.Committed? then old(statements) <= statements && AllDone(old(statements), statements)
              else Explained(r.Contended?, old(statements), old(messages))
    {
      hide Keyed, Tagged, NoOrphans, Ascending, DistinctIds, RankOf, StoreAs, Entries, Contents, AttachmentRows,
           AttachmentsOf, MintedSince, Explained, FailedLast;
      var stored: seq<Row> := [];
      NothingStored(NextRank(messages));
      NothingMinted(messages, statements);
      var i := 0;
      assert fts + map[] == fts && batch[..0] == [];
      while i < |batch|
        invariant 0 <= i == |stored| <= |batch| && fts == old(fts)
        invariant old(statements) <= statements && AllDone(old(statements), statements)
        invariant MintedSince(messages, old(messages), old(statements), statements)
        invariant MirroredWith(Entries(batch[..i], stored))
        invariant messages == old(messages) + stored && StoreAs(batch[..i], stored, NextRank(old(messages)))
        invariant content == old(content) + Contents(batch[..i], stored)
        invariant attachments == old(attachments) + AttachmentRows(batch[..i], stored)
      {
        ghost var before, from := messages, statements;
        var written := WriteNext(batch[i], Entries(batch[..i], stored));
        if !written.Committed? {
          Explain(written.Contended?, old(statements), from, before, old(messages));
          return if written.Contended? then Contended else Refused;
        }
        var m := written.value;
        MintedMore(before, old(messages), old(statements), from, m);
        StoreNext(batch[..i], stored, NextRank(old(messages)), batch[i], m, old(messages));
        assert batch[..i + 1] == batch[..i] + [batch[i]];
        assert old(messages) + stored + [m] == old(messages) + (stored + [m]);
        PutLast(old(content), Contents(batch[..i], stored), m.rank, batch[i].raw);
        stored := stored + [m];
        i := i + 1;
      }
      assert batch[..i] == batch;
      var indexed := IndexAll(batch, stored);
      if !indexed.Done? {
        ExplainStatement(indexed, old(statements), old(messages));
        return if indexed.Locked? then Contended else Refused;
      }
      return Committed(stored);
    }

    lemma ExplainStatement(e: Execution, from: nat, rows: seq<Row>)
      requires from < statements && AllDone(from, statements - 1) && !e.Done? && e == execution(statements - 1)
      ensures Explained(e.Locked?, from, rows)
    {
    }

    lemma ExplainEarlier(contended: bool, from: nat, rows: seq<Row>)
      requires Explained(contended, from + 1, rows) && execution(from).Done?
      ensures Explained(contended, from, rows)
    {
    }

    lemma NothingMinted(rows: seq<Row>, from: nat)
      ensures MintedSince(rows, rows, from, from)
    {
    }

    lemma MintedMore(rows: seq<Row>, before: seq<Row>, from: nat, n: nat, m: Row)
      requires MintedSince(rows, before, from, n) && from <= n < statements && m.id == ids(n)
      ensures MintedSince(rows + [m], before, from, statements)
    {
    }

    /** One message of a batch, to be indexed later. */
    method WriteNext(p: Prepared, ghost pending: map<int, Entry>) returns (r: Result<Row>)
      requires MirroredWith(pending) && Parsed(p)
      modifies `messages, `content, `attachments, `tagRows, `statements
      ensures if r.Committed? then old(statements) < statements && AllDone(old(statements), statements)
              else FailedLast(r.Contended?, old(statements), old(messages))
      ensures r.Committed? ==>
        var m := r.value;
        && MirroredWith(pending[m.rank := EntryOf(m, p.body)])
        && StoredAs(p, m) && m.rank == NextRank(old(messages)) && messages == old(messages) + [m]
        && m.id == ids(old(statements)) && m.createdAt == clock(old(statements))
        && content == old(content)[m.rank := p.raw] && attachments == old(attachments) + AttachmentsOf(p, m.rank)
    {
      hide Keyed, Tagged, NoOrphans, Ascending, DistinctIds, RankOf, FailedLast, AllDone;
      r := InsertRows(p);
      if r.Committed? {
        var m := r.value;
        IdNew(old(messages), m);
        InsertKeyed(old(messages), fts + pending, old(content), bodyOf, m, p.raw);
        InsertTagged(old(messages), tagRows, m);
        assert tagRows + (set t | t in m.tags :: (t, m.rank)) == tagRows;
        AttachmentsBelong(old(messages), old(attachments), p, m);
        assert (fts + pending)[m.rank := EntryOf(m, p.body)] == fts + pending[m.rank := EntryOf(m, p.body)];
      }
    }

    /** Indexes a batch in as few statements as possible, until one of them fails. */
    method IndexAll(batch: seq<Prepared>, rows: seq<Row>) returns (e: Execution)
      requires |batch| == |rows|
      modifies `fts, `statements
      ensures e.Done? ==> fts == old(fts) + Entries(batch, rows)
      ensures old(statements) <= statements && AllDone(old(statements), if e.Done? then statements else statements - 1)
      ensures !e.Done? ==> old(statements) < statements && e == execution(statements - 1)
    {
      hide Entries;
      var k := 0;
      e := Done;
      NothingStored(0);
      while k < |rows|
        invariant 0 <= k <= |rows|
        invariant old(statements) <= statements && AllDone(old(statements), statements)
        invariant fts == old(fts) + Entries(batch[..k], rows[..k])
      {
        e := Execute();
        if !e.Done? {
          return;
        }
        var to := if k + FTS_ROWS_PER_STATEMENT < |rows| then k + FTS_ROWS_PER_STATEMENT else |rows|;
        EntriesConcat(batch[..k], rows[..k], batch[k..to], rows[k..to]);
        assert batch[..k] + batch[k..to] == batch[..to] && rows[..k] + rows[k..to] == rows[..to];
        IndexIn(batch[k..to], rows[k..to]);
        MergeAssoc(old(fts), Entries(batch[..k], rows[..k]), Entries(batch[k..to], rows[k..to]));
        k := to;
      }
      e := Done;
      assert batch[..k] == batch && rows[..k] == rows;
    }

    /** The batch was added behind everything stored, whole and in order, and nothing else changed. */
    twostate predicate Inserted(batch: seq<Prepared>, rows: seq<Row>) reads this {
      && messages == old(messages) + rows && StoreAs(batch, rows, NextRank(old(messages)))
      && content == old(content) + Contents(batch, rows)
      && attachments == old(attachments) + AttachmentRows(batch, rows)
    }

    twostate predicate Untouched() reads this {
      && messages == old(messages) && fts == old(fts) && content == old(content)
      && attachments == old(attachments) && tagRows == old(tagRows)
    }

    /** One attempt at a batch: a failed statement or commit rolls everything back. */
    method InsertBatchOnce(batch: seq<Prepared>) returns (r: Result<seq<Row>>)
      requires Valid() && forall i :: 0 <= i < |batch| ==> Parsed(batch[i])
      modifies this
      ensures Valid() && if r.Committed? then Inserted(batch, r.value) else Untouched()
      ensures if r.Committed? then AllDone(old(statements), statements)
              else Explained(r.Contended?, old(statements), old(messages))
      ensures old(statements) < statements
    {
      hide Keyed, Tagged, NoOrphans, Ascending, DistinctIds, RankOf, Explained, StoreAs, Contents, AttachmentRows;
      ghost var from := statements;
      var e := Execute();
      if !e.Done? {
        ExplainStatement(e, from, messages);
        return if e.Locked? then Contended else Refused;
      }
      var m, f, c, a, t := messages, fts, content, attachments, tagRows;
      r := InsertAllIn(batch);
      if !r.Committed? {
        ExplainEarlier(r.Contended?, from, m);
      }
      if r.Committed? {
        e := Execute();
        if e.Done? {
          return;
        }
        ExplainStatement(e, from, m);
        r := if e.Locked? then Contended else Refused;
      }
      messages, fts, content, attachments, tagRows := m, f, c, a, t;
    }

    /**
     * Tries a contended batch again, up to five times and not once the time is
     * up. However often it is attempted, it is stored once or not at all, and
     * it is not stored only if its last attempt failed for cause.
     */
    method InsertBatch(batch: seq<Prepared>) returns (r: Result<seq<Row>>, ghost tries: nat, ghost last: nat)
      requires Valid() && forall i :: 0 <= i < |batch| ==> Parsed(batch[i])
      modifies this
      ensures Valid() && if r.Committed? then Inserted(batch, r.value) else Untouched()
      ensures old(statements) <= last < statements && 1 <= tries <= WRITE_ATTEMPTS
      ensures !r.Committed? ==> Explained(r.Contended?, last, old(messages))
      ensures r.Contended? ==>
        tries == WRITE_ATTEMPTS || clock(statements) >= clock(old(statements)) + WRITE_RETRY_BUDGET
      ensures forall spare :: Evolved(old(messages), messages, spare)
    {
      hide Keyed, Tagged, NoOrphans, Ascending, DistinctIds, RankOf, Evolved, Explained;
      NothingEvolves(messages);
      var deadline := clock(statements) + WRITE_RETRY_BUDGET;
      var attempt := 0;
      r, last := Contended, statements;
      while true
        invariant 0 <= attempt < WRITE_ATTEMPTS && Valid() && Untouched() && old(statements) <= statements
        decreases WRITE_ATTEMPTS - attempt
      {
        last := statements;
        r := InsertBatchOnce(batch);
        if !(r.Contended? && attempt + 1 < WRITE_ATTEMPTS && clock(statements) < deadline) {
          break;
        }
        attempt := attempt + 1;
      }
      tries := attempt + 1;
      if r.Committed? {
        forall spare ensures Evolved(old(messages), messages, spare) {
          InsertEvolves(old(messages), r.value, spare);
        }
      }
    }

    /** A store that takes every statement, and ids that are new, refuse no batch. */
    lemma NothingFails(contended: bool, last: nat, rows: seq<Row>)
      requires Explained(contended, last, rows)
      requires forall n :: execution(n).Done?
      requires forall m, n: nat :: m in rows ==> m.id != ids(n)
      ensures exists j: nat, k: nat :: j < k && ids(j) == ids(k)
    {
    }

    // ---------- Everything at once ----------

    /** Any operations in any order, sparing the message with id `spare`. */
    method Churn(spare: Id)
      requires Valid()
      modifies this
      ensures Valid() && Evolved(old(messages), messages, spare)
    {
      hide Ascending, DistinctIds, Keyed, Tagged, NoOrphans, Evolved;
      NothingEvolves(messages);
      var steps: nat := *;
      while steps > 0
        invariant Valid() && Evolved(old(messages), messages, spare)
      {
        ghost var before := messages;
        Step(spare);
        EvolvedTwice(old(messages), before, messages, spare);
        steps := steps - 1;
      }
    }

    method Step(spare: Id)
      requires Valid()
      modifies this
      ensures Valid() && Evolved(old(messages), messages, spare)
    {
      hide Ascending, DistinctIds, Keyed, Tagged, NoOrphans, Evolved;
      NothingEvolves(messages);
      var id: Id, cutoff: int, max: int, change: Change, batch: seq<Prepared> := *, *, *, *, *;
      if {
        case forall i :: 0 <= i < |batch| ==> Parsed(batch[i]) => var r, tries, last := InsertBatch(batch);
        case true => var found := UpdateMessage(id, change);
        case id != spare => var found := Delete(id);
        case forall i :: 0 <= i < |messages| && messages[i].id == spare ==> cutoff <= messages[i].createdAt =>
          var ids := DeleteOlderThan(cutoff);
        case forall i :: 0 <= i < |messages| && messages[i].id == spare ==> |messages| - i <= max =>
          TrimSparing(max, spare);
        case forall i :: 0 <= i < |messages| ==> messages[i].id != spare =>
          NobodyEvolves(messages, spare);
          var count := DeleteAll();
      }
    }

    method TrimSparing(max: int, spare: Id)
      requires Valid() && forall i :: 0 <= i < |messages| && messages[i].id == spare ==> |messages| - i <= max
      modifies this
      ensures Valid() && Evolved(old(messages), messages, spare)
    {
      hide DistinctIds, Keyed, Tagged, NoOrphans, Evolved;
      KeptSpare(messages, max, spare);
      var ids := TrimToMax(max, |messages|);
    }
  }

  lemma NobodyEvolves(rows: seq<Row>, spare: Id)
    requires forall i :: 0 <= i < |rows| ==> rows[i].id != spare
    ensures forall now :: Evolved(rows, now, spare)
  {
  }

  lemma KeptSpare(rows: seq<Row>, max: int, spare: Id)
    requires DistinctIds(rows)
    requires forall i :: 0 <= i < |rows| && rows[i].id == spare ==> |rows| - i <= max
    ensures var n := if max <= 0 then 0 else max;
            var kept := if |rows| <= n then rows else rows[|rows| - n..];
            forall m :: m in rows && m !in kept ==> m.id != spare
  {
    var n := if max <= 0 then 0 else max;
    if n < |rows| {
      var kept := rows[|rows| - n..];
      forall i | 0 <= i < |rows| && rows[i].id == spare ensures rows[i] in kept {
        assert kept[i - (|rows| - n)] == rows[i];
      }
    }
  }

  lemma AttachmentsBelong(rows: seq<Row>, attachments: seq<Attachment>, p: Prepared, m: Row)
    requires NoOrphans(rows, attachments)
    ensures NoOrphans(rows + [m], attachments + AttachmentsOf(p, m.rank))
  {
    GrowNoOrphans(rows, attachments, m);
    forall a | a in AttachmentsOf(p, m.rank) ensures a.rank == m.rank {
    }
  }

  lemma NothingStored(first: int)
    ensures StoreAs([], [], first) && Entries([], []) == map[] && Contents([], []) == map[] &&
            AttachmentRows([], []) == []
  {
  }

  lemma MergeAssoc(f: map<int, Entry>, a: map<int, Entry>, b: map<int, Entry>)
    ensures f + a + b == f + (a + b)
  {
  }

  lemma PutLast(c: map<int, seq<Byte>>, more: map<int, seq<Byte>>, k: int, raw: seq<Byte>)
    ensures (c + more)[k := raw] == c + more[k := raw]
  {
  }

  lemma EntriesSnoc(batch: seq<Prepared>, rows: seq<Row>, p: Prepared, m: Row)
    requires |batch| == |rows|
    ensures Entries(batch + [p], rows + [m]) == Entries(batch, rows)[m.rank := EntryOf(m, p.body)]
  {
    assert (batch + [p])[..|rows|] == batch && (rows + [m])[..|rows|] == rows;
  }

  /** One more message stored behind the others. */
  lemma StoreNext(batch: seq<Prepared>, rows: seq<Row>, first: int, p: Prepared, m: Row, before: seq<Row>)
    requires StoreAs(batch, rows, first) && StoredAs(p, m) && first == NextRank(before) &&
             m.rank == NextRank(before + rows)
    ensures StoreAs(batch + [p], rows + [m], first)
    ensures Entries(batch + [p], rows + [m]) == Entries(batch, rows)[m.rank := EntryOf(m, p.body)]
    ensures Contents(batch + [p], rows + [m]) == Contents(batch, rows)[m.rank := p.raw]
    ensures AttachmentRows(batch + [p], rows + [m]) == AttachmentRows(batch, rows) + AttachmentsOf(p, m.rank)
  {
    assert (batch + [p])[..|rows|] == batch && (rows + [m])[..|rows|] == rows;
    assert rows != [] ==> (before + rows)[|before + rows| - 1] == rows[|rows| - 1];
  }

  lemma {:induction false} EntriesConcat(a: seq<Prepared>, ra: seq<Row>, b: seq<Prepared>, rb: seq<Row>)
    requires |a| == |ra| && |b| == |rb|
    ensures Entries(a + b, ra + rb) == Entries(a, ra) + Entries(b, rb)
    decreases |b|
  {
    hide Entries;
    NothingStored(0);
    if b == [] {
      assert a + b == a && ra + rb == ra && rb == [];
    } else {
      var n := |b| - 1;
      var p, m, init, rinit := b[n], rb[n], b[..n], rb[..n];
      EntriesConcat(a, ra, init, rinit);
      EntriesSnoc(a + init, ra + rinit, p, m);
      EntriesSnoc(init, rinit, p, m);
      assert a + b == a + init + [p] && ra + rb == ra + rinit + [m] && b == init + [p] && rb == rinit + [m];
      EntryLast(Entries(a, ra), Entries(init, rinit), m.rank, EntryOf(m, p.body));
    }
  }

  lemma EntryLast(f: map<int, Entry>, more: map<int, Entry>, k: int, e: Entry)
    ensures (f + more)[k := e] == f + more[k := e]
  {
  }

  lemma OneRowPerKey(rows: seq<Row>)
    requires Ascending(rows)
    ensures forall a, b :: a in rows && b in rows && a.rank == b.rank ==> a == b
  {
  }

  lemma NothingEvolves(rows: seq<Row>)
    ensures forall spare :: Evolved(rows, rows, spare)
  {
  }

  /** Whether deleting the keys in `doomed` leaves the message with id `spare`. */
  ghost predicate Spares(rows: seq<Row>, doomed: set<int>, spare: Id) {
    forall m :: m in rows && m.id == spare ==> m.rank !in doomed
  }

  /** Deleting up to the key at `cut` leaves exactly the rows after it. */
  lemma NewestKept(rows: seq<Row>, cut: nat, doomed: set<int>)
    requires Ascending(rows) && 0 < cut <= |rows|
    requires doomed == set m | m in rows && m.rank <= rows[cut - 1].rank :: m.rank
    ensures Where(rows, (m: Row) => m.rank !in doomed) == rows[cut..]
    ensures forall m :: m in rows ==> m in rows[cut..] || m.rank in doomed
    ensures forall m :: m in rows[cut..] ==> m in rows && m.rank !in doomed
  {
    HeadDoomed(rows, cut, doomed);
    hide *;
    assert rows == rows[..cut] + rows[cut..];
    WhereTail(rows, cut, (m: Row) => m.rank !in doomed);
  }

  lemma WhereTail(rows: seq<Row>, cut: nat, keep: Row -> bool)
    requires cut <= |rows| && (forall m :: m in rows[..cut] ==> !keep(m)) && forall m :: m in rows[cut..] ==> keep(m)
    ensures Where(rows, keep) == rows[cut..]
  {
    hide *;
    WhereNone(rows[..cut], keep);
    WhereAll(rows[cut..], keep);
    WhereConcat(rows[..cut], rows[cut..], keep);
    assert rows == rows[..cut] + rows[cut..];
  }

  lemma HeadDoomed(rows: seq<Row>, cut: nat, doomed: set<int>)
    requires Ascending(rows) && 0 < cut <= |rows|
    requires doomed == set m | m in rows && m.rank <= rows[cut - 1].rank :: m.rank
    ensures forall m :: m in rows[..cut] ==> m.rank in doomed
    ensures forall m :: m in rows[cut..] ==> m.rank !in doomed
  {
    forall m | m in rows[..cut] ensures m.rank in doomed {
      var i :| 0 <= i < cut && rows[i] == m;
      assert m in rows;
    }
    forall m | m in rows[cut..] ensures m.rank !in doomed {
      var i :| cut <= i < |rows| && rows[i] == m;
      assert rows[cut - 1].rank < m.rank;
    }
  }

  lemma OnlyThat(rows: seq<Row>, id: Id)
    requires Ascending(rows) && DistinctIds(rows)
    ensures forall m :: m in rows ==> (m.id == id <==> RankOf(rows, id) == Some(m.rank))
  {
  }
}
