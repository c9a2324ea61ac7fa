/**
 * The web inbox's list: rows, an index from message to position that survives
 * prepends, arrivals held while the reader is scrolled away, and the cursor
 * of the next older page.
 */
module InboxIndex {
  import opened Helpers
  import opened InboxList

  /** `positions` names exactly `rows`, each where it is, the first one at `head`. */
  ghost predicate Indexes(positions: map<Id, int>, head: int, rows: seq<Summary>) {
    && (forall i :: 0 <= i < |rows| ==> rows[i].id in positions && positions[rows[i].id] == head + i)
    && (forall id :: id in positions ==> exists i :: 0 <= i < |rows| && rows[i].id == id)
  }

  /** What a live event changes of a message. */
  datatype Patch = SetRead(isRead: bool) | SetStarred(isStarred: bool) | SetTags(tags: seq<string>)
  {
    function Apply(m: Summary): Summary {
      match this
      case SetRead(isRead) => m.(isRead := isRead)
      case SetStarred(isStarred) => m.(isStarred := isStarred)
      case SetTags(tags) => m.(tags := tags)
    }
  }

  /** The rows of a list, loaded and waiting, and what it counts. */
  datatype Counted = Counted(rows: seq<Summary>, held: seq<Summary>, arrivals: int, total: int)

  function Replaced(rows: seq<Summary>, patched: Summary): seq<Summary> {
    var index := IndexOf(rows, patched.id);
    if index < 0 then rows else rows[index := patched]
  }

  function AtLeastZero(n: int): int {
    if n > 0 then n else 0
  }

  /** A list with `patch` applied to the message `id`, if it holds it. */
  function Patched(c: Counted, id: Id, patch: Patch, f: Filters): Counted {
    var at, index := IndexOf(c.held, id), IndexOf(c.rows, id);
    if 0 <= at then
      var patched := patch.Apply(c.held[at]);
      if Matches(patched, f) then c.(held := c.held[at := patched])
      else c.(held := Without(c.held, id), arrivals := c.arrivals - 1, total := AtLeastZero(c.total - 1))
    else if 0 <= index then
      var current := c.rows[index];
      var patched := patch.Apply(current);
      var change := (if Matches(patched, f) then 1 else 0) - (if Matches(current, f) then 1 else 0);
      c.(rows := c.rows[index := patched], total := if change == 0 then c.total else AtLeastZero(c.total + change))
    else c
  }

  /** Each patch sets the one field it is about. */
  lemma EachPatchSets(m: Summary, isRead: bool, isStarred: bool, tags: seq<string>)
    ensures SetRead(isRead).Apply(m).isRead == isRead && SetRead(isRead).Apply(m).(isRead := m.isRead) == m
    ensures SetStarred(isStarred).Apply(m).isStarred == isStarred
    ensures SetStarred(isStarred).Apply(m).(isStarred := m.isStarred) == m
    ensures SetTags(tags).Apply(m).tags == tags && SetTags(tags).Apply(m).(tags := m.tags) == m
  {
  }

  /** How many rows pass the filters. */
  function Passed(rows: seq<Summary>, f: Filters): nat {
    if rows == [] then 0 else (if Matches(rows[0], f) then 1 else 0) + Passed(rows[1..], f)
  }

  lemma {:induction false} PassedConcat(a: seq<Summary>, b: seq<Summary>, f: Filters)
    ensures Passed(a + b, f) == Passed(a, f) + Passed(b, f)
  {
    if a == [] {
      assert a + b == b;
    } else {
      assert (a + b)[1..] == a[1..] + b;
      PassedConcat(a[1..], b, f);
    }
  }

  lemma PassedAt(rows: seq<Summary>, i: nat, m: Summary, f: Filters)
    requires i < |rows|
    ensures Passed(rows[i := m], f) - Passed(rows, f) ==
            (if Matches(m, f) then 1 else 0) - (if Matches(rows[i], f) then 1 else 0)
    ensures Passed(rows[..i] + rows[i + 1..], f) == Passed(rows, f) - (if Matches(rows[i], f) then 1 else 0)
  {
    hide Matches;
    var a, b := rows[..i], rows[i + 1..];
    assert rows == a + ([rows[i]] + b) && rows[i := m] == a + ([m] + b);
    PassedConcat(a, [rows[i]] + b, f);
    PassedConcat(a, [m] + b, f);
    PassedConcat(a, b, f);
    assert ([rows[i]] + b)[1..] == b && ([m] + b)[1..] == b;
  }

  /**
   * An event moves the total by as much as the number of listed messages,
   * loaded and waiting, that pass the filters, and the number waiting by as
   * much as their rows. A row it does not name stays as it is.
   */
  lemma PatchKeepsBalance(c: Counted, id: Id, patch: Patch, f: Filters)
    requires forall i :: 0 <= i < |c.held| ==> Matches(c.held[i], f)
    requires Passed(c.rows, f) + |c.held| <= c.total
    ensures var now := Patched(c, id, patch, f);
            && now.total - (Passed(now.rows, f) + |now.held|) == c.total - (Passed(c.rows, f) + |c.held|)
            && now.arrivals - |now.held| == c.arrivals - |c.held|
            && (forall i :: 0 <= i < |now.held| ==> Matches(now.held[i], f)) && |now.rows| == |c.rows|
            && forall i :: 0 <= i < |c.rows| ==>
                 now.rows[i] == c.rows[i] || (c.rows[i].id == id && now.rows[i] == patch.Apply(c.rows[i]))
  {
    hide Matches, IndexOf, Without, Passed;
    var at, index := IndexOf(c.held, id), IndexOf(c.rows, id);
    if 0 <= at {
      OneLess(c.held, id);
    } else if 0 <= index {
      PassedAt(c.rows, index, patch.Apply(c.rows[index]), f);
    }
  }

  lemma OneLess(rows: seq<Summary>, id: Id)
    requires 0 <= IndexOf(rows, id)
    ensures |Without(rows, id)| == |rows| - 1 && forall i :: 0 <= i < |rows| - 1 ==> Without(rows, id)[i] in rows
  {
  }

  /**
   * A message that the list holds, waiting or else loaded, is changed there, or
   * let go if it waits and no longer passes.
   */
  lemma PatchTakesEffect(c: Counted, id: Id, patch: Patch, f: Filters)
    requires Distinct(c.held) && Distinct(c.rows)
    ensures var now := Patched(c, id, patch, f);
            if exists m :: m in c.held && m.id == id then
              now.rows == c.rows && forall m :: m in c.held && m.id == id ==>
                if Matches(patch.Apply(m), f) then patch.Apply(m) in now.held else forall h :: h in now.held ==>
                  h.id != id
            else now.held == c.held && forall m :: m in c.rows && m.id == id ==> patch.Apply(m) in now.rows
  {
    hide Matches;
    forall m | m in c.held && m.id == id ensures m == c.held[IndexOf(c.held, id)] {
      var i :| 0 <= i < |c.held| && c.held[i] == m;
      IndexOfAt(c.held, i);
    }
    forall m | m in c.rows && m.id == id ensures m == c.rows[IndexOf(c.rows, id)] {
      var i :| 0 <= i < |c.rows| && c.rows[i] == m;
      IndexOfAt(c.rows, i);
    }
    WithoutIsGone(c.held, id);
    var less, at := Without(c.held, id), IndexOf(c.held, id);
    forall h | h in less ensures h.id != id {
      var i :| 0 <= i < |less| && less[i] == h;
    }
    if 0 <= at {
      assert c.held[at := patch.Apply(c.held[at])][at] == patch.Apply(c.held[at]);
    }
    var index := IndexOf(c.rows, id);
    if 0 <= index {
      assert c.rows[index := patch.Apply(c.rows[index])][index] == patch.Apply(c.rows[index]);
    }
  }

  /** The event lets a waiting message go that is loaded as well, and would be changed there next. */
  predicate LeavesCopyBehind(c: Counted, id: Id, patch: Patch, f: Filters) {
    var at, index := IndexOf(c.held, id), IndexOf(c.rows, id);
    && 0 <= at && !Matches(patch.Apply(c.held[at]), f)
    && 0 <= index && patch.Apply(c.rows[index]) != c.rows[index]
  }

  /**
   * A live event applied over a list that reflects it changes and counts
   * nothing, unless it left a second copy of the message behind.
   */
  lemma PatchTwice(c: Counted, id: Id, patch: Patch, f: Filters)
    requires Distinct(c.held)
    ensures Patched(Patched(c, id, patch, f), id, patch, f) == Patched(c, id, patch, f) <==>
            !LeavesCopyBehind(c, id, patch, f)
  {
    hide Matches, Without, IndexOf, Distinct, AtLeastZero;
    var at, index := IndexOf(c.held, id), IndexOf(c.rows, id);
    if 0 <= at {
      ApplyTwice(patch, c.held[at]);
      IndexOfReplaced(c.held, at, patch.Apply(c.held[at]));
      WithoutIsGone(c.held, id);
      if 0 <= index {
        assert c.rows[index := c.rows[index]] == c.rows;
      }
    } else if 0 <= index {
      ApplyTwice(patch, c.rows[index]);
      IndexOfReplaced(c.rows, index, patch.Apply(c.rows[index]));
    }
  }

  lemma ApplyTwice(patch: Patch, m: Summary)
    ensures patch.Apply(patch.Apply(m)) == patch.Apply(m) && patch.Apply(m).id == m.id
  {
  }

  lemma IndexOfReplaced(rows: seq<Summary>, index: nat, patched: Summary)
    requires index < |rows| && index == IndexOf(rows, patched.id)
    ensures IndexOf(rows[index := patched], patched.id) == index
  {
    var now := rows[index := patched];
    assert now[index].id == patched.id;
    assert forall i :: 0 <= i < index ==> now[i] == rows[i];
  }

  lemma WithoutIsGone(rows: seq<Summary>, id: Id)
    requires Distinct(rows)
    ensures IndexOf(Without(rows, id), id) < 0
  {
    var less := Without(rows, id);
    forall i | 0 <= i < |less| ensures less[i].id != id {
      WithoutAt(rows, id, i);
    }
    hide Without;
  }

  lemma IndexNone()
    ensures forall head :: Indexes(map[], head, [])
  {
  }

  lemma IndexAppend(positions: map<Id, int>, head: int, rows: seq<Summary>, m: Summary)
    requires Indexes(positions, head, rows) && forall i :: 0 <= i < |rows| ==> rows[i].id != m.id
    ensures Indexes(positions[m.id := head + |rows|], head, rows + [m])
  {
    var all, now := rows + [m], positions[m.id := head + |rows|];
    forall i | 0 <= i < |all| ensures all[i].id in now && now[all[i].id] == head + i {
      assert i < |rows| ==> all[i] == rows[i] && rows[i].id != m.id;
    }
    forall id | id in now ensures exists i :: 0 <= i < |all| && all[i].id == id {
      if id == m.id {
        assert all[|rows|].id == id;
      } else {
        var i :| 0 <= i < |rows| && rows[i].id == id;
        assert all[i].id == id;
      }
    }
  }

  lemma IndexConcat(above: map<Id, int>, below: map<Id, int>, head: int, newer: seq<Summary>, rows: seq<Summary>)
    requires Indexes(above, head, newer) && Indexes(below, head + |newer|, rows) && Distinct(newer + rows)
    ensures Indexes(below + above, head, newer + rows)
  {
    hide Distinct;
    var all, both := newer + rows, below + above;
    forall i | 0 <= i < |all| ensures all[i].id in both && both[all[i].id] == head + i {
      if |newer| <= i {
        assert all[i] == rows[i - |newer|];
        NotAbove(above, head, newer, rows, i - |newer|);
      }
    }
    forall id | id in both ensures exists i :: 0 <= i < |all| && all[i].id == id {
      if id in above {
        var i :| 0 <= i < |newer| && newer[i].id == id;
        assert all[i].id == id;
      } else {
        var i :| 0 <= i < |rows| && rows[i].id == id;
        assert all[|newer| + i].id == id;
      }
    }
  }

  lemma NotAbove(above: map<Id, int>, head: int, newer: seq<Summary>, rows: seq<Summary>, i: nat)
    requires Indexes(above, head, newer) && Distinct(newer + rows) && i < |rows|
    ensures rows[i].id !in above
  {
    var all := newer + rows;
    forall id | id in above ensures id != rows[i].id {
      var j :| 0 <= j < |newer| && newer[j].id == id;
      assert all[|newer| + i].id != all[j].id;
    }
  }

  /** `now` is `was` without `gone`, the rows after it up to index `i` moved up by one. */
  predicate MovedUp(was: map<Id, int>, head: int, index: nat, i: nat, gone: Id, now: map<Id, int>) {
    && now.Keys == was.Keys - {gone}
    && forall id :: id in now ==>
         now[id] == if was[id] - head < index || i < was[id] - head then was[id] else was[id] - 1
  }

  lemma MoveNone(was: map<Id, int>, head: int, rows: seq<Summary>, index: nat)
    requires Indexes(was, head, rows) && index < |rows|
    ensures MovedUp(was, head, index, index, rows[index].id, was - {rows[index].id})
  {
    forall id | id in was && id != rows[index].id ensures was[id] - head != index {
      var j :| 0 <= j < |rows| && rows[j].id == id;
    }
  }

  lemma MoveUp(was: map<Id, int>, head: int, rows: seq<Summary>, index: nat, i: nat, gone: Id, now: map<Id, int>)
    requires Indexes(was, head, rows) && index <= i && i + 1 < |rows| && gone == rows[index].id
    requires MovedUp(was, head, index, i, gone, now)
    ensures MovedUp(was, head, index, i + 1, gone, now[rows[i + 1].id := head + i])
  {
    var id := rows[i + 1].id;
    assert was[id] == head + i + 1 && was[gone] == head + index;
    forall other | other in was && other != id ensures was[other] - head != i + 1 {
      var j :| 0 <= j < |rows| && rows[j].id == other;
    }
  }

  /** Positions that all moved up past `index` name the rows without it. */
  lemma IndexWithout(was: map<Id, int>, head: int, rows: seq<Summary>, index: nat, now: map<Id, int>)
    requires Indexes(was, head, rows) && index < |rows|
    requires MovedUp(was, head, index, |rows| - 1, rows[index].id, now)
    ensures Indexes(now, head, rows[..index] + rows[index + 1..])
  {
    var next := rows[..index] + rows[index + 1..];
    assert was[rows[index].id] == head + index;
    forall i | 0 <= i < |next| ensures next[i].id in now && now[next[i].id] == head + i {
      var j := if i < index then i else i + 1;
      assert next[i] == rows[j] && was[rows[j].id] == head + j;
    }
    forall id | id in now ensures exists i :: 0 <= i < |next| && next[i].id == id {
      OtherRow(rows, index, id, next);
    }
  }

  lemma OtherRow(rows: seq<Summary>, index: nat, id: Id, next: seq<Summary>)
    requires index < |rows| && next == rows[..index] + rows[index + 1..]
    requires rows[index].id != id && exists j :: 0 <= j < |rows| && rows[j].id == id
    ensures exists i :: 0 <= i < |next| && next[i].id == id
  {
    var j :| 0 <= j < |rows| && rows[j].id == id;
    assert next[if j < index then j else j - 1] == rows[j];
  }

  lemma DistinctParts(newer: seq<Summary>, rows: seq<Summary>)
    requires Distinct(newer + rows)
    ensures Distinct(newer) && Distinct(rows)
  {
    var all := newer + rows;
    assert forall i :: 0 <= i < |newer| ==> newer[i] == all[i];
    assert forall i :: 0 <= i < |rows| ==> rows[i] == all[|newer| + i];
  }

  lemma NewRow(rows: seq<Summary>, i: nat)
    requires Distinct(rows) && i < |rows|
    ensures forall j :: 0 <= j < i ==> rows[..i][j].id != rows[i].id
    ensures rows[..i + 1] == rows[..i] + [rows[i]]
  {
  }

  /** No message is loaded twice. */
  lemma IndexedOnce(positions: map<Id, int>, head: int, rows: seq<Summary>)
    requires Indexes(positions, head, rows)
    ensures Distinct(rows)
  {
  }

  /** Rows that are distinct and not loaded can join those that are, on top or below. */
  lemma Joins(positions: map<Id, int>, head: int, rows: seq<Summary>, more: seq<Summary>)
    requires Indexes(positions, head, rows) && Distinct(more)
    requires forall m :: m in more ==> m.id !in positions
    ensures Distinct(more + rows) && Distinct(rows + more)
  {
    IndexedOnce(positions, head, rows);
    forall i, j | 0 <= i < |rows| && 0 <= j < |more| ensures rows[i].id != more[j].id {
      assert more[j] in more;
    }
  }

  lemma LookupIsSearch(positions: map<Id, int>, head: int, rows: seq<Summary>, id: Id)
    requires Indexes(positions, head, rows)
    ensures IndexOf(rows, id) == if id in positions then positions[id] - head else -1
    ensures id in positions <==> 0 <= IndexOf(rows, id)
  {
    var i := IndexOf(rows, id);
    if id in positions {
      var j :| 0 <= j < |rows| && rows[j].id == id;
      assert 0 <= i && rows[i].id == id;
    }
  }

  class Inbox {
    var messages: seq<Summary>
    /** Names every loaded message's place, counted from `headPosition` for the first row. */
    var positions: map<Id, int>
    var headPosition: int
    var nextCursor: Option<Id>
    var filters: Filters
    /** The reader is away from the top, and arrivals are kept back. */
    var liveHeld: bool
    /** Arrivals waiting, oldest first. */
    var heldRows: seq<Summary>
    var heldArrivals: int
    var heldOverflowed: bool
    var heldRefresh: bool
    var hiddenIds: set<Id>
    var undoableId: Option<Id>
    /** Rows awaiting deletion that a trim let go. */
    var letGoWhileHidden: set<Id>
    /** How many messages the view holds on the server, as far as known. */
    var storedTotal: nat

    constructor ()
      ensures Valid() && CursorAtTail() && Ordered() && Now() == Loaded([], None, {})
      ensures !liveHeld && undoableId == None && hiddenIds == {} && filters == Filters(false, false, false, [])
    {
      messages, positions, headPosition, nextCursor := [], map[], 0, None;
      filters := Filters(false, false, false, []);
      liveHeld, heldRows, heldArrivals, heldOverflowed, heldRefresh := false, [], 0, false, false;
      hiddenIds, undoableId, letGoWhileHidden, storedTotal := {}, None, {}, 0;
    }

    function Now(): Loaded reads this {
      Loaded(messages, nextCursor, letGoWhileHidden)
    }

    ghost predicate Indexed() reads this {
      Indexes(positions, headPosition, messages)
    }

    /** What waits is counted, and nothing waits unless arrivals are held. */
    ghost predicate HeldCounted() reads this {
      && Distinct(heldRows) && |heldRows| <= MAX_LIVE_ROWS
      && (if heldOverflowed then heldRows == [] else heldArrivals == |heldRows|)
      && (!liveHeld ==> heldRows == [] && !heldOverflowed && !heldRefresh)
    }

    /** Only rows whose deletion is pending are counted out without being loaded. */
    ghost predicate PendingDeletions() reads this {
      letGoWhileHidden <= hiddenIds
    }

    ghost predicate Valid() reads this {
      Indexed() && HeldCounted() && PendingDeletions()
    }

    /** The next page starts after the last loaded row. */
    ghost predicate CursorAtTail() reads this {
      nextCursor.Some? ==> nextCursor == LastId(messages)
    }

    /** The list is newest first, and what waits is newer. */
    ghost predicate Ordered() reads this {
      Descending(messages) && Ascending(heldRows) && AllNewer(heldRows, messages)
    }

    /** The hidden messages the total must leave out: loaded, or let go since. */
    function HiddenCounted(): set<Id> reads this {
      set id | id in hiddenIds && (id in positions || id in letGoWhileHidden)
    }

    // ---------- Lookup ----------

    /** The lookup is a linear search. */
    method IndexOfRow(id: Id) returns (index: int)
      requires Indexed()
      ensures index == IndexOf(messages, id)
      ensures id in positions <==> 0 <= index
    {
      hide Indexes;
      LookupIsSearch(positions, headPosition, messages, id);
      index := if id in positions then positions[id] - headPosition else -1;
    }

    method FindMessage(id: Id) returns (row: Option<Summary>)
      requires Indexed()
      ensures match row
              case Some(m) => m in messages && m.id == id
              case None => forall i :: 0 <= i < |messages| ==> messages[i].id != id
    {
      var index := IndexOfRow(id);
      row := if index < 0 then None else Some(messages[index]);
    }

    // ---------- Rows ----------

    method SetRows(rows: seq<Summary>)
      requires Distinct(rows)
      modifies `positions, `headPosition, `messages
      ensures Indexed() && messages == rows
    {
      hide Indexes;
      positions, headPosition := map[], 0;
      var i := 0;
      IndexNone();
      while i < |rows|
        invariant 0 <= i <= |rows| && headPosition == 0
        invariant Indexes(positions, 0, rows[..i])
      {
        NewRow(rows, i);
        IndexAppend(positions, 0, rows[..i], rows[i]);
        positions := positions[rows[i].id := i];
        i := i + 1;
      }
      assert rows[..i] == rows;
      messages := rows;
    }

    method ReplaceRows(rows: seq<Summary>)
      requires Distinct(rows)
      modifies `letGoWhileHidden, `positions, `headPosition, `messages
      ensures Indexed() && messages == rows && letGoWhileHidden == {}
    {
      letGoWhileHidden := {};
      SetRows(rows);
    }

    /** Puts `rows` above the loaded ones; no other entry of the index changes. */
    method PrependRows(rows: seq<Summary>)
      requires Indexed() && Distinct(rows + messages)
      modifies `positions, `headPosition, `messages
      ensures Indexed() && messages == rows + old(messages)
    {
      hide Indexes, Distinct;
      headPosition := headPosition - |rows|;
      DistinctParts(rows, messages);
      ghost var above: map<Id, int> := map[];
      var i := 0;
      IndexNone();
      while i < |rows|
        invariant 0 <= i <= |rows|
        invariant headPosition == old(headPosition) - |rows| && messages == old(messages)
        invariant positions == old(positions) + above && Indexes(above, headPosition, rows[..i])
      {
        NewRow(rows, i);
        IndexAppend(above, headPosition, rows[..i], rows[i]);
        above := above[rows[i].id := headPosition + i];
        positions := positions[rows[i].id := headPosition + i];
        i := i + 1;
      }
      assert rows[..i] == rows;
      IndexConcat(above, old(positions), headPosition, rows, messages);
      messages := rows + messages;
    }

    /** Puts `rows` below the loaded ones. */
    method AppendRows(rows: seq<Summary>)
      requires Indexed() && Distinct(messages + rows)
      modifies `positions, `messages
      ensures Indexed() && messages == old(messages) + rows
    {
      hide Indexes, Distinct;
      var tail := headPosition + |messages|;
      ghost var all := messages + rows;
      var i := 0;
      assert messages + rows[..i] == messages;
      while i < |rows|
        invariant 0 <= i <= |rows|
        invariant messages == old(messages) && Indexes(positions, headPosition, messages + rows[..i])
      {
        NewRow(all, |messages| + i);
        assert all[..|messages| + i] == messages + rows[..i] && all[..|messages| + i + 1] == messages + rows[..i + 1];
        IndexAppend(positions, headPosition, messages + rows[..i], rows[i]);
        positions := positions[rows[i].id := tail + i];
        i := i + 1;
      }
      assert rows[..i] == rows;
      messages := messages + rows;
    }

    /** Takes the row with `id` out and moves every row below it up by one. */
    method RemoveRow(id: Id)
      requires Indexed()
      modifies `positions, `messages
      ensures Indexed() && messages == Without(old(messages), id)
    {
      hide Indexes, MovedUp, IndexOf;
      var index := IndexOfRow(id);
      if index < 0 {
        return;
      }
      var next := messages[..index] + messages[index + 1..];
      assert messages[index].id == id;
      positions := positions - {id};
      MoveNone(old(positions), headPosition, messages, index);
      var i := index;
      while i < |next|
        invariant index <= i <= |next| && messages == old(messages)
        invariant MovedUp(old(positions), headPosition, index, i, id, positions)
      {
        assert next[i] == messages[i + 1];
        MoveUp(old(positions), headPosition, messages, index, i, id, positions);
        positions := positions[next[i].id := headPosition + i];
        i := i + 1;
      }
      IndexWithout(old(positions), headPosition, messages, index, positions);
      messages := next;
    }

    /**
     * Cuts the list at the cap, or below the undoable row if that lies deeper.
     * What the list counts out of its total stays counted out.
     */
    method TrimRows()
      requires Valid()
      modifies `messages, `positions, `nextCursor, `letGoWhileHidden
      ensures Valid() && Now() == Trimmed(old(Now()), undoableId, hiddenIds)
      ensures HiddenCounted() == old(HiddenCounted())
      ensures (old(CursorAtTail()) ==> CursorAtTail()) && (old(Ordered()) ==> Ordered())
    {
      hide Indexes, Distinct, Descending, Ascending, AllNewer, IndexOf;
      var through := 0;
      if undoableId.Some? {
        var index := IndexOfRow(undoableId.value);
        through := index + 1;
      }
      var keep := if through <= MAX_LIVE_ROWS then MAX_LIVE_ROWS else through;
      if keep < |messages| {
        LetGo(keep);
      }
    }

    /** Drops the rows from `keep` on, noting those whose deletion is pending. */
    method LetGo(keep: nat)
      requires Valid() && 0 < keep < |messages|
      modifies `messages, `positions, `nextCursor, `letGoWhileHidden
      ensures Valid() && HiddenCounted() == old(HiddenCounted())
      ensures messages == old(messages)[..keep] && nextCursor == Some(messages[keep - 1].id)
      ensures letGoWhileHidden == old(letGoWhileHidden) + IdsOf(old(messages)[keep..]) * hiddenIds
      ensures CursorAtTail() && (old(Ordered()) ==> Ordered())
    {
      hide Indexes, Distinct, Descending, IdsOf, AllNewer, Ascending;
      var i := keep;
      NoIds(messages, keep);
      while i < |messages|
        invariant keep <= i <= |messages| && messages == old(messages)
        invariant positions == old(positions) - IdsOf(messages[keep..i])
        invariant letGoWhileHidden == old(letGoWhileHidden) + IdsOf(messages[keep..i]) * hiddenIds
      {
        var m := messages[i];
        IdsSnoc(messages, keep, i);
        positions := positions - {m.id};
        if m.id in hiddenIds {
          letGoWhileHidden := letGoWhileHidden + {m.id};
        }
        i := i + 1;
      }
      assert messages[keep..i] == messages[keep..];
      IndexPrefix(old(positions), headPosition, messages, keep);
      PartsOrdered(heldRows, messages, keep);
      CountedStays(old(positions), IdsOf(messages[keep..]), hiddenIds, old(letGoWhileHidden));
      messages := messages[..keep];
      nextCursor := Some(messages[keep - 1].id);
    }

    /** Changes a loaded row where it is. */
    method ReplaceRow(patched: Summary)
      requires Valid()
      modifies `messages
      ensures Valid() && messages == Replaced(old(messages), patched)
      ensures (old(CursorAtTail()) ==> CursorAtTail()) && (old(Ordered()) ==> Ordered())
    {
      hide IndexOf, Indexes, Descending, AllNewer, Ascending, Distinct;
      var index := IndexOfRow(patched.id);
      if 0 <= index {
        SameIds(positions, headPosition, messages, messages[index := patched]);
        SameOrder(heldRows, messages, messages[index := patched]);
        messages := messages[index := patched];
      }
    }

    // ---------- Deletions ----------

    /** A pending deletion failed, or was undone. */
    method Unhide(id: Id)
      requires Valid()
      modifies `letGoWhileHidden, `hiddenIds
      ensures Valid() && hiddenIds == old(hiddenIds) - {id} && letGoWhileHidden == old(letGoWhileHidden) - {id}
    {
      letGoWhileHidden := letGoWhileHidden - {id};
      hiddenIds := hiddenIds - {id};
    }

    /** Hides a message until its deletion settles; only the newest can be undone. */
    method Hide(id: Id)
      requires Valid()
      modifies `hiddenIds, `undoableId
      ensures Valid() && undoableId == Some(id) && hiddenIds == old(hiddenIds) + {id}
    {
      hiddenIds := hiddenIds + {id};
      undoableId := Some(id);
    }

    /** The undo window closed, or the message was deleted elsewhere within it. */
    method CloseUndo()
      requires Valid()
      modifies `undoableId
      ensures Valid() && undoableId == None
    {
      undoableId := None;
    }

    /** Moves the cursor off a row that is about to go. */
    method RetreatCursor(id: Id)
      requires Indexed()
      modifies `nextCursor
      ensures old(nextCursor) != Some(id) ==> nextCursor == old(nextCursor)
      ensures old(CursorAtTail()) ==>
                nextCursor == if old(nextCursor).None? then None else LastId(Without(messages, id))
    {
      hide Indexes, Distinct, Without;
      IndexedOnce(positions, headPosition, messages);
      TailWithout(messages, id);
      if nextCursor == Some(id) {
        var index := IndexOfRow(id);
        nextCursor := if 1 <= index then Some(messages[index - 1].id) else None;
      }
    }

    /** A message is gone: no row and no waiting arrival; the next page then starts after the row before it. */
    method ForgetMessage(id: Id)
      requires Valid()
      modifies this
      ensures Valid() && filters == old(filters) && liveHeld == old(liveHeld) && storedTotal == old(storedTotal)
      ensures messages == Without(old(messages), id) && heldRows == Without(old(heldRows), id)
      ensures old(nextCursor) != Some(id) ==> nextCursor == old(nextCursor)
      ensures old(CursorAtTail()) ==> nextCursor == if old(nextCursor).None? then None else LastId(messages)
      ensures old(Ordered()) ==> Ordered()
      ensures hiddenIds == old(hiddenIds) - {id} && letGoWhileHidden == old(letGoWhileHidden) - {id}
    {
      hide Indexes, Descending, AllNewer, Ascending, Distinct, IndexOf, Without, LastId;
      OrderWithout(heldRows, messages, id);
      WithoutKeepsDistinct(heldRows, id);
      RetreatCursor(id);
      RemoveRow(id);
      ForgetHeld(id);
      letGoWhileHidden := letGoWhileHidden - {id};
      hiddenIds := hiddenIds - {id};
    }

    method ForgetHeld(id: Id)
      modifies `heldRows, `heldArrivals
      ensures heldRows == Without(old(heldRows), id)
      ensures heldArrivals - |heldRows| == old(heldArrivals - |heldRows|) && |heldRows| <= |old(heldRows)|
    {
      var waiting := IndexOf(heldRows, id);
      if 0 <= waiting {
        heldRows := heldRows[..waiting] + heldRows[waiting + 1..];
        heldArrivals := heldArrivals - 1;
      }
    }

    /** `rows` without those already loaded. */
    method Unloaded(rows: seq<Summary>) returns (unseen: seq<Summary>)
      ensures unseen == Unseen(rows, positions.Keys)
    {
      unseen := [];
      var i := 0;
      while i < |rows|
        invariant 0 <= i <= |rows| && unseen == Unseen(rows[..i], positions.Keys)
      {
        assert rows[..i + 1][..i] == rows[..i];
        if rows[i].id !in positions {
          unseen := unseen + [rows[i]];
        }
        i := i + 1;
      }
      assert rows[..i] == rows;
    }

    // ---------- Server pages ----------

    /** The first page replaces the list. */
    method LandTopPage(page: seq<Summary>, cursor: Option<Id>, total: nat)
      requires Valid() && Distinct(page)
      modifies this
      ensures Valid() && Now() == Loaded(page, cursor, {}) && heldRows == [] && storedTotal == total
      ensures hiddenIds == old(hiddenIds) && undoableId == old(undoableId)
      ensures filters == old(filters) && liveHeld == old(liveHeld)
      ensures CursorAtTail() <==> cursor.None? || cursor == LastId(page)
      ensures Ordered() <==> Descending(page)
    {
      ReplaceRows(page);
      DropHeldArrivals();
      nextCursor, storedTotal := cursor, total;
    }

    /**
     * The page read from the cursor joins the list below, without what an
     * arrival put on top already. If that is the page's last row, the next
     * page no longer starts after the last loaded one.
     */
    method LandOlderPage(page: seq<Summary>, cursor: Option<Id>, total: nat)
      requires Valid() && nextCursor.Some? && Distinct(page)
      requires forall m :: m in page ==> m.id != nextCursor.value
      requires cursor.Some? ==> cursor == LastId(page) && |page| == PAGE_SIZE
      modifies this
      ensures Valid() && storedTotal == total
      ensures Now() == Loaded(old(messages) + Unseen(page, old(positions.Keys)), cursor, old(letGoWhileHidden))
      ensures heldRows == old(heldRows) && hiddenIds == old(hiddenIds) && undoableId == old(undoableId)
      ensures filters == old(filters) && liveHeld == old(liveHeld)
      ensures old(CursorAtTail()) ==> (CursorAtTail() <==> cursor.None? || cursor.value !in old(positions))
      ensures old(Ordered() && CursorAtTail()) && Descending(page) &&
              (forall m :: m in page ==> m.id < old(nextCursor).value)
              ==> Ordered() && messages == old(messages) + page && CursorAtTail()
    {
      hide Indexes, Distinct, Descending, Ascending, AllNewer, Unseen;
      var older := Unloaded(page);
      UnseenOnce(page, positions.Keys);
      Joins(positions, headPosition, messages, older);
      PageInOrder(positions, headPosition, heldRows, messages, page);
      TailOfUnseen(page, positions.Keys);
      AppendRows(older);
      nextCursor, storedTotal := cursor, total;
    }

    /** The whole inbox was cleared. */
    method Clear()
      requires Valid()
      modifies this
      ensures Valid() && CursorAtTail() && Ordered()
      ensures Now() == Loaded([], None, {}) && heldRows == [] && hiddenIds == {} && storedTotal == 0
    {
      undoableId, hiddenIds := None, {};
      DropHeldArrivals();
      ReplaceRows([]);
      nextCursor, storedTotal := None, 0;
    }

    // ---------- Live arrivals ----------

    method DropHeldArrivals()
      modifies `heldRows, `heldOverflowed, `heldArrivals, `heldRefresh
      ensures heldRows == [] && !heldOverflowed && heldArrivals == 0 && !heldRefresh
    {
      heldRows, heldOverflowed, heldArrivals, heldRefresh := [], false, 0, false;
    }

    /** Holds arrivals, oldest first; past the cap only their number is kept. */
    method HoldArrivals(arrivals: seq<Summary>)
      requires heldOverflowed ==> heldRows == []
      requires |heldRows| <= MAX_LIVE_ROWS
      modifies `heldRows, `heldOverflowed, `heldArrivals
      ensures heldOverflowed == (old(heldOverflowed) || |old(heldRows)| + |arrivals| > MAX_LIVE_ROWS)
      ensures heldRows == if heldOverflowed then [] else old(heldRows) + arrivals
      ensures heldArrivals == old(heldArrivals) + |arrivals|
    {
      var i := 0;
      while i < |arrivals|
        invariant 0 <= i <= |arrivals|
        invariant heldOverflowed == (old(heldOverflowed) || |old(heldRows)| + i > MAX_LIVE_ROWS)
        invariant heldRows == if heldOverflowed then [] else old(heldRows) + arrivals[..i]
        invariant heldArrivals == old(heldArrivals)
      {
        if !heldOverflowed {
          if |heldRows| == MAX_LIVE_ROWS {
            heldOverflowed := true;
            heldRows := [];
          } else {
            heldRows := heldRows + [arrivals[i]];
          }
        }
        i := i + 1;
      }
      heldArrivals := heldArrivals + |arrivals|;
    }

    ghost function KnownIds(): set<Id> reads this {
      positions.Keys + IdsOf(heldRows)
    }

    method IsKnown(id: Id) returns (known: bool)
      ensures known <==> id in KnownIds()
    {
      var waiting := IndexOf(heldRows, id);
      known := id in positions || 0 <= waiting;
      assert 0 <= waiting ==> heldRows[waiting].id == id;
    }

    /** The arrivals to show, newest first. */
    method FreshArrivals(arrivals: seq<Summary>) returns (newest: seq<Summary>)
      ensures newest == FreshOf(arrivals, KnownIds(), filters)
    {
      hide FreshOf, KnownIds, Matches;
      newest := [];
      var seen: set<Id> := {};
      ghost var skipped := KnownIds();
      var i := |arrivals|;
      assert arrivals[..i] == arrivals;
      while 0 < i
        invariant 0 <= i <= |arrivals|
        invariant forall id :: id in skipped <==> id in KnownIds() || id in seen
        invariant FreshOf(arrivals, KnownIds(), filters) == newest + FreshOf(arrivals[..i], skipped, filters)
      {
        i := i - 1;
        var arrival := arrivals[i];
        FreshStep(arrivals[..i + 1], skipped, filters);
        assert arrivals[..i + 1][..i] == arrivals[..i];
        var known := IsKnown(arrival.id);
        if arrival.id !in seen && !known {
          seen := seen + {arrival.id};
          skipped := skipped + {arrival.id};
          if Matches(arrival, filters) {
            newest := newest + [arrival];
          }
        }
      }
      FreshNone(skipped, filters);
    }

    /**
     * Shows a run of live arrivals, announced oldest first, or holds them, and
     * counts them in. A search cannot place them and asks for a read instead.
     */
    method AdmitArrivals(arrivals: seq<Summary>, searching: bool) returns (newest: seq<Summary>)
      requires Valid()
      modifies this
      ensures Valid() && (old(CursorAtTail()) ==> CursorAtTail())
      ensures newest == if searching then [] else FreshOf(arrivals, old(KnownIds()), filters)
      ensures Now() == if liveHeld || newest == [] then old(Now())
              else Arrived(old(Now()), newest, undoableId, hiddenIds)
      ensures heldOverflowed == (old(heldOverflowed) || (liveHeld && |old(heldRows)| + |newest| > MAX_LIVE_ROWS))
      ensures heldRows == if liveHeld && !heldOverflowed then old(heldRows) + Reversed(newest) else []
      ensures heldArrivals == old(heldArrivals) + (if liveHeld then |newest| else 0)
      ensures storedTotal == old(storedTotal) + |newest|
      ensures hiddenIds == old(hiddenIds) && undoableId == old(undoableId) && filters == old(filters)
      ensures liveHeld == old(liveHeld)
      ensures old(Ordered()) && InCommitOrder(arrivals) &&
              NewOrKnown(arrivals, old(KnownIds()), old(messages)) &&
              NewOrKnown(arrivals, old(KnownIds()), old(heldRows))
              ==> Ordered()
    {
      hide Indexes, FreshOf, Trimmed, KnownIds, Descending, Ascending, AllNewer, Distinct;
      NothingWaits();
      newest := [];
      if searching {
        return;
      }
      newest := FreshArrivals(arrivals);
      ArrivalsInOrder(arrivals, KnownIds(), filters, heldRows, messages);
      if newest == [] {
        return;
      }
      FreshIsNew(arrivals);
      if liveHeld {
        HeldOnce(heldRows, newest);
        HoldArrivals(Reversed(newest));
      } else {
        Joins(positions, headPosition, messages, newest);
        TailBelow(newest, messages);
        PrependRows(newest);
        TrimRows();
      }
      storedTotal := storedTotal + |newest|;
    }

    /** Fresh arrivals are neither loaded nor waiting. */
    lemma FreshIsNew(arrivals: seq<Summary>)
      ensures var newest := FreshOf(arrivals, KnownIds(), filters);
              && Distinct(newest)
              && (forall m :: m in newest ==> m.id !in positions)
              && forall i, j :: 0 <= i < |heldRows| && 0 <= j < |newest| ==> heldRows[i].id != newest[j].id
    {
      FreshOnce(arrivals, KnownIds(), filters);
      var newest := FreshOf(arrivals, KnownIds(), filters);
      hide FreshOf, Distinct;
      forall i, j | 0 <= i < |heldRows| && 0 <= j < |newest| ensures heldRows[i].id != newest[j].id {
        assert newest[j] in newest && heldRows[i].id in IdsOf(heldRows);
      }
    }

    /** Shows what waited, or drops it and asks for the first page when memory cannot show it. */
    method RevealArrivals() returns (refetch: bool)
      requires Indexed() && PendingDeletions() && Distinct(heldRows)
      modifies `heldRows, `heldOverflowed, `heldArrivals, `heldRefresh
      modifies `messages, `positions, `headPosition, `nextCursor, `letGoWhileHidden
      ensures Indexed() && PendingDeletions() && refetch == (old(heldRefresh) || old(heldOverflowed))
      ensures Now() == if !refetch && old(heldRows) != []
                       then
                         var unseen := Unseen(Reversed(old(heldRows)), old(positions.Keys));
                         Arrived(old(Now()), unseen, undoableId, hiddenIds)
                       else old(Now())
      ensures refetch || old(heldRows) != [] ==>
                heldRows == [] && !heldOverflowed && heldArrivals == 0 && !heldRefresh
      ensures !refetch && old(heldRows) == [] ==> unchanged(this)
      ensures old(CursorAtTail()) ==> CursorAtTail()
      ensures old(Ordered()) ==>
                Ordered() && Unseen(Reversed(old(heldRows)), old(positions.Keys)) == Reversed(old(heldRows))
    {
      hide Indexes, Trimmed, Descending, Ascending, AllNewer, Distinct, Unseen, IdsOf;
      NothingWaits();
      WaitingInOrder(positions, headPosition, heldRows, messages);
      refetch := heldRefresh || heldOverflowed;
      var waiting := Reversed(heldRows);
      if !refetch && waiting == [] {
        return;
      }
      ReversedOnce(heldRows);
      DropHeldArrivals();
      if !refetch {
        var unseen := Unloaded(waiting);
        UnseenOnce(waiting, positions.Keys);
        Joins(positions, headPosition, messages, unseen);
        TailBelow(unseen, messages);
        PrependRows(unseen);
        TrimRows();
      }
    }

    /** The reader leaves the top, or comes back to it and is shown what waited. */
    method SetLiveHeld(held: bool) returns (refetch: bool)
      requires Valid()
      modifies this
      ensures Valid() && liveHeld == held && storedTotal == old(storedTotal)
      ensures refetch == (old(liveHeld) && !held && (old(heldRefresh) || old(heldOverflowed)))
      ensures Now() == if old(liveHeld) && !held && !refetch && old(heldRows) != []
                       then
                         var unseen := Unseen(Reversed(old(heldRows)), old(positions.Keys));
                         Arrived(old(Now()), unseen, undoableId, hiddenIds)
                       else old(Now())
      ensures heldRows == if held then old(heldRows) else []
      ensures hiddenIds == old(hiddenIds) && undoableId == old(undoableId) && filters == old(filters)
      ensures old(CursorAtTail()) ==> CursorAtTail()
      ensures old(Ordered()) ==>
                Ordered() && Unseen(Reversed(old(heldRows)), old(positions.Keys)) == Reversed(old(heldRows))
    {
      hide Indexes, Arrived, Descending, Ascending, AllNewer, Distinct, Unseen, IdsOf;
      refetch := false;
      NothingWaits();
      WaitingInOrder(positions, headPosition, heldRows, messages);
      if held == liveHeld {
        return;
      }
      liveHeld := held;
      if !held {
        refetch := RevealArrivals();
      }
    }

    /** A search went stale while arrivals were held. */
    method HoldRefresh()
      requires Valid() && liveHeld
      modifies `heldRefresh
      ensures Valid() && heldRefresh
    {
      heldRefresh := true;
    }

    function Counts(): Counted reads this {
      Counted(messages, heldRows, heldArrivals, storedTotal)
    }

    /**
     * Changes a waiting message, or lets it go if the list would no longer show
     * it; else changes a loaded one. The total follows what the list shows.
     */
    method PatchMessage(id: Id, patch: Patch)
      requires Valid()
      modifies this
      ensures Valid() && (old(CursorAtTail()) ==> CursorAtTail()) && (old(Ordered()) ==> Ordered())
      ensures Counts() == Patched(old(Counts()), id, patch, filters) && filters == old(filters)
      ensures Now().(rows := []) == old(Now()).(rows := []) && hiddenIds == old(hiddenIds) && liveHeld == old(liveHeld)
      ensures undoableId == old(undoableId)
    {
      hide Indexes, IndexOf, Distinct, Descending, Ascending, AllNewer, Matches;
      var at := IndexOf(heldRows, id);
      if 0 <= at {
        var patched := patch.Apply(heldRows[at]);
        if Matches(patched, filters) {
          SameHeld(heldRows, messages, heldRows[at := patched]);
          heldRows := heldRows[at := patched];
          return;
        }
        OrderHeldWithout(heldRows, messages, id);
        WithoutKeepsDistinct(heldRows, id);
        heldRows := heldRows[..at] + heldRows[at + 1..];
        heldArrivals := heldArrivals - 1;
        storedTotal := if storedTotal - 1 > 0 then storedTotal - 1 else 0;
        return;
      }
      var current := FindMessage(id);
      if current.None? {
        NoRow(messages, id);
        return;
      }
      var index := IndexOfRow(id);
      var patched := patch.Apply(current.value);
      FoundRow(positions, headPosition, messages, id, current.value);
      var was, now := Matches(current.value, filters), Matches(patched, filters);
      ReplaceRow(patched);
      if was != now {
        var total := storedTotal + (if now then 1 else -1);
        storedTotal := if total > 0 then total else 0;
      }
    }
  }

  lemma OneFresh(m: Summary, known: set<Id>, f: Filters)
    requires m.id !in known && Matches(m, f)
    ensures FreshOf([m], known, f) == [m]
  {
    assert [m][..0] == [];
  }

  /**
   * An arrival announced only after a page that leaves it out was read: put on
   * top, it is met again as the last row of a full older page, and the next
   * page then starts behind a row that is not the last.
   */
  method LateArrivalMovesCursor(inbox: Inbox, late: Summary, page: seq<Summary>, total: nat)
    requires inbox.Valid() && inbox.CursorAtTail() && inbox.nextCursor.Some? && !inbox.liveHeld
    requires late.id !in inbox.KnownIds() && Matches(late, inbox.filters)
    requires |page| == PAGE_SIZE && Distinct(page) && LastId(page) == Some(late.id)
    requires forall m, row :: m in page && row in inbox.messages ==> m.id != row.id
    modifies inbox
    ensures inbox.Valid() && !inbox.CursorAtTail() && inbox.nextCursor == Some(late.id)
    ensures inbox.messages != [] && inbox.messages[0] == late
  {
    hide Indexes, FreshOf, Matches, Inbox.KnownIds, IdsOf, Distinct;
    OneFresh(late, inbox.KnownIds(), inbox.filters);
    ghost var was := inbox.Now();
    var newest := inbox.AdmitArrivals([late], false);
    OnTopOfTrimmed(was, late, inbox.undoableId, inbox.hiddenIds);
    FirstIsLoaded(inbox.positions, inbox.headPosition, inbox.messages);
    inbox.LandOlderPage(page, Some(late.id), total);
  }

  /** What a trim leaves of a list with one more row on top. */
  lemma OnTopOfTrimmed(l: Loaded, late: Summary, undoable: Option<Id>, hidden: set<Id>)
    requires l.rows != [] && l.cursor == LastId(l.rows)
    ensures var t := Arrived(l, [late], undoable, hidden);
            && t.rows != [] && t.rows[0] == late
            && t.cursor.Some? && exists row :: row in l.rows && t.cursor == Some(row.id)
  {
    var rows := [late] + l.rows;
    var keep := Kept(rows, undoable);
    var last := if |rows| <= keep then |rows| - 1 else keep - 1;
    assert rows[last] == l.rows[last - 1] && rows[last] in l.rows;
    hide IndexOf, Kept;
  }

  /** The same arrival while the reader is away: it waits, and an older page loads it as well. */
  method LateArrivalTwice(inbox: Inbox, late: Summary, page: seq<Summary>, cursor: Option<Id>, total: nat)
    requires inbox.Valid() && inbox.nextCursor.Some?
    requires inbox.liveHeld && !inbox.heldOverflowed && |inbox.heldRows| < MAX_LIVE_ROWS
    requires late.id !in inbox.KnownIds() && Matches(late, inbox.filters) && late in page && Distinct(page)
    requires forall m :: m in page ==> m.id !in inbox.positions && m.id != inbox.nextCursor.value
    requires cursor.Some? ==> cursor == LastId(page) && |page| == PAGE_SIZE
    modifies inbox
    ensures inbox.Valid() && inbox.heldRows == old(inbox.heldRows) + [late]
    ensures inbox.messages == old(inbox.messages) + page
  {
    hide Indexes, FreshOf, Matches, IdsOf, Distinct;
    OneFresh(late, inbox.KnownIds(), inbox.filters);
    ghost var was, head := inbox.positions, inbox.headPosition;
    var newest := inbox.AdmitArrivals([late], false);
    assert Reversed([late]) == [late];
    SameNamed(was, head, inbox.positions, inbox.headPosition, inbox.messages);
    assert forall i :: 0 <= i < |page| ==> page[i] in page;
    UnseenAll(page, inbox.positions.Keys);
    inbox.LandOlderPage(page, cursor, total);
  }

  lemma SameNamed(a: map<Id, int>, headA: int, b: map<Id, int>, headB: int, rows: seq<Summary>)
    requires Indexes(a, headA, rows) && Indexes(b, headB, rows)
    ensures a.Keys == b.Keys
  {
  }

  lemma FirstIsLoaded(positions: map<Id, int>, head: int, rows: seq<Summary>)
    requires Indexes(positions, head, rows)
    ensures rows != [] ==> rows[0].id in positions
  {
  }

  /** One event that a message was read counts it twice out of the two unread messages, if it waits and is loaded. */
  lemma ReadCountedTwice()
    ensures var late := Summary(3, false, false, false, []);
            var unread, once := Filters(false, true, false, []), Counted([late], [late], 1, 2);
            && Patched(once, 3, SetRead(true), unread).total == 1
            && Patched(Patched(once, 3, SetRead(true), unread), 3, SetRead(true), unread).total == 0
  {
    var late := Summary(3, false, false, false, []);
    assert late.id == 3 && Without([late], 3) == [];
  }

  lemma SameIds(positions: map<Id, int>, head: int, rows: seq<Summary>, now: seq<Summary>)
    requires Indexes(positions, head, rows)
    requires |now| == |rows| && forall i :: 0 <= i < |now| ==> now[i].id == rows[i].id
    ensures Indexes(positions, head, now) && LastId(now) == LastId(rows)
  {
    forall id | id in positions ensures exists i :: 0 <= i < |now| && now[i].id == id {
      var i :| 0 <= i < |rows| && rows[i].id == id;
      assert now[i].id == id;
    }
  }

  lemma SameOrder(held: seq<Summary>, rows: seq<Summary>, now: seq<Summary>)
    requires |now| == |rows| && forall i :: 0 <= i < |now| ==> now[i].id == rows[i].id
    ensures Descending(rows) ==> Descending(now)
    ensures AllNewer(held, rows) ==> AllNewer(held, now)
  {
  }

  lemma SameHeld(held: seq<Summary>, rows: seq<Summary>, now: seq<Summary>)
    requires |now| == |held| && forall i :: 0 <= i < |now| ==> now[i].id == held[i].id
    ensures Distinct(held) ==> Distinct(now)
    ensures Ascending(held) ==> Ascending(now)
    ensures AllNewer(held, rows) ==> AllNewer(now, rows)
  {
  }

  lemma NoRow(rows: seq<Summary>, id: Id)
    requires forall i :: 0 <= i < |rows| ==> rows[i].id != id
    ensures IndexOf(rows, id) < 0
  {
  }

  lemma FoundRow(positions: map<Id, int>, head: int, rows: seq<Summary>, id: Id, row: Summary)
    requires Indexes(positions, head, rows) && row in rows && row.id == id
    ensures 0 <= IndexOf(rows, id) && rows[IndexOf(rows, id)] == row
  {
    IndexedOnce(positions, head, rows);
    var i :| 0 <= i < |rows| && rows[i] == row;
    IndexOfAt(rows, i);
  }

  lemma PartsAscend(held: seq<Summary>, rows: seq<Summary>, less: seq<Summary>, at: nat)
    requires Ascending(held) && AllNewer(held, rows) && at < |held|
    requires |less| == |held| - 1 && forall i :: 0 <= i < |less| ==> less[i] == held[if at <= i then i + 1 else i]
    ensures Ascending(less) && AllNewer(less, rows)
  {
  }

  lemma HeldWithout(held: seq<Summary>, rows: seq<Summary>, id: Id)
    requires Ascending(held) && AllNewer(held, rows)
    ensures Ascending(Without(held, id)) && AllNewer(Without(held, id), rows)
  {
    var at, less := IndexOf(held, id), Without(held, id);
    if 0 <= at {
      assert |less| == |held| - 1;
      forall i | 0 <= i < |less| ensures less[i] == held[if at <= i then i + 1 else i] {
        WithoutAt(held, id, i);
      }
      PartsAscend(held, rows, less, at);
    }
  }

  lemma NewerWithout(held: seq<Summary>, rows: seq<Summary>, id: Id)
    requires AllNewer(held, rows)
    ensures AllNewer(held, Without(rows, id))
  {
    var less := Without(rows, id);
    forall j | 0 <= j < |less| ensures exists k :: 0 <= k < |rows| && less[j] == rows[k] {
      WithoutAt(rows, id, j);
    }
    hide Without;
  }

  lemma OrderHeldWithout(held: seq<Summary>, rows: seq<Summary>, id: Id)
    ensures Ascending(held) && AllNewer(held, rows) ==>
              Ascending(Without(held, id)) && AllNewer(Without(held, id), rows)
  {
    if Ascending(held) && AllNewer(held, rows) {
      HeldWithout(held, rows, id);
    }
  }

  /** A list in order stays in order without a message, loaded or waiting. */
  lemma OrderWithout(held: seq<Summary>, rows: seq<Summary>, id: Id)
    ensures Descending(rows) && Ascending(held) && AllNewer(held, rows) ==>
              && Descending(Without(rows, id)) && Ascending(Without(held, id))
              && AllNewer(Without(held, id), Without(rows, id))
  {
    hide Descending, Ascending, AllNewer;
    if Descending(rows) && Ascending(held) && AllNewer(held, rows) {
      WithoutKeepsOrder(rows, id);
      NewerWithout(held, rows, id);
      HeldWithout(held, Without(rows, id), id);
    }
  }

  /** What becomes of the end of the list when a row leaves it. */
  lemma TailWithout(rows: seq<Summary>, id: Id)
    requires Distinct(rows)
    ensures var index := IndexOf(rows, id);
            LastId(Without(rows, id)) ==
            if LastId(rows) == Some(id) then (if 1 <= index then Some(rows[index - 1].id) else None) else LastId(rows)
  {
    if LastId(rows) == Some(id) {
      IndexOfAt(rows, |rows| - 1);
    }
  }

  lemma PageJoins(rows: seq<Summary>, page: seq<Summary>)
    requires Descending(rows) && Descending(page) && rows != []
    requires forall i :: 0 <= i < |page| ==> page[i].id < rows[|rows| - 1].id
    ensures Descending(rows + page)
  {
    var last := rows[|rows| - 1].id;
    assert forall i :: 0 <= i < |rows| ==> last <= rows[i].id;
  }

  lemma HeldAbovePage(held: seq<Summary>, rows: seq<Summary>, page: seq<Summary>)
    requires AllNewer(held, rows) && rows != [] && forall i :: 0 <= i < |page| ==> page[i].id < rows[|rows| - 1].id
    ensures AllNewer(held, rows + page)
  {
    var last := rows[|rows| - 1].id;
    assert forall i :: 0 <= i < |held| ==> last < held[i].id;
  }

  /** A page older than a list in order holds none of its rows, and joins it in order. */
  lemma PageInOrder(positions: map<Id, int>, head: int, held: seq<Summary>, rows: seq<Summary>, page: seq<Summary>)
    requires Indexes(positions, head, rows)
    ensures rows != [] && Descending(rows) && AllNewer(held, rows) && Descending(page) &&
            (forall m :: m in page ==> m.id < rows[|rows| - 1].id)
            ==> Descending(rows + page) && AllNewer(held, rows + page) && Unseen(page, positions.Keys) == page
  {
    if rows != [] && Descending(rows) && AllNewer(held, rows) && Descending(page) &&
       (forall m :: m in page ==> m.id < rows[|rows| - 1].id) {
      assert forall i :: 0 <= i < |page| ==> page[i] in page;
      PageJoins(rows, page);
      HeldAbovePage(held, rows, page);
      DescendingOnce(rows + page);
      forall i | 0 <= i < |page| ensures page[i].id !in positions {
        NotAbove(positions, head, rows, page, i);
      }
      UnseenAll(page, positions.Keys);
    }
  }

  lemma DescendingOnce(rows: seq<Summary>)
    requires Descending(rows)
    ensures Distinct(rows)
  {
  }

  /** The last row of a page stays the last unless it is loaded already. */
  lemma TailOfUnseen(page: seq<Summary>, loaded: set<Id>)
    requires Distinct(page)
    ensures page != [] ==>
            var last := page[|page| - 1].id;
            if last in loaded then forall m :: m in Unseen(page, loaded) ==> m.id != last
            else LastId(Unseen(page, loaded)) == Some(last)
  {
    UnseenOnce(page, loaded);
  }

  lemma TailBelow(newer: seq<Summary>, rows: seq<Summary>)
    ensures rows != [] ==> LastId(newer + rows) == LastId(rows)
  {
  }

  /** Arrivals in commit order, none older than what the list holds, keep it in order. */
  lemma ArrivalsInOrder(arrivals: seq<Summary>, known: set<Id>, f: Filters, held: seq<Summary>, rows: seq<Summary>)
    ensures Descending(rows) && Ascending(held) && AllNewer(held, rows) && InCommitOrder(arrivals) &&
            NewOrKnown(arrivals, known, rows) && NewOrKnown(arrivals, known, held)
            ==> var newest := FreshOf(arrivals, known, f);
                && Descending(newest + rows) && AllNewer(held, rows)
                && Ascending(held + Reversed(newest)) && AllNewer(held + Reversed(newest), rows)
  {
    hide FreshOf;
    if Descending(rows) && Ascending(held) && AllNewer(held, rows) && InCommitOrder(arrivals) &&
       NewOrKnown(arrivals, known, rows) && NewOrKnown(arrivals, known, held) {
      FreshDescends(arrivals, known, f, rows);
      FreshDescends(arrivals, known, f, held);
      OnTop(FreshOf(arrivals, known, f), rows);
      HeldGrows(held, FreshOf(arrivals, known, f), rows);
    }
  }

  lemma OnTop(newer: seq<Summary>, rows: seq<Summary>)
    requires Descending(newer) && Descending(rows) && AllNewer(newer, rows)
    ensures Descending(newer + rows)
  {
  }

  lemma HeldGrows(held: seq<Summary>, newest: seq<Summary>, rows: seq<Summary>)
    requires Ascending(held) && AllNewer(held, rows) && Descending(newest) && AllNewer(newest, rows) &&
             AllNewer(newest, held)
    ensures Ascending(held + Reversed(newest)) && AllNewer(held + Reversed(newest), rows)
  {
  }

  lemma HeldOnce(held: seq<Summary>, newest: seq<Summary>)
    requires Distinct(held) && Distinct(newest)
    requires forall i, j :: 0 <= i < |held| && 0 <= j < |newest| ==> held[i].id != newest[j].id
    ensures Distinct(held + Reversed(newest))
  {
  }

  lemma ReversedOnce(rows: seq<Summary>)
    requires Distinct(rows)
    ensures Distinct(Reversed(rows))
  {
  }

  /** What waits above a list in order is not loaded, and goes on top in order. */
  lemma WaitingInOrder(positions: map<Id, int>, head: int, held: seq<Summary>, rows: seq<Summary>)
    requires Indexes(positions, head, rows)
    ensures Descending(rows) && Ascending(held) && AllNewer(held, rows) ==>
              && Descending(Reversed(held) + rows) && AllNewer([], rows)
              && Unseen(Reversed(held), positions.Keys) == Reversed(held)
  {
    if Descending(rows) && Ascending(held) && AllNewer(held, rows) {
      UnseenAll(Reversed(held), positions.Keys);
    }
  }

  lemma NothingWaits()
    ensures Distinct([]) && Ascending([]) && forall rows :: AllNewer([], rows)
  {
  }

  lemma IdsSnoc(rows: seq<Summary>, from: nat, i: nat)
    requires from <= i < |rows|
    ensures IdsOf(rows[from..i + 1]) == IdsOf(rows[from..i]) + {rows[i].id}
  {
    var a, b := rows[from..i + 1], rows[from..i];
    assert a == b + [rows[i]];
    forall x | x in IdsOf(a) ensures x in IdsOf(b) + {rows[i].id} {
      var k :| 0 <= k < |a| && a[k].id == x;
      assert k < |b| ==> b[k].id == x;
    }
    forall x | x in IdsOf(b) ensures x in IdsOf(a) {
      var k :| 0 <= k < |b| && b[k].id == x;
      assert a[k].id == x;
    }
    assert a[|b|].id == rows[i].id;
  }

  lemma TailIds(rows: seq<Summary>, keep: nat, i: nat)
    requires keep <= |rows| && i < |rows|
    ensures keep <= i ==> rows[i].id in IdsOf(rows[keep..])
  {
    if keep <= i {
      assert rows[keep..][i - keep].id == rows[i].id;
    }
  }

  lemma IndexPrefix(positions: map<Id, int>, head: int, rows: seq<Summary>, keep: nat)
    requires Indexes(positions, head, rows) && keep <= |rows|
    ensures Indexes(positions - IdsOf(rows[keep..]), head, rows[..keep]) && IdsOf(rows[keep..]) <= positions.Keys
  {
    var less := positions - IdsOf(rows[keep..]);
    forall i | 0 <= i < keep ensures rows[i].id in less && less[rows[i].id] == head + i {
      assert forall j :: 0 <= j < |rows| - keep ==> rows[keep..][j] == rows[keep + j];
    }
    forall id | id in less ensures exists i :: 0 <= i < keep && rows[..keep][i].id == id {
      var i :| 0 <= i < |rows| && rows[i].id == id;
      TailIds(rows, keep, i);
      assert rows[..keep][i].id == id;
    }
  }

  lemma PartsOrdered(held: seq<Summary>, rows: seq<Summary>, keep: nat)
    requires keep <= |rows|
    ensures Descending(rows) ==> Descending(rows[..keep])
    ensures AllNewer(held, rows) ==> AllNewer(held, rows[..keep])
  {
  }

  lemma NoIds(rows: seq<Summary>, i: nat)
    requires i <= |rows|
    ensures IdsOf(rows[i..i]) == {}
  {
  }

  /** Rows leaving the list while hidden are counted out as before. */
  lemma CountedStays(positions: map<Id, int>, dropped: set<Id>, hidden: set<Id>, letGo: set<Id>)
    requires dropped <= positions.Keys
    ensures (set id | id in hidden && (id in positions - dropped || id in letGo + dropped * hidden))
         == (set id | id in hidden && (id in positions || id in letGo))
  {
  }
}
