/**
 * Replaying onto a list snapshot the events that arrived while it was being
 * fetched, and the server log those events and the snapshot come from.
 */
module TuiReplay {
  import opened MessageList

  /** What the terminal client shows of the mailbox: a page of rows, a count, and whether a resync is owed. */
  datatype View = View(messages: seq<Row>, total: int, stale: bool)

  /**
   * One recorded event applied to the snapshot. `exact` says the page is the
   * unsearched first one, the only kind an arrival can be placed in locally.
   */
  function ReplayDelta(v: View, delta: Event, exact: bool, pageSize: nat): View {
    match delta
    case MessageNew(row) =>
      if Listed(v.messages, row.id) then v
      else if !exact then v.(stale := true)
      else View(Page([row] + v.messages, pageSize), v.total + 1, v.stale)
    case MessageDelete(id) =>
      if Listed(v.messages, id) then
        View(Without(v.messages, id), if v.total > 0 then v.total - 1 else 0, v.stale)
      else v.(stale := true)
    case MessagesClear => View([], 0, v.stale)
    case _ => v.(messages := Updated(v.messages, delta))
  }

  /** Index of the last arrival in `deltas` that `messages` lists, or -1. */
  function ListedThrough(messages: seq<Row>, deltas: seq<Event>): (last: int)
    ensures -1 <= last < |deltas|
    ensures 0 <= last ==> deltas[last].MessageNew? && Listed(messages, deltas[last].row.id)
    ensures forall i :: last < i < |deltas| && deltas[i].MessageNew? ==> !Listed(messages, deltas[i].row.id)
  {
    if deltas == [] then -1
    else
      var later := ListedThrough(messages, deltas[1..]);
      if 0 <= later then later + 1
      else if deltas[0].MessageNew? && Listed(messages, deltas[0].row.id) then 0
      else -1
  }

  /** The first of `deltas`, passed over if it is an arrival at or before `through`. */
  function ReplayNext(v: View, delta: Event, through: int, exact: bool, pageSize: nat): View {
    if 0 <= through && delta.MessageNew? then v else ReplayDelta(v, delta, exact, pageSize)
  }

  function ReplayFrom(v: View, deltas: seq<Event>, through: int, exact: bool, pageSize: nat): View
    decreases |deltas|
  {
    if deltas == [] then v
    else ReplayFrom(ReplayNext(v, deltas[0], through, exact, pageSize), deltas[1..], through - 1, exact, pageSize)
  }

  function Replay(v: View, deltas: seq<Event>, exact: bool, pageSize: nat): View {
    ReplayFrom(v, deltas, ListedThrough(v.messages, deltas), exact, pageSize)
  }

  // ---------- The server ----------

  /** The mailbox after it commits what `event` announces. */
  function Commit(rows: seq<Row>, event: Event): seq<Row> {
    match event
    case MessageNew(row) => [row] + rows
    case MessageDelete(id) => Without(rows, id)
    case MessagesClear => []
    case _ => Updated(rows, event)
  }

  function Run(rows: seq<Row>, events: seq<Event>): seq<Row>
    decreases |events|
  {
    if events == [] then rows else Run(Commit(rows, events[0]), events[1..])
  }

  /** Ids are minted once; every other event names a stored message. */
  predicate CanCommit(rows: seq<Row>, used: set<Id>, event: Event) {
    match event
    case MessageNew(row) => row.id !in used
    case MessagesClear => true
    case _ => Listed(rows, event.id)
  }

  function Used(used: set<Id>, event: Event): set<Id> {
    if event.MessageNew? then used + {event.row.id} else used
  }

  /** A log the server can produce from `rows`, the ids in `used` having been minted before. */
  predicate Log(rows: seq<Row>, used: set<Id>, events: seq<Event>)
    decreases |events|
  {
    events == [] ||
    (CanCommit(rows, used, events[0]) && Log(Commit(rows, events[0]), Used(used, events[0]), events[1..]))
  }

  ghost predicate Stored(rows: seq<Row>, used: set<Id>) {
    Distinct(rows) && AllIn(rows, used)
  }

  function UsedAfter(used: set<Id>, events: seq<Event>): set<Id>
    decreases |events|
  {
    if events == [] then used else UsedAfter(Used(used, events[0]), events[1..])
  }

  lemma CommitKeeps(rows: seq<Row>, used: set<Id>, event: Event)
    requires Stored(rows, used) && CanCommit(rows, used, event)
    ensures Stored(Commit(rows, event), Used(used, event))
  {
    match event
    case MessageNew(row) =>
    case MessageDelete(id) =>
      WithoutKeepsDistinct(rows, id);
    case MessagesClear =>
    case _ =>
      UpdatedKeepsIds(rows, event);
  }

  lemma {:induction false} RunKeeps(rows: seq<Row>, used: set<Id>, events: seq<Event>)
    requires Stored(rows, used) && Log(rows, used, events)
    ensures Stored(Run(rows, events), UsedAfter(used, events)) && used <= UsedAfter(used, events)
    decreases |events|
  {
    if events != [] {
      CommitKeeps(rows, used, events[0]);
      RunKeeps(Commit(rows, events[0]), Used(used, events[0]), events[1..]);
    }
  }

  lemma {:induction false} RunSplit(rows: seq<Row>, used: set<Id>, before: seq<Event>, after: seq<Event>)
    ensures Run(rows, before + after) == Run(Run(rows, before), after)
    ensures UsedAfter(used, before + after) == UsedAfter(UsedAfter(used, before), after)
    ensures Log(rows, used, before + after) <==>
            Log(rows, used, before) && Log(Run(rows, before), UsedAfter(used, before), after)
    decreases |before|
  {
    if before == [] {
      assert before + after == after;
    } else {
      assert (before + after)[1..] == before[1..] + after;
      RunSplit(Commit(rows, before[0]), Used(used, before[0]), before[1..], after);
    }
  }

  lemma CommitLists(rows: seq<Row>, used: set<Id>, event: Event, id: Id)
    requires Stored(rows, used) && CanCommit(rows, used, event)
    ensures Listed(Commit(rows, event), id) <==>
            match event
            case MessageNew(row) => row.id == id || Listed(rows, id)
            case MessageDelete(gone) => gone != id && Listed(rows, id)
            case MessagesClear => false
            case _ => Listed(rows, id)
  {
    match event
    case MessageNew(row) =>
      var out := [row] + rows;
      if Listed(rows, id) {
        assert out[IndexOf(rows, id) + 1].id == id;
      }
      if row.id == id {
        assert out[0].id == id;
      }
    case MessageDelete(gone) =>
      WithoutKeepsDistinct(rows, gone);
    case MessagesClear =>
    case _ =>
      UpdatedKeepsIds(rows, event);
      SameIdsSameIndex(Commit(rows, event), rows, id);
  }

  /** A deleted message never comes back, since its id is never minted again. */
  lemma {:induction false} NeverBack(rows: seq<Row>, used: set<Id>, events: seq<Event>, id: Id)
    requires Stored(rows, used) && Log(rows, used, events)
    requires id in used && !Listed(rows, id)
    ensures !Listed(Run(rows, events), id)
    decreases |events|
  {
    if events != [] {
      CommitKeeps(rows, used, events[0]);
      CommitLists(rows, used, events[0], id);
      NeverBack(Commit(rows, events[0]), Used(used, events[0]), events[1..], id);
    }
  }

  /** A message that left was deleted, if the mailbox was not cleared. */
  lemma {:induction false} GoneByDelete(rows: seq<Row>, used: set<Id>, events: seq<Event>, id: Id)
    requires Stored(rows, used) && Log(rows, used, events) && MessagesClear !in events
    requires Listed(rows, id) && !Listed(Run(rows, events), id)
    ensures MessageDelete(id) in events
    decreases |events|
  {
    if events != [] && events[0] != MessageDelete(id) {
      CommitKeeps(rows, used, events[0]);
      CommitLists(rows, used, events[0], id);
      GoneByDelete(Commit(rows, events[0]), Used(used, events[0]), events[1..], id);
    }
  }

  /** Everything listed ahead of `id` is in `newer`. */
  predicate AheadIn(rows: seq<Row>, id: Id, newer: set<Id>) {
    forall i :: 0 <= i < IndexOf(rows, id) ==> rows[i].id in newer
  }

  lemma DeleteAhead(rows: seq<Row>, gone: Id, id: Id, newer: set<Id>)
    requires Distinct(rows) && Listed(rows, gone) && AheadIn(rows, id, newer)
    ensures AheadIn(Without(rows, gone), id, newer)
  {
    var index, out := IndexOf(rows, gone), Without(rows, gone);
    assert out == rows[..index] + rows[index + 1..];
    var at := IndexOf(out, id);
    hide Without, IndexOf, Distinct;
    if 0 <= at {
      var was := if at < index then at else at + 1;
      assert rows[was] == out[at];
      IndexOfAt(rows, was);
      forall i | 0 <= i < at ensures out[i].id in newer {
        assert out[i] == rows[if i < index then i else i + 1];
      }
    }
  }

  lemma CommitAhead(rows: seq<Row>, used: set<Id>, event: Event, id: Id, newer: set<Id>)
    requires Stored(rows, used) && CanCommit(rows, used, event)
    requires id in used && AheadIn(rows, id, newer)
    ensures AheadIn(Commit(rows, event), id, Used(newer, event))
  {
    var out := Commit(rows, event);
    match event
    case MessageNew(row) =>
      assert out[1..] == rows;
    case MessageDelete(gone) =>
      DeleteAhead(rows, gone, id, newer);
    case MessagesClear =>
    case _ =>
      UpdatedKeepsIds(rows, event);
      SameIdsSameIndex(out, rows, id);
  }

  /** Only messages that arrive later are ever listed ahead of the newest one. */
  lemma {:induction false} RunAhead(rows: seq<Row>, used: set<Id>, events: seq<Event>, id: Id, newer: set<Id>)
    requires Stored(rows, used) && Log(rows, used, events)
    requires id in used && AheadIn(rows, id, newer)
    ensures AheadIn(Run(rows, events), id, UsedAfter(newer, events))
    decreases |events|
  {
    if events != [] {
      CommitKeeps(rows, used, events[0]);
      CommitAhead(rows, used, events[0], id, newer);
      RunAhead(Commit(rows, events[0]), Used(used, events[0]), events[1..], id, Used(newer, events[0]));
    }
  }

  lemma {:induction false} MintedBy(newer: set<Id>, events: seq<Event>, id: Id) returns (at: nat)
    requires id in UsedAfter(newer, events) && id !in newer
    ensures at < |events| && events[at].MessageNew? && events[at].row.id == id
    decreases |events|
  {
    if events[0].MessageNew? && events[0].row.id == id {
      at := 0;
    } else {
      var later := MintedBy(Used(newer, events[0]), events[1..], id);
      at := later + 1;
    }
  }

  // ---------- Flags: the last write wins, however often it is repeated ----------

  function Patch(row: Row, event: Event): Row {
    if event.Update?() && event.id == row.id then ApplyTo(row, event) else row
  }

  function PatchAll(row: Row, events: seq<Event>): Row
    decreases |events|
  {
    if events == [] then row else PatchAll(Patch(row, events[0]), events[1..])
  }

  lemma {:induction false} PatchSnoc(row: Row, events: seq<Event>, event: Event)
    ensures PatchAll(row, events + [event]) == Patch(PatchAll(row, events), event)
    decreases |events|
  {
    if events == [] {
      assert events + [event] == [event];
      assert PatchAll(row, [event]) == PatchAll(Patch(row, event), []);
    } else {
      assert (events + [event])[1..] == events[1..] + [event];
      PatchSnoc(Patch(row, events[0]), events[1..], event);
    }
  }

  /** A write that is repeated at the end may as well have been made at the start. */
  lemma {:induction false} LastWriteWins(row: Row, events: seq<Event>, event: Event)
    ensures Patch(PatchAll(Patch(row, event), events), event) == Patch(PatchAll(row, events), event)
    decreases |events|
  {
    if events != [] {
      var next := events[0];
      LastWriteWins(Patch(row, next), events[1..], event);
      if Patch(Patch(row, event), next) != Patch(Patch(row, next), event) {
        assert Patch(Patch(row, event), next) == Patch(row, next);
      }
    }
  }

  /** Replaying the whole log over its own outcome changes no row. */
  ghost predicate Settled(rows: seq<Row>, prior: seq<Event>) {
    forall i :: 0 <= i < |rows| ==> PatchAll(rows[i], prior) == rows[i]
  }

  ghost predicate Names(prior: seq<Event>, used: set<Id>) {
    forall i :: 0 <= i < |prior| && prior[i].Update?() ==> prior[i].id in used
  }

  lemma {:induction false} PatchUnnamed(row: Row, prior: seq<Event>, used: set<Id>)
    requires Names(prior, used) && row.id !in used
    ensures PatchAll(row, prior) == row
    decreases |prior|
  {
    if prior != [] {
      assert Patch(row, prior[0]) == row;
      PatchUnnamed(row, prior[1..], used);
    }
  }

  lemma CommitSettles(rows: seq<Row>, used: set<Id>, prior: seq<Event>, event: Event)
    requires Stored(rows, used) && CanCommit(rows, used, event)
    requires Settled(rows, prior) && Names(prior, used)
    ensures Settled(Commit(rows, event), prior + [event]) && Names(prior + [event], Used(used, event))
  {
    var out := Commit(rows, event);
    if event.Update?() {
      assert rows[IndexOf(rows, event.id)].id in used;
    }
    forall i | 0 <= i < |out|
      ensures PatchAll(out[i], prior + [event]) == out[i]
    {
      PatchSnoc(out[i], prior, event);
      match event
      case MessageNew(row) =>
        if i == 0 {
          PatchUnnamed(row, prior, used);
        } else {
          assert out[i] == rows[i - 1];
        }
      case MessageDelete(id) =>
        assert out[i] in rows;
      case MessagesClear =>
      case _ =>
        var at := IndexOf(rows, event.id);
        if i == at {
          assert out[i] == Patch(rows[i], event);
          LastWriteWins(rows[i], prior, event);
        } else {
          assert out[i] == rows[i];
          assert rows[i].id != event.id;
        }
    }
  }

  lemma {:induction false} RunSettles(rows: seq<Row>, used: set<Id>, prior: seq<Event>, events: seq<Event>)
    requires Stored(rows, used) && Log(rows, used, events)
    requires Settled(rows, prior) && Names(prior, used)
    ensures Settled(Run(rows, events), prior + events)
    decreases |events|
  {
    if events == [] {
      assert prior + events == prior;
    } else {
      CommitKeeps(rows, used, events[0]);
      CommitSettles(rows, used, prior, events[0]);
      RunSettles(Commit(rows, events[0]), Used(used, events[0]), prior + [events[0]], events[1..]);
      assert prior + [events[0]] + events[1..] == prior + events;
    }
  }
}
