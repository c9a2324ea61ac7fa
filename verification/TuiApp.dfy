/** The terminal client: its list state, the fetches in flight, and the frame pump that feeds it. */
module TuiApp {
  import opened MessageList
  import opened TuiReplay
  import opened TuiReplayLaws
  import opened TuiViews

  /** Most events remembered while a fetch is in flight. */
  const PENDING_DELTA_CAPACITY := 256

  /** A landed list read: its rows and its count. */
  datatype Fetched = Failed | Landed(messages: seq<Row>, total: int)

  /** Whether `events` can be replayed onto a landed page: no clear precedes the last arrival the page lists. */
  predicate Replayable(events: seq<Event>, result: Fetched) {
    result.Landed? ==> !(0 <= LastClear(events) < ListedThrough(result.messages, events))
  }

  /** The server took a landed page at some point of a window. */
  ghost predicate TakenWithin(windowStart: seq<Row>, events: seq<Event>, result: Fetched, search: Search, offset: nat,
                              size: nat)
    requires result.Landed?
  {
    exists k :: 0 <= k <= |events| &&
      View(result.messages, result.total, false) == Taken(Run(windowStart, events[..k]), search, offset, size)
  }

  /**
   * What a view should be. Under a search it shows the matching rows from
   * `offset` on and their number; without one the first page shows the newest
   * rows, and a later page a stretch of the mailbox, with the number of all.
   */
  ghost predicate Correct(v: View, rows: seq<Row>, searching: bool, search: Search, offset: nat) {
    if searching then Shows(v, rows, search, offset) else if offset == 0 then Exact(v, rows) else Counts(v, rows)
  }

  /** A live event applied to the list on screen. */
  function Live(v: View, event: Event, searching: bool, atTop: bool, pageSize: nat): View {
    match event
    case MessageNew(row) =>
      if Listed(v.messages, row.id) then v
      else if searching then v.(stale := true)
      else View(if atTop then Page([row] + v.messages, pageSize) else v.messages, v.total + 1, v.stale)
    case MessageDelete(id) =>
      if Listed(v.messages, id) || !searching then
        View(Without(v.messages, id), if v.total > 0 then v.total - 1 else 0, v.stale)
      else v.(stale := true)
    case MessagesClear => View([], 0, v.stale)
    case _ => v.(messages := Updated(v.messages, event))
  }

  /** A live event keeps an exact unsearched first page exact. */
  lemma LiveStaysExact(v: View, rows: seq<Row>, used: set<Id>, event: Event, size: nat)
    requires Exact(v, rows) && Stored(rows, used) && CanCommit(rows, used, event)
    ensures Exact(Live(v, event, false, true, size), Commit(rows, event))
    ensures Live(v, event, false, true, size).stale == v.stale
  {
    if event.MessageDelete? && !Listed(v.messages, event.id) {
      WithoutPastPrefix(v.messages, rows, event.id);
      assert rows != [];
    } else {
      ExactStep(v.(stale := false), rows, used, event, size);
    }
  }

  /** On any page, under a search or none, a live event leaves a correct view correct, or owes a resync. */
  lemma LiveStaysCorrect(v: View, rows: seq<Row>, used: set<Id>, event: Event, size: nat, searching: bool,
                         search: Search, offset: nat)
    requires Correct(v, rows, searching, search, offset) && Stored(rows, used) && CanCommit(rows, used, event)
    ensures var v2 := Live(v, event, searching, offset == 0, size);
            v2.stale || Correct(v2, Commit(rows, event), searching, search, offset)
  {
    hide Shows, Counts, Exact, Listed;
    if searching {
      ShowsStep(v, rows, used, event, size, search, offset);
    } else if offset == 0 {
      LiveStaysExact(v, rows, used, event, size);
    } else {
      LiveStaysCounted(v, rows, used, event, size);
    }
  }

  /** Without a search a later page stays a stretch of the mailbox, and the count stays its size. */
  lemma LiveStaysCounted(v: View, rows: seq<Row>, used: set<Id>, event: Event, size: nat)
    requires Counts(v, rows) && Stored(rows, used) && CanCommit(rows, used, event)
    ensures Counts(Live(v, event, false, false, size), Commit(rows, event))
  {
    CountsStep(v, rows, used, event);
    StretchListed(v, rows);
    hide IndexOf;
    if event.MessageNew? && Listed(v.messages, event.row.id) {
      ListedUsed(rows, used, event.row.id);
    }
  }

  /** A resync comes to be owed only under a search, by a message that is not listed and comes or goes. */
  lemma LiveOwes(v: View, event: Event, searching: bool, atTop: bool, size: nat)
    ensures Live(v, event, searching, atTop, size).stale <==>
            v.stale ||
            (searching && ((event.MessageNew? && !Listed(v.messages, event.row.id)) ||
                           (event.MessageDelete? && !Listed(v.messages, event.id))))
  {
  }

  /** A full first page stays full under every event but a delete, which takes its row and no other. */
  lemma LiveFillsPage(v: View, rows: seq<Row>, used: set<Id>, event: Event, size: nat)
    requires v.messages == Page(rows, size) && Stored(rows, used) && CanCommit(rows, used, event)
    ensures var messages := Live(v, event, false, true, size).messages;
            if event.MessageDelete? then messages == Without(Page(rows, size), event.id)
            else messages == Page(Commit(rows, event), size)
  {
    PageIsFull(rows, size);
    match event
    case MessageNew(row) =>
      NotListedYet(v.messages, rows, used, row.id);
      PageOnTop(row, rows, size);
    case MessageDelete(_) =>
    case MessagesClear =>
    case _ =>
      UpdatedKeepsIds(rows, event);
      UpdatedKeepsIds(v.messages, event);
      UpdatedPrefix(v.messages, rows, event);
  }

  lemma NotListedYet(head: seq<Row>, rows: seq<Row>, used: set<Id>, id: Id)
    requires head <= rows && Stored(rows, used) && id !in used
    ensures !Listed(head, id)
  {
    if Listed(head, id) {
      PrefixLists(head, rows, id);
      ListedUsed(rows, used, id);
    }
  }

  lemma PageOnTop(row: Row, rows: seq<Row>, size: nat)
    ensures Page([row] + Page(rows, size), size) == Page([row] + rows, size)
  {
  }

  lemma LiveKeepsStale(v: View, event: Event, searching: bool, atTop: bool, size: nat)
    ensures v.stale ==> Live(v, event, searching, atTop, size).stale
  {
  }

  lemma WithoutPastPrefix(head: seq<Row>, rows: seq<Row>, id: Id)
    requires head <= rows && !Listed(head, id) && Listed(rows, id)
    ensures head <= Without(rows, id) && |Without(rows, id)| == |rows| - 1
  {
    IndexOfPrefix(head, rows, id);
  }

  /**
   * The list of the client, on one page under one search.
   *
   * `server` is the mailbox as of the last frame the client was handed, and
   * `windowStart` as of the start of the fetch in flight. They are what the
   * screen is compared with; nothing in the client reads them.
   */
  class App {
    var messages: seq<Row>
    var total: int
    var viewStale: bool
    var loading: bool
    var fetchGeneration: nat
    var pendingEvents: seq<Event>
    var pendingOverflowed: bool
    const searching: bool
    /** What the server matches the search text with; everything, if there is none. */
    ghost const search: Search
    const offset: nat
    const pageSize: nat

    ghost var server: seq<Row>
    ghost var used: set<Id>
    ghost var windowStart: seq<Row>
    ghost var windowUsed: set<Id>
    /** Whether frames were lost that no fetch started since has made up for. */
    ghost var owed: bool
    /** The fetch that was the latest when frames were last lost. */
    ghost var lostDuring: nat

    function Current(): View reads this {
      View(messages, total, viewStale)
    }

    /** What can be decided locally: the unsearched first page. */
    predicate AtTop() {
      !searching && offset == 0
    }

    /** The events remembered lead from the start of the window to the mailbox as it is now. */
    ghost predicate Windowed() reads this {
      && Stored(server, used)
      && |pendingEvents| <= PENDING_DELTA_CAPACITY
      && (!loading ==> pendingEvents == [] && !pendingOverflowed)
      && (loading && !pendingOverflowed ==>
            Stored(windowStart, windowUsed) && Log(windowStart, windowUsed, pendingEvents) &&
            server == Run(windowStart, pendingEvents) && used == UsedAfter(windowUsed, pendingEvents))
    }

    /** Lost frames are never forgotten: the view owes a resync until one started since has landed. */
    ghost predicate ResyncRemembered() reads this {
      owed ==>
        && viewStale && lostDuring <= fetchGeneration
        && (loading && lostDuring == fetchGeneration ==> pendingOverflowed)
    }

    /** The screen is right, or the client knows that it may not be. */
    ghost predicate Synced() reads this {
      viewStale || Correct(Current(), server, searching, search, offset)
    }

    ghost predicate Valid() reads this {
      1 <= pageSize && (!searching ==> Everything(search)) && Windowed() && ResyncRemembered()
    }

    constructor (searching: bool, ghost search: Search, offset: nat, pageSize: nat)
      requires 1 <= pageSize && (!searching ==> Everything(search))
      ensures Valid() && Synced() && !loading && server == []
    {
      this.searching, this.search, this.offset, this.pageSize := searching, search, offset, pageSize;
      messages, total, viewStale, loading, fetchGeneration := [], 0, false, false, 0;
      pendingEvents, pendingOverflowed := [], false;
      server, used, windowStart, windowUsed, owed, lostDuring := [], {}, [], {}, false, 0;
      assert [] <= Behind([], 0);
    }

    method FetchMessages()
      requires Valid()
      modifies this
      ensures Valid() && (old(Synced()) ==> Synced())
      ensures loading && fetchGeneration == old(fetchGeneration) + 1
      ensures Current() == old(Current()) && server == old(server) && used == old(used)
      ensures pendingEvents == old(pendingEvents) && pendingOverflowed == old(pendingOverflowed)
      ensures owed == old(owed) && lostDuring == old(lostDuring)
    {
      if !loading {
        windowStart, windowUsed := server, used;
      }
      loading := true;
      fetchGeneration := fetchGeneration + 1;
    }

    /** Starts a resync if one is owed, the throttle allows it and none is in flight. */
    method RefetchIfStale(throttleElapsed: bool)
      requires Valid()
      modifies this
      ensures Valid()
      ensures fetchGeneration == old(fetchGeneration) + (if old(viewStale && !loading) && throttleElapsed then 1 else 0)
      ensures Current() == old(Current()) && owed == old(owed) && server == old(server)
      ensures old(Synced()) ==> Synced()
    {
      if viewStale && !loading && throttleElapsed {
        FetchMessages();
      }
    }

    /** Frames were lost; the mailbox meanwhile became `now`. */
    method HandleWsOverflow(ghost now: seq<Row>, ghost nowUsed: set<Id>)
      requires Valid() && Stored(now, nowUsed)
      modifies this
      ensures Valid() && Synced() && viewStale && owed && lostDuring == fetchGeneration
      ensures server == now && used == nowUsed
      ensures messages == old(messages) && total == old(total) && loading == old(loading)
      ensures fetchGeneration == old(fetchGeneration)
    {
      viewStale := true;
      if loading {
        pendingOverflowed := true;
      }
      server, used, owed, lostDuring := now, nowUsed, true, fetchGeneration;
    }

    method Record(delta: Event)
      modifies `pendingEvents, `pendingOverflowed
      ensures if old(pendingOverflowed) then unchanged(this)
              else if old(|pendingEvents|) >= PENDING_DELTA_CAPACITY then pendingEvents == [] && pendingOverflowed
              else pendingEvents == old(pendingEvents) + [delta] && !pendingOverflowed
    {
      if pendingOverflowed {
        return;
      }
      if |pendingEvents| >= PENDING_DELTA_CAPACITY {
        pendingEvents := [];
        pendingOverflowed := true;
        return;
      }
      pendingEvents := pendingEvents + [delta];
    }

    /** A fetch in flight remembers the event; the server has committed it. */
    method RecordLive(event: Event)
      requires Valid() && CanCommit(server, used, event)
      modifies `pendingEvents, `pendingOverflowed, `server, `used
      ensures Valid() && server == Commit(old(server), event) && used == Used(old(used), event)
    {
      hide Log, Run, CanCommit, Stored, Commit, UsedAfter, Everything;
      ghost var window := pendingEvents;
      if loading {
        Record(event);
      }
      CommitKeeps(server, used, event);
      if loading && !pendingOverflowed {
        LogSnoc(windowStart, windowUsed, window, event);
      }
      server, used := Commit(server, event), Used(used, event);
    }

    method HandleWsMessage(event: Event)
      requires Valid() && CanCommit(server, used, event)
      modifies this
      ensures Valid() && (old(Synced()) ==> Synced())
      ensures Current() == Live(old(Current()), event, searching, offset == 0, pageSize)
      ensures server == Commit(old(server), event) && used == Used(old(used), event)
      ensures loading == old(loading) && fetchGeneration == old(fetchGeneration)
      ensures owed == old(owed) && lostDuring == old(lostDuring)
    {
      hide Live, Log, Run, Correct, CanCommit, Stored, Commit, UsedAfter, Everything;
      if !viewStale && Synced() {
        LiveStaysCorrect(Current(), server, used, event, pageSize, searching, search, offset);
      }
      LiveKeepsStale(Current(), event, searching, offset == 0, pageSize);
      RecordLive(event);
      ApplyLive(event);
    }

    method ApplyLive(event: Event)
      modifies `messages, `total, `viewStale
      ensures Current() == Live(old(Current()), event, searching, offset == 0, pageSize)
    {
      match event {
        case MessageNew(row) =>
          if Listed(messages, row.id) {
          } else if searching {
            viewStale := true;
          } else {
            total := total + 1;
            if offset == 0 {
              messages := [row] + messages;
              messages := Page(messages, pageSize);
            }
          }
        case MessageDelete(id) =>
          var position := IndexOf(messages, id);
          if position >= 0 || !searching {
            total := if total - 1 > 0 then total - 1 else 0;
          } else {
            viewStale := true;
          }
          if position >= 0 {
            messages := messages[..position] + messages[position + 1..];
          }
        case MessagesClear =>
          messages := [];
          total := 0;
        case _ =>
          ApplyUpdate(event);
      }
    }

    method ApplyUpdate(update: Event)
      modifies `messages
      ensures messages == if update.Update?() then Updated(old(messages), update) else old(messages)
    {
      if update.Update?() {
        var position := IndexOf(messages, update.id);
        if position >= 0 {
          messages := messages[position := ApplyTo(messages[position], update)];
        }
      }
    }

    method ReplayOne(delta: Event)
      modifies `messages, `total, `viewStale
      ensures Current() == ReplayDelta(old(Current()), delta, AtTop(), pageSize)
    {
      match delta {
        case MessageNew(row) =>
          if Listed(messages, row.id) {
            return;
          }
          if searching || offset != 0 {
            viewStale := true;
            return;
          }
          total := total + 1;
          messages := [row] + messages;
          messages := Page(messages, pageSize);
        case MessageDelete(id) =>
          var position := IndexOf(messages, id);
          if position >= 0 {
            messages := messages[..position] + messages[position + 1..];
            total := if total - 1 > 0 then total - 1 else 0;
          } else {
            viewStale := true;
          }
        case MessagesClear =>
          messages := [];
          total := 0;
        case _ =>
          ApplyUpdate(delta);
      }
    }

    /** Re-applies `deltas`, in order, onto the snapshot just landed. */
    method ReplayDeltas(deltas: seq<Event>)
      modifies `messages, `total, `viewStale
      ensures Current() == Replay(old(Current()), deltas, AtTop(), pageSize)
    {
      var listedThrough := |deltas| - 1;
      while listedThrough >= 0 && !(deltas[listedThrough].MessageNew? && Listed(messages, deltas[listedThrough].row.id))
        invariant -1 <= listedThrough < |deltas|
        invariant ListedThrough(messages, deltas) <= listedThrough
      {
        listedThrough := listedThrough - 1;
      }
      assert listedThrough == ListedThrough(messages, deltas);
      var index := 0;
      assert deltas[index..] == deltas;
      while index < |deltas|
        invariant 0 <= index <= |deltas|
        invariant ReplayFrom(Current(), deltas[index..], listedThrough - index, AtTop(), pageSize) ==
                  Replay(old(Current()), deltas, AtTop(), pageSize)
      {
        var delta := deltas[index];
        assert deltas[index..][0] == delta && deltas[index..][1..] == deltas[index + 1..];
        var inSnapshot := index <= listedThrough;
        if !(inSnapshot && delta.MessageNew?) {
          ReplayOne(delta);
        }
        index := index + 1;
      }
    }

    /** The server took the snapshot at some point of the window. */
    ghost predicate SnapshotOf(result: Fetched) reads this {
      result.Landed? && !pendingOverflowed ==> TakenWithin(windowStart, pendingEvents, result, search, offset, pageSize)
    }

    /** Shows a list read, with the events recorded since it was asked for. */
    method LandSnapshot(result: Fetched, events: seq<Event>, overflowed: bool)
      requires result.Landed? && 1 <= pageSize && (!searching ==> Everything(search))
      requires !overflowed ==>
        && Stored(windowStart, windowUsed) && Log(windowStart, windowUsed, events) && server == Run(windowStart, events)
        && TakenWithin(windowStart, events, result, search, offset, pageSize)
      modifies `messages, `total, `viewStale
      ensures Current() == Replay(View(result.messages, result.total, overflowed), events, AtTop(), pageSize)
      ensures overflowed ==> viewStale
      ensures viewStale || (Correct(Current(), server, searching, search, offset) <==> Replayable(events, result))
    {
      hide Replay, Log, Run, Correct, Stored, Replayable, TakenWithin, Everything;
      messages := result.messages;
      total := result.total;
      viewStale := overflowed;
      ReplayDeltas(events);
      if overflowed {
        ReplayStaysStale(View(result.messages, result.total, true), events, AtTop(), pageSize);
      } else {
        Landing(windowStart, windowUsed, events, server, result, searching, search, offset, pageSize);
      }
    }

    method HandleMessagesFetched(generation: nat, result: Fetched)
      requires Valid() && (generation == fetchGeneration ==> loading)
      requires generation == fetchGeneration ==> SnapshotOf(result)
      modifies this
      ensures Valid()
      ensures old(Synced()) && (generation == old(fetchGeneration) ==> Replayable(old(pendingEvents), result))
              ==> Synced()
      ensures generation == old(fetchGeneration) && result.Landed? ==>
                viewStale ||
                (Correct(Current(), server, searching, search, offset) <==> Replayable(old(pendingEvents), result))
      ensures generation != old(fetchGeneration) ==> unchanged(this)
      ensures generation == old(fetchGeneration) ==> !loading && fetchGeneration == old(fetchGeneration)
      ensures generation == old(fetchGeneration) && result.Landed? ==>
                var landed := View(result.messages, result.total, old(pendingOverflowed));
                Current() == Replay(landed, old(pendingEvents), AtTop(), pageSize)
      ensures result.Failed? ==> Current() == old(Current())
      ensures server == old(server) && used == old(used)
      ensures owed == (old(owed) && !(generation == old(fetchGeneration) > old(lostDuring) && result.Landed?))
    {
      hide Replay, ReplayFrom, Log, Run, Correct, LastClear, ListedThrough, Page, UsedAfter, Stored, Replayable,
           TakenWithin, Everything, ReplayDelta, Listed, IndexOf, Without, Updated, CanCommit, Commit;
      if generation != fetchGeneration {
        return;
      }
      loading := false;
      var events, overflowed := pendingEvents, pendingOverflowed;
      pendingEvents, pendingOverflowed := [], false;
      if result.Landed? {
        LandSnapshot(result, events, overflowed);
        if lostDuring < fetchGeneration {
          owed := false;
        }
      }
    }
  }

  lemma ReplayStaysStale(v: View, events: seq<Event>, exact: bool, size: nat)
    requires v.stale
    ensures Replay(v, events, exact, size).stale
  {
    StaysStale(v, events, ListedThrough(v.messages, events), exact, size);
  }

  lemma LogSnoc(rows: seq<Row>, used: set<Id>, es: seq<Event>, event: Event)
    requires Log(rows, used, es) && CanCommit(Run(rows, es), UsedAfter(used, es), event)
    ensures Log(rows, used, es + [event])
    ensures Run(rows, es + [event]) == Commit(Run(rows, es), event)
    ensures UsedAfter(used, es + [event]) == Used(UsedAfter(used, es), event)
  {
    RunSplit(rows, used, es, [event]);
    var last, lastUsed := Run(rows, es), UsedAfter(used, es);
    assert Log(Commit(last, event), Used(lastUsed, event), []);
    assert Run(last, [event]) == Run(Commit(last, event), []);
    assert UsedAfter(lastUsed, [event]) == UsedAfter(Used(lastUsed, event), []);
  }

  lemma WhenReplayable(events: seq<Event>, result: Fetched)
    requires result.Landed?
    ensures Replayable(events, result) <==> !(0 <= LastClear(events) < ListedThrough(result.messages, events))
  {
    hide LastClear, ListedThrough;
  }

  /**
   * A window of events that ends in the mailbox as it is now, replayed onto a
   * snapshot from within it, shows that mailbox unless a clear precedes the
   * last arrival the snapshot lists.
   */
  lemma LandedInWindow(windowStart: seq<Row>, windowUsed: set<Id>, events: seq<Event>, server: seq<Row>,
                       result: Fetched, size: nat, k: nat)
    requires Stored(windowStart, windowUsed) && Log(windowStart, windowUsed, events) &&
             server == Run(windowStart, events)
    requires 1 <= size && result.Landed? && k <= |events|
    requires result.messages == Page(Run(windowStart, events[..k]), size) &&
             result.total == |Run(windowStart, events[..k])|
    ensures var out := Replay(View(result.messages, result.total, false), events, true, size);
            out.stale || (Exact(out, server) <==> Replayable(events, result))
  {
    hide *;
    WhenReplayable(events, result);
    var before, after := events[..k], events[k..];
    assert events == before + after;
    SnapshotPlusReplay(windowStart, windowUsed, before, after, size);
  }

  /** The same on every other page, and under any search. */
  lemma LandedElsewhere(windowStart: seq<Row>, windowUsed: set<Id>, events: seq<Event>, server: seq<Row>,
                        result: Fetched, searching: bool, search: Search, offset: nat, size: nat, k: nat)
    requires Stored(windowStart, windowUsed) && Log(windowStart, windowUsed, events) &&
             server == Run(windowStart, events)
    requires (searching || offset != 0) && (!searching ==> Everything(search)) && result.Landed? && k <= |events|
    requires View(result.messages, result.total, false) ==
             Taken(Run(windowStart, events[..k]), search, offset, size)
    ensures var out := Replay(View(result.messages, result.total, false), events, false, size);
            out.stale || (Correct(out, server, searching, search, offset) <==> Replayable(events, result))
  {
    hide Replay, Log, Run, Taken, Stored, Replayable, Shows, Counts, Everything, Hits;
    WhenReplayable(events, result);
    var before, after := events[..k], events[k..];
    assert events == before + after;
    SearchPlusReplay(windowStart, windowUsed, before, after, size, search, offset);
    var out := Replay(View(result.messages, result.total, false), events, false, size);
    if !searching {
      HitsAll(server, search);
      if Replayable(events, result) && !out.stale {
        ShowsIsCounts(out, server, search, offset);
      }
      CountsSize(out, server);
    }
  }

  lemma CountsSize(v: View, rows: seq<Row>)
    ensures Counts(v, rows) ==> v.total == |rows|
  {
  }

  lemma TakenAtTop(rows: seq<Row>, search: Search, size: nat)
    requires Everything(search)
    ensures Taken(rows, search, 0, size) == View(Page(rows, size), |rows|, false)
  {
    HitsAll(rows, search);
    assert rows[0..] == rows;
  }

  lemma Landing(windowStart: seq<Row>, windowUsed: set<Id>, events: seq<Event>, server: seq<Row>,
                result: Fetched, searching: bool, search: Search, offset: nat, size: nat)
    requires Stored(windowStart, windowUsed) && Log(windowStart, windowUsed, events)
    requires server == Run(windowStart, events) && (!searching ==> Everything(search))
    requires 1 <= size && result.Landed? && TakenWithin(windowStart, events, result, search, offset, size)
    ensures var exact := !searching && offset == 0;
            var out := Replay(View(result.messages, result.total, false), events, exact, size);
            out.stale || (Correct(out, server, searching, search, offset) <==> Replayable(events, result))
  {
    hide Replay, Log, Run, Exact, Page, Stored, Replayable, Taken, Shows, Counts, Everything;
    var k: nat :| k <= |events| &&
      View(result.messages, result.total, false) == Taken(Run(windowStart, events[..k]), search, offset, size);
    if searching || offset != 0 {
      LandedElsewhere(windowStart, windowUsed, events, server, result, searching, search, offset, size, k);
    } else {
      TakenAtTop(Run(windowStart, events[..k]), search, size);
      LandedInWindow(windowStart, windowUsed, events, server, result, size, k);
    }
  }
}
