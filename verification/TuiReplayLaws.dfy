/**
 * Why replaying the recorded events onto a snapshot converges, wherever in
 * the recorded window the server took the snapshot, and exactly when it does not.
 */
module TuiReplayLaws {
  import opened MessageList
  import opened TuiReplay

  /** The client shows the newest rows of `rows` with their current flags, and counts all of them. */
  predicate Exact(v: View, rows: seq<Row>) {
    v.messages <= rows && v.total == |rows|
  }

  // ---------- Operations on a prefix ----------

  lemma WithoutPrefix(head: seq<Row>, rows: seq<Row>, id: Id)
    requires head <= rows && Listed(head, id)
    ensures Without(head, id) <= Without(rows, id) && |Without(rows, id)| == |rows| - 1
  {
    IndexOfPrefix(head, rows, id);
    var index := IndexOf(rows, id);
    hide IndexOf;
    var tail := rows[|head|..];
    assert rows == head + tail;
    assert rows[..index] == head[..index] && rows[index + 1..] == head[index + 1..] + tail;
    assert Without(rows, id) == head[..index] + (head[index + 1..] + tail);
    assert Without(rows, id) == Without(head, id) + tail;
  }

  lemma UpdatedPrefix(head: seq<Row>, rows: seq<Row>, update: Event)
    requires head <= rows && update.Update?()
    ensures Updated(head, update) <= Updated(rows, update)
  {
    IndexOfPrefix(head, rows, update.id);
  }

  lemma IndexOfConcat(a: seq<Row>, b: seq<Row>, id: Id)
    ensures IndexOf(a + b, id) ==
            if Listed(a, id) then IndexOf(a, id)
            else if Listed(b, id) then |a| + IndexOf(b, id) else -1
  {
    if a == [] {
      assert a + b == b;
    } else {
      assert (a + b)[1..] == a[1..] + b;
      IndexOfConcat(a[1..], b, id);
    }
  }

  lemma UpdatedConcat(a: seq<Row>, b: seq<Row>, update: Event)
    requires update.Update?() && Distinct(a + b)
    ensures Updated(a + b, update) == Updated(a, update) + Updated(b, update)
  {
    IndexOfConcat(a, b, update.id);
    if Listed(a, update.id) {
      NotInBoth(a, b, update.id);
    }
  }

  lemma NotInBoth(a: seq<Row>, b: seq<Row>, id: Id)
    requires Distinct(a + b) && Listed(a, id)
    ensures !Listed(b, id)
  {
    var at := IndexOf(a, id);
    forall i | 0 <= i < |b| ensures b[i].id != id {
      assert (a + b)[at] == a[at] && (a + b)[|a| + i] == b[i];
    }
  }

  lemma WithoutConcat(a: seq<Row>, b: seq<Row>, id: Id)
    requires Listed(a, id)
    ensures Without(a + b, id) == Without(a, id) + b
  {
    IndexOfConcat(a, b, id);
    var index := IndexOf(a, id);
    assert (a + b)[index + 1..] == a[index + 1..] + b;
  }

  lemma PagePrefix(row: Row, head: seq<Row>, rows: seq<Row>, size: nat)
    requires head <= rows
    ensures Page([row] + head, size) <= [row] + rows
  {
  }

  lemma PrefixLists(head: seq<Row>, rows: seq<Row>, id: Id)
    requires head <= rows && Listed(head, id)
    ensures Listed(rows, id)
  {
    IndexOfPrefix(head, rows, id);
  }

  // ---------- Up to the snapshot ----------

  /**
   * The client on its way through the events the snapshot already holds. It
   * shows `temps`, arrivals whose own deletion is still ahead in `es`, on top
   * of `base`, which the updates ahead in `es` turn into `goal`.
   */
  ghost predicate Mid(v: View, temps: seq<Row>, base: seq<Row>, used: set<Id>, es: seq<Event>, goal: seq<Row>) {
    && v.messages <= temps + base && v.total == |temps + base|
    && Distinct(temps + base) && AllIn(temps, used)
    && |base| == |goal|
    && (forall i :: 0 <= i < |base| ==> base[i].id == goal[i].id && PatchAll(base[i], es) == goal[i])
    && (forall i :: 0 <= i < |temps| ==> MessageDelete(temps[i].id) in es)
  }

  /** No arrival that gets replayed is in the snapshot. */
  predicate Covered(through: int, es: seq<Event>, end: seq<Row>) {
    forall i :: 0 <= i < |es| && through < i && es[i].MessageNew? ==> !Listed(end, es[i].row.id)
  }

  lemma MidNew(v: View, temps: seq<Row>, base: seq<Row>, used: set<Id>, es: seq<Event>, goal: seq<Row>, size: nat)
    requires Mid(v, temps, base, used, es, goal)
    requires es != [] && es[0].MessageNew? && es[0].row.id !in used && !Listed(goal, es[0].row.id)
    requires MessageDelete(es[0].row.id) in es[1..]
    ensures Mid(ReplayDelta(v, es[0], true, size), [es[0].row] + temps, base, Used(used, es[0]), es[1..], goal)
  {
    var row := es[0].row;
    var all := temps + base;
    SameIdsSameIndex(base, goal, row.id);
    forall i | 0 <= i < |all| ensures all[i].id != row.id {
      assert all[i] == if i < |temps| then temps[i] else base[i - |temps|];
    }
    NotInPrefix(v.messages, all, row.id);
    assert [row] + temps + base == [row] + all;
    PagePrefix(row, v.messages, all, size);
    forall i | 0 <= i < |temps| ensures MessageDelete(temps[i].id) in es[1..] {
      assert MessageDelete(temps[i].id) in es;
    }
    MidBase(base, es, goal);
  }

  lemma MidDelete(v: View, temps: seq<Row>, base: seq<Row>, used: set<Id>, es: seq<Event>, goal: seq<Row>, size: nat)
    requires Mid(v, temps, base, used, es, goal)
    requires es != [] && es[0].MessageDelete? && !Listed(goal, es[0].id)
    requires Listed(v.messages, es[0].id)
    ensures Mid(ReplayDelta(v, es[0], true, size), Without(temps, es[0].id), base, used, es[1..], goal)
  {
    hide IndexOf, PatchAll;
    var id := es[0].id;
    var all := temps + base;
    PrefixLists(v.messages, all, id);
    SameIdsSameIndex(base, goal, id);
    IndexOfConcat(temps, base, id);
    WithoutPrefix(v.messages, all, id);
    WithoutConcat(temps, base, id);
    WithoutKeepsDistinct(all, id);
    WithoutAllIn(temps, used, id);
    TempsLeft(temps, base, es, id);
    MidBase(base, es, goal);
  }

  lemma WithoutAllIn(rows: seq<Row>, used: set<Id>, id: Id)
    requires AllIn(rows, used)
    ensures AllIn(Without(rows, id), used)
  {
  }

  lemma TempsLeft(temps: seq<Row>, base: seq<Row>, es: seq<Event>, id: Id)
    requires Distinct(temps + base) && es != [] && es[0] == MessageDelete(id)
    requires forall i :: 0 <= i < |temps| ==> MessageDelete(temps[i].id) in es
    ensures forall i :: 0 <= i < |Without(temps, id)| ==> MessageDelete(Without(temps, id)[i].id) in es[1..]
  {
    DistinctTail(temps, base);
    WithoutKeepsDistinct(temps, id);
    var left := Without(temps, id);
    forall i | 0 <= i < |left| ensures MessageDelete(left[i].id) in es[1..] {
      assert left[i] in temps;
      assert left[i].id != id by {
        ListedIff(left, id);
      }
      assert MessageDelete(left[i].id) in es;
    }
  }

  lemma MidBase(base: seq<Row>, es: seq<Event>, goal: seq<Row>)
    requires es != [] && !es[0].Update?() && |base| == |goal|
    requires forall i :: 0 <= i < |base| ==> base[i].id == goal[i].id && PatchAll(base[i], es) == goal[i]
    ensures forall i :: 0 <= i < |base| ==> base[i].id == goal[i].id && PatchAll(base[i], es[1..]) == goal[i]
  {
  }

  lemma MidUpdate(v: View, temps: seq<Row>, base: seq<Row>, used: set<Id>, es: seq<Event>, goal: seq<Row>, size: nat)
    requires Mid(v, temps, base, used, es, goal)
    requires es != [] && es[0].Update?()
    ensures Mid(ReplayDelta(v, es[0], true, size), Updated(temps, es[0]), Updated(base, es[0]), used, es[1..], goal)
  {
    var e := es[0];
    UpdatedPrefix(v.messages, temps + base, e);
    UpdatedConcat(temps, base, e);
    UpdatedKeepsIds(temps + base, e);
    UpdatedKeepsIds(temps, e);
    UpdatedKeepsIds(base, e);
    forall i | 0 <= i < |base| ensures PatchAll(Updated(base, e)[i], es[1..]) == goal[i] {
      if base[i].id == e.id {
        assert (temps + base)[|temps| + i] == base[i];
        DistinctTail(temps, base);
        IndexOfAt(base, i);
      }
      assert Updated(base, e)[i] == Patch(base[i], e);
    }
    forall i | 0 <= i < |temps| ensures MessageDelete(temps[i].id) in es[1..] {
      assert MessageDelete(temps[i].id) in es;
    }
  }

  lemma DistinctTail(a: seq<Row>, b: seq<Row>)
    requires Distinct(a + b)
    ensures Distinct(a) && Distinct(b)
  {
    assert forall i :: 0 <= i < |a| ==> a[i] == (a + b)[i];
    assert forall i :: 0 <= i < |b| ==> b[i] == (a + b)[|a| + i];
  }

  lemma MidSkip(v: View, temps: seq<Row>, base: seq<Row>, used: set<Id>, es: seq<Event>, goal: seq<Row>)
    requires Mid(v, temps, base, used, es, goal)
    requires es != [] && es[0].MessageNew?
    ensures Mid(v, temps, base, Used(used, es[0]), es[1..], goal)
  {
    forall i | 0 <= i < |temps| ensures MessageDelete(temps[i].id) in es[1..] {
      assert MessageDelete(temps[i].id) in es;
    }
    MidBase(base, es, goal);
  }

  /** One event the snapshot already holds. */
  lemma MidStep(v: View, temps: seq<Row>, base: seq<Row>, rows: seq<Row>, used: set<Id>, es: seq<Event>,
                end: seq<Row>, goal: seq<Row>, through: int, size: nat)
    returns (temps2: seq<Row>, base2: seq<Row>)
    requires Mid(v, temps, base, used, es, goal)
    requires Stored(rows, used) && es != [] && Log(rows, used, es) && end == Run(rows, es) && MessagesClear !in es
    requires forall id :: Listed(goal, id) ==> Listed(end, id)
    requires Covered(through, es, end)
    ensures var v2 := ReplayNext(v, es[0], through, true, size);
            v2.stale || Mid(v2, temps2, base2, Used(used, es[0]), es[1..], goal)
  {
    hide Mid, Run, Log, Covered, Distinct, AllIn, Stored, IndexOf;
    var e := es[0];
    temps2, base2 := temps, base;
    var next := Commit(rows, e);
    StepFacts(rows, used, es);
    if e.MessageNew? && 0 <= through {
      MidSkip(v, temps, base, used, es, goal);
    } else if e.MessageNew? {
      CoveredFirst(through, es, end);
      assert !Listed(goal, e.row.id);
      CommitLists(rows, used, e, e.row.id);
      GoneByDelete(next, Used(used, e), es[1..], e.row.id);
      MidNew(v, temps, base, used, es, goal, size);
      temps2 := [e.row] + temps;
    } else if e.MessageDelete? && Listed(v.messages, e.id) {
      CommitLists(rows, used, e, e.id);
      ListedUsed(rows, used, e.id);
      NeverBack(next, Used(used, e), es[1..], e.id);
      MidDelete(v, temps, base, used, es, goal, size);
      temps2 := Without(temps, e.id);
    } else if e.Update?() {
      MidUpdate(v, temps, base, used, es, goal, size);
      temps2, base2 := Updated(temps, e), Updated(base, e);
    }
  }

  lemma CoveredFirst(through: int, es: seq<Event>, end: seq<Row>)
    requires Covered(through, es, end) && es != [] && es[0].MessageNew? && through < 0
    ensures !Listed(end, es[0].row.id)
  {
  }

  lemma ListedUsed(rows: seq<Row>, used: set<Id>, id: Id)
    requires Stored(rows, used) && Listed(rows, id)
    ensures id in used
  {
    assert rows[IndexOf(rows, id)].id in used;
  }

  lemma StepFacts(rows: seq<Row>, used: set<Id>, es: seq<Event>)
    requires Stored(rows, used) && es != [] && Log(rows, used, es)
    ensures CanCommit(rows, used, es[0])
    ensures var next := Commit(rows, es[0]);
            && Stored(next, Used(used, es[0])) && Log(next, Used(used, es[0]), es[1..])
            && Run(rows, es) == Run(next, es[1..])
  {
    CommitKeeps(rows, used, es[0]);
  }

  lemma {:induction false} StaysStale(v: View, es: seq<Event>, through: int, exact: bool, size: nat)
    requires v.stale
    ensures ReplayFrom(v, es, through, exact, size).stale
    decreases |es|
  {
    if es != [] {
      StaysStale(ReplayNext(v, es[0], through, exact, size), es[1..], through - 1, exact, size);
    }
  }

  lemma {:induction false} ReplaySplit(v: View, before: seq<Event>, after: seq<Event>, through: int, exact: bool,
                                       size: nat)
    ensures ReplayFrom(v, before + after, through, exact, size) ==
            ReplayFrom(ReplayFrom(v, before, through, exact, size), after, through - |before|, exact, size)
    decreases |before|
  {
    if before == [] {
      assert before + after == after;
    } else {
      assert (before + after)[1..] == before[1..] + after;
      ReplaySplit(ReplayNext(v, before[0], through, exact, size), before[1..], after, through - 1, exact, size);
    }
  }

  /** Replaying everything the snapshot already holds leaves the rows of `goal`, or a resync owed. */
  lemma {:induction false} ReplayToSnapshot(v: View, temps: seq<Row>, base: seq<Row>, rows: seq<Row>, used: set<Id>,
                                            es: seq<Event>, end: seq<Row>, goal: seq<Row>, through: int, size: nat)
    requires v.stale || Mid(v, temps, base, used, es, goal)
    requires Stored(rows, used) && Log(rows, used, es) && end == Run(rows, es) && MessagesClear !in es
    requires forall id :: Listed(goal, id) ==> Listed(end, id)
    requires Covered(through, es, end)
    ensures var out := ReplayFrom(v, es, through, true, size); out.stale || Exact(out, goal)
    decreases |es|
  {
    if v.stale {
      StaysStale(v, es, through, true, size);
    } else if es == [] {
      MidDone(v, temps, base, used, goal);
    } else {
      var temps2, base2 := MidStep(v, temps, base, rows, used, es, end, goal, through, size);
      StepFacts(rows, used, es);
      CoveredLater(through, es, end);
      ReplayToSnapshot(ReplayNext(v, es[0], through, true, size), temps2, base2, Commit(rows, es[0]),
                       Used(used, es[0]), es[1..], end, goal, through - 1, size);
    }
  }

  lemma MidDone(v: View, temps: seq<Row>, base: seq<Row>, used: set<Id>, goal: seq<Row>)
    requires Mid(v, temps, base, used, [], goal)
    ensures Exact(v, goal)
  {
    NoTempLeft(v, temps, base, used, goal);
    assert forall i :: 0 <= i < |base| ==> base[i] == PatchAll(base[i], []) == goal[i];
    assert temps + base == base == goal;
  }

  lemma TempPending(v: View, temps: seq<Row>, base: seq<Row>, used: set<Id>, es: seq<Event>, goal: seq<Row>, i: nat)
    requires Mid(v, temps, base, used, es, goal) && i < |temps|
    ensures MessageDelete(temps[i].id) in es
  {
  }

  lemma NoTempLeft(v: View, temps: seq<Row>, base: seq<Row>, used: set<Id>, goal: seq<Row>)
    requires Mid(v, temps, base, used, [], goal)
    ensures temps == []
  {
    hide Mid;
    if temps != [] {
      TempPending(v, temps, base, used, [], goal, 0);
    }
  }

  lemma CoveredLater(through: int, es: seq<Event>, end: seq<Row>)
    requires Covered(through, es, end) && es != []
    ensures Covered(through - 1, es[1..], end)
  {
    assert forall i :: 0 <= i < |es| - 1 ==> es[1..][i] == es[i + 1];
  }

  // ---------- Past the snapshot ----------

  /** One event committed after the snapshot. */
  lemma ExactStep(v: View, rows: seq<Row>, used: set<Id>, event: Event, size: nat)
    requires Exact(v, rows) && Stored(rows, used) && CanCommit(rows, used, event)
    ensures var v2 := ReplayDelta(v, event, true, size); v2.stale || Exact(v2, Commit(rows, event))
  {
    match event
    case MessageNew(row) =>
      forall i | 0 <= i < |v.messages| ensures v.messages[i].id != row.id {
        assert v.messages[i] == rows[i];
      }
      PagePrefix(row, v.messages, rows, size);
    case MessageDelete(id) =>
      if Listed(v.messages, id) {
        WithoutPrefix(v.messages, rows, id);
      }
    case MessagesClear =>
    case _ =>
      UpdatedPrefix(v.messages, rows, event);
      UpdatedKeepsIds(rows, event);
  }

  lemma {:induction false} ReplayPast(v: View, rows: seq<Row>, used: set<Id>, es: seq<Event>, through: int, size: nat)
    requires v.stale || Exact(v, rows)
    requires Stored(rows, used) && Log(rows, used, es) && through < 0
    ensures var out := ReplayFrom(v, es, through, true, size); out.stale || Exact(out, Run(rows, es))
    decreases |es|
  {
    if v.stale {
      StaysStale(v, es, through, true, size);
    } else if es != [] {
      StepFacts(rows, used, es);
      ExactStep(v, rows, used, es[0], size);
      ReplayPast(ReplayDelta(v, es[0], true, size), Commit(rows, es[0]), Used(used, es[0]), es[1..], through - 1, size);
    }
  }

  /** The client misses the rows of `lost`, and its count with them. */
  predicate Missing(v: View, live: seq<Row>, lost: seq<Row>) {
    lost != [] && v.messages <= live && v.total == |live|
  }

  lemma MissingStep(v: View, live: seq<Row>, lost: seq<Row>, used: set<Id>, event: Event, size: nat)
    returns (live2: seq<Row>, lost2: seq<Row>)
    requires Missing(v, live, lost) && Stored(live + lost, used) && CanCommit(live + lost, used, event)
    requires event != MessagesClear
    ensures var v2 := ReplayDelta(v, event, true, size);
            v2.stale || (Missing(v2, live2, lost2) && Commit(live + lost, event) == live2 + lost2)
  {
    live2, lost2 := live, lost;
    if event.MessageNew? {
      forall i | 0 <= i < |v.messages| ensures v.messages[i].id != event.row.id {
        assert v.messages[i] == (live + lost)[i];
      }
      PagePrefix(event.row, v.messages, live, size);
      live2 := [event.row] + live;
      assert [event.row] + (live + lost) == live2 + lost;
    } else if event.MessageDelete? && Listed(v.messages, event.id) {
      WithoutPrefix(v.messages, live, event.id);
      PrefixLists(v.messages, live, event.id);
      WithoutConcat(live, lost, event.id);
      live2 := Without(live, event.id);
    } else if event.Update?() {
      UpdatedPrefix(v.messages, live, event);
      UpdatedConcat(live, lost, event);
      UpdatedKeepsIds(live, event);
      UpdatedKeepsIds(lost, event);
      live2, lost2 := Updated(live, event), Updated(lost, event);
    }
  }

  /** Rows that went missing stay missing: the count ends short, or a resync is owed. */
  lemma {:induction false} ReplayMissing(v: View, live: seq<Row>, lost: seq<Row>, used: set<Id>,
                                         es: seq<Event>, through: int, size: nat)
    requires v.stale || Missing(v, live, lost)
    requires Stored(live + lost, used) && Log(live + lost, used, es) && MessagesClear !in es && through < 0
    ensures var out := ReplayFrom(v, es, through, true, size); out.stale || !Exact(out, Run(live + lost, es))
    decreases |es|
  {
    if v.stale {
      StaysStale(v, es, through, true, size);
    } else if es != [] {
      StepFacts(live + lost, used, es);
      var live2, lost2 := MissingStep(v, live, lost, used, es[0], size);
      var v2 := ReplayDelta(v, es[0], true, size);
      if v2.stale {
        StaysStale(v2, es[1..], through - 1, true, size);
      } else {
        ReplayMissing(v2, live2, lost2, Used(used, es[0]), es[1..], through - 1, size);
      }
    }
  }

  // ---------- The snapshot point ----------

  lemma {:induction false} MintedLater(rows: seq<Row>, used: set<Id>, es: seq<Event>, i: nat)
    requires Log(rows, used, es) && i < |es| && es[i].MessageNew?
    ensures es[i].row.id !in used
    decreases |es|
  {
    if i > 0 {
      MintedLater(Commit(rows, es[0]), Used(used, es[0]), es[1..], i - 1);
    }
  }

  lemma LaterNotListed(rows: seq<Row>, used: set<Id>, es: seq<Event>, i: nat)
    requires Stored(rows, used) && Log(rows, used, es) && i < |es| && es[i].MessageNew?
    ensures !Listed(rows, es[i].row.id)
  {
    MintedLater(rows, used, es, i);
  }

  lemma NotInPrefix(head: seq<Row>, rows: seq<Row>, id: Id)
    requires head <= rows && !Listed(rows, id)
    ensures !Listed(head, id)
  {
    IndexOfPrefix(head, rows, id);
  }

  /** The last listed arrival is one the snapshot holds. */
  lemma ThroughHeld(rows: seq<Row>, used: set<Id>, before: seq<Event>, after: seq<Event>, page: seq<Row>)
    requires Stored(rows, used) && Log(rows, used, before + after)
    requires forall id :: Listed(page, id) ==> Listed(Run(rows, before), id)
    ensures ListedThrough(page, before + after) < |before|
  {
    hide Run, Log, Stored, IndexOf;
    var end := Run(rows, before);
    var through := ListedThrough(page, before + after);
    RunSplit(rows, used, before, after);
    RunKeeps(rows, used, before);
    if |before| <= through {
      var i := through - |before|;
      assert (before + after)[through] == after[i];
      LaterNotListed(end, UsedAfter(used, before), after, i);
    }
  }

  lemma ThroughBefore(rows: seq<Row>, used: set<Id>, before: seq<Event>, after: seq<Event>, size: nat)
    requires Stored(rows, used) && Log(rows, used, before + after)
    ensures ListedThrough(Page(Run(rows, before), size), before + after) < |before|
  {
    hide Run, Log, Stored, IndexOf;
    var end := Run(rows, before);
    forall id | Listed(Page(end, size), id) ensures Listed(end, id) {
      PrefixLists(Page(end, size), end, id);
    }
    ThroughHeld(rows, used, before, after, Page(end, size));
  }

  lemma ThroughCovers(messages: seq<Row>, deltas: seq<Event>, i: nat)
    requires i < |deltas| && deltas[i].MessageNew? && Listed(messages, deltas[i].row.id)
    ensures i <= ListedThrough(messages, deltas)
  {
  }

  /**
   * Arrivals are announced in commit order, so every arrival the snapshot
   * holds, on its page or past it, comes no later than the last listed one.
   */
  lemma ArrivalInSnapshot(rows: seq<Row>, used: set<Id>, before: seq<Event>, after: seq<Event>, size: nat, i: nat)
    requires Stored(rows, used) && Log(rows, used, before) && 1 <= size
    requires i < |before| && before[i].MessageNew? && Listed(Run(rows, before), before[i].row.id)
    ensures i <= ListedThrough(Page(Run(rows, before), size), before + after)
  {
    hide Log, Stored, IndexOf;
    var end, id := Run(rows, before), before[i].row.id;
    var page := Page(end, size);
    var at: nat := i;
    if end[0].id != id {
      at := TopMintedAfter(rows, used, before, i);
    }
    assert (before + after)[at] == before[at];
    assert page[0].id == before[at].row.id;
    ListedIff(page, before[at].row.id);
    ThroughCovers(page, before + after, at);
  }

  lemma RunOne(rows: seq<Row>, used: set<Id>, event: Event)
    ensures Run(rows, [event]) == Commit(rows, event)
    ensures event.MessageNew? ==> event.row.id in UsedAfter(used, [event])
  {
    assert [event][1..] == [];
  }

  /** What tops the list above a listed arrival arrived after it. */
  lemma TopMintedAfter(rows: seq<Row>, used: set<Id>, events: seq<Event>, i: nat) returns (at: nat)
    requires Stored(rows, used) && Log(rows, used, events)
    requires i < |events| && events[i].MessageNew?
    requires Listed(Run(rows, events), events[i].row.id) && Run(rows, events)[0].id != events[i].row.id
    ensures i < at < |events| && events[at].MessageNew? && events[at].row.id == Run(rows, events)[0].id
  {
    hide Run, Log, UsedAfter, Stored;
    var head, tail := events[..i + 1], events[i + 1..];
    assert events == head + tail;
    var row := events[i].row;
    RunSplit(rows, used, head, tail);
    RunKeeps(rows, used, head);
    assert head == head[..i] + [events[i]];
    RunSplit(rows, used, head[..i], [events[i]]);
    RunOne(Run(rows, head[..i]), UsedAfter(used, head[..i]), events[i]);
    var mid, midUsed := Run(rows, head), UsedAfter(used, head);
    assert mid[0] == row;
    assert IndexOf(mid, row.id) == 0;
    RunAhead(mid, midUsed, tail, row.id, {});
    var end := Run(rows, events);
    assert 0 < IndexOf(end, row.id);
    var later := MintedBy({}, tail, end[0].id);
    at := i + 1 + later;
  }

  // ---------- Clearing the mailbox ----------

  /** Index of the last clear in `deltas`, or -1. */
  function LastClear(deltas: seq<Event>): (last: int)
    ensures -1 <= last < |deltas|
    ensures 0 <= last ==> deltas[last] == MessagesClear
    ensures forall i :: last < i < |deltas| ==> deltas[i] != MessagesClear
  {
    if deltas == [] then -1
    else
      var later := LastClear(deltas[1..]);
      if 0 <= later then later + 1
      else if deltas[0] == MessagesClear then 0
      else -1
  }

  lemma {:induction false} LastClearConcat(before: seq<Event>, after: seq<Event>)
    ensures LastClear(before + after) ==
            if 0 <= LastClear(after) then |before| + LastClear(after) else LastClear(before)
  {
    if before == [] {
      assert before + after == after;
    } else {
      assert (before + after)[1..] == before[1..] + after;
      LastClearConcat(before[1..], after);
    }
  }

  lemma NoClear(deltas: seq<Event>)
    ensures MessagesClear in deltas <==> 0 <= LastClear(deltas)
    ensures MessagesClear !in deltas[LastClear(deltas) + 1..]
  {
  }

  /** Whatever was replayed before, a clear leaves nothing. */
  lemma ClearEmpties(v: View, es: seq<Event>, through: int, exact: bool, size: nat)
    requires es != [] && es[|es| - 1] == MessagesClear
    ensures ReplayFrom(v, es, through, exact, size) == View([], 0, ReplayFrom(v, es, through, exact, size).stale)
  {
    var head := es[..|es| - 1];
    assert es == head + [MessagesClear];
    ReplaySplit(v, head, [MessagesClear], through, exact, size);
    var w := ReplayFrom(v, head, through, exact, size);
    var t := through - |head|;
    assert ReplayFrom(w, [MessagesClear], t, exact, size) ==
           ReplayFrom(ReplayNext(w, MessagesClear, t, exact, size), [], t - 1, exact, size);
  }

  lemma ClearRuns(rows: seq<Row>, used: set<Id>, es: seq<Event>)
    requires Stored(rows, used) && Log(rows, used, es) && es != [] && es[|es| - 1] == MessagesClear
    ensures Run(rows, es) == []
  {
    hide Run, Log, UsedAfter, Stored;
    var head := es[..|es| - 1];
    assert es == head + [MessagesClear];
    RunSplit(rows, used, head, [MessagesClear]);
    RunOne(Run(rows, head), used, MessagesClear);
  }

  lemma {:induction false} LogOfFewer(rows: seq<Row>, used: set<Id>, fewer: set<Id>, es: seq<Event>)
    requires Log(rows, used, es) && fewer <= used
    ensures Log(rows, fewer, es)
    decreases |es|
  {
    if es != [] {
      LogOfFewer(Commit(rows, es[0]), Used(used, es[0]), Used(fewer, es[0]), es[1..]);
    }
  }

  // ---------- The theorem ----------

  lemma CoveredAll(rows: seq<Row>, used: set<Id>, before: seq<Event>, after: seq<Event>, size: nat)
    requires Stored(rows, used) && Log(rows, used, before) && 1 <= size
    ensures Covered(ListedThrough(Page(Run(rows, before), size), before + after), before, Run(rows, before))
  {
    var end := Run(rows, before);
    var through := ListedThrough(Page(end, size), before + after);
    forall i | 0 <= i < |before| && through < i && before[i].MessageNew? ensures !Listed(end, before[i].row.id) {
      if Listed(end, before[i].row.id) {
        ArrivalInSnapshot(rows, used, before, after, size, i);
      }
    }
  }

  lemma CoveredTail(through: int, a: seq<Event>, b: seq<Event>, end: seq<Row>)
    requires Covered(through, a + b, end)
    ensures Covered(through - |a|, b, end)
  {
    assert forall i :: 0 <= i < |b| ==> b[i] == (a + b)[|a| + i];
  }

  /** Without a clear before the snapshot, replay converges. */
  lemma ConvergesUncleared(rows: seq<Row>, used: set<Id>, before: seq<Event>, after: seq<Event>, size: nat)
    requires Stored(rows, used) && Log(rows, used, before + after) && 1 <= size && MessagesClear !in before
    ensures var end := Run(rows, before);
            var out := Replay(View(Page(end, size), |end|, false), before + after, true, size);
            out.stale || Exact(out, Run(rows, before + after))
  {
    hide Run, Log, Covered, Exact, ReplayFrom, ListedThrough, Settled;
    var end := Run(rows, before);
    var v := View(Page(end, size), |end|, false);
    var through := ListedThrough(v.messages, before + after);
    RunSplit(rows, used, before, after);
    RunKeeps(rows, used, before);
    ThroughBefore(rows, used, before, after, size);
    CoveredAll(rows, used, before, after, size);
    SnapshotIsMid(rows, used, before, size);
    ReplayToSnapshot(v, [], end, rows, used, before, end, end, through, size);
    ReplaySplit(v, before, after, through, true, size);
    var w := ReplayFrom(v, before, through, true, size);
    ReplayPast(w, end, UsedAfter(used, before), after, through - |before|, size);
  }

  lemma SnapshotIsMid(rows: seq<Row>, used: set<Id>, before: seq<Event>, size: nat)
    requires Stored(rows, used) && Log(rows, used, before)
    ensures var end := Run(rows, before);
            Mid(View(Page(end, size), |end|, false), [], end, used, before, end)
  {
    var end := Run(rows, before);
    RunKeeps(rows, used, before);
    RunSettles(rows, used, [], before);
    assert [] + before == before;
    assert [] + end == end;
  }

  /** Once the last clear the snapshot already holds has been replayed, nothing else of the snapshot is kept. */
  lemma AfterHeldClear(rows: seq<Row>, used: set<Id>, before: seq<Event>, after: seq<Event>, size: nat)
    requires Stored(rows, used) && Log(rows, used, before) && 1 <= size && MessagesClear in before
    ensures var end := Run(rows, before);
            var v := View(Page(end, size), |end|, false);
            var through := ListedThrough(v.messages, before + after);
            var w := ReplayFrom(v, before, through, true, size);
            w.stale || Exact(w, [])
  {
    hide Run, Log, Covered, ReplayFrom, ListedThrough, Stored, LastClear, IndexOf;
    var end := Run(rows, before);
    var v := View(Page(end, size), |end|, false);
    var through := ListedThrough(v.messages, before + after);
    var head, tail := HeldClear(rows, used, before);
    ClearEmpties(v, head, through, true, size);
    ReplaySplit(v, head, tail, through, true, size);
    CoveredAll(rows, used, before, after, size);
    CoveredTail(through, head, tail, end);
    var w := ReplayFrom(v, head, through, true, size);
    NothingIsMid(w, UsedAfter(used, head), tail);
    NothingIsStored(UsedAfter(used, head));
    ReplayToSnapshot(w, [], [], [], UsedAfter(used, head), tail, end, [], through - |head|, size);
  }

  /** The window up to the snapshot, cut after its last clear. */
  lemma HeldClear(rows: seq<Row>, used: set<Id>, before: seq<Event>)
    returns (head: seq<Event>, tail: seq<Event>)
    requires Stored(rows, used) && Log(rows, used, before) && MessagesClear in before
    ensures before == head + tail && |head| == LastClear(before) + 1
    ensures head != [] && head[|head| - 1] == MessagesClear && MessagesClear !in tail
    ensures Log([], UsedAfter(used, head), tail) && Run([], tail) == Run(rows, before)
  {
    hide Run, Log, Stored, LastClear;
    NoClear(before);
    var c := LastClear(before);
    head, tail := before[..c + 1], before[c + 1..];
    assert before == head + tail;
    RunSplit(rows, used, head, tail);
    ClearRuns(rows, used, head);
  }

  /** What the snapshot lists arrived after the last clear it holds. */
  lemma ListedSinceClear(rows: seq<Row>, used: set<Id>, before: seq<Event>, after: seq<Event>, size: nat)
    requires Stored(rows, used) && Log(rows, used, before) && 1 <= size && MessagesClear in before
    requires Run(rows, before) != []
    ensures LastClear(before) < ListedThrough(Page(Run(rows, before), size), before + after)
  {
    hide Run, Log, ListedThrough, Stored, LastClear, IndexOf;
    var head, tail := HeldClear(rows, used, before);
    var at := MintedSince(tail, UsedAfter(used, head));
    assert before[|head| + at] == tail[at];
    IndexOfTop(Run(rows, before));
    ArrivalInSnapshot(rows, used, before, after, size, |head| + at);
  }

  lemma NothingIsStored(used: set<Id>)
    ensures Stored([], used)
    ensures forall id :: !Listed([], id)
  {
  }

  lemma NothingIsMid(v: View, used: set<Id>, es: seq<Event>)
    requires v.messages == [] && v.total == 0
    ensures Mid(v, [], [], used, es, [])
  {
  }

  lemma IndexOfTop(rows: seq<Row>)
    requires rows != []
    ensures Listed(rows, rows[0].id)
  {
  }

  lemma MintedSince(es: seq<Event>, used: set<Id>) returns (at: nat)
    requires Log([], used, es) && Run([], es) != []
    ensures at < |es| && es[at].MessageNew? && es[at].row.id == Run([], es)[0].id
  {
    LogOfFewer([], used, {}, es);
    RunKeeps([], {}, es);
    at := MintedBy({}, es, Run([], es)[0].id);
  }

  /** A clear committed after the snapshot leaves nothing to disagree about. */
  lemma ConvergesAfterClear(rows: seq<Row>, used: set<Id>, before: seq<Event>, after: seq<Event>, size: nat)
    requires Stored(rows, used) && Log(rows, used, before + after) && MessagesClear in after
    ensures var end := Run(rows, before);
            var out := Replay(View(Page(end, size), |end|, false), before + after, true, size);
            out.stale || Exact(out, Run(rows, before + after))
  {
    hide Run, Log, ReplayFrom, ListedThrough, Stored;
    var end := Run(rows, before);
    var v := View(Page(end, size), |end|, false);
    var deltas := before + after;
    var through := ListedThrough(v.messages, deltas);
    var c := LastClear(after);
    NoClear(after);
    var head, tail := before + after[..c + 1], after[c + 1..];
    assert deltas == head + tail;
    RunSplit(rows, used, head, tail);
    RunKeeps(rows, used, head);
    ClearRuns(rows, used, head);
    ClearEmpties(v, head, through, true, size);
    ReplaySplit(v, head, tail, through, true, size);
    ThroughBefore(rows, used, before, after, size);
    var w := ReplayFrom(v, head, through, true, size);
    ReplayPast(w, [], UsedAfter(used, head), tail, through - |head|, size);
  }

  /**
   * Wherever in the recorded window the snapshot was taken, the view ends
   * owing a resync, or it shows the newest rows of the mailbox with their
   * current flags and counts all of them - unless the last recorded clear
   * comes before the last listed arrival, which is exactly when it does not.
   */
  lemma SnapshotPlusReplay(rows: seq<Row>, used: set<Id>, before: seq<Event>, after: seq<Event>, size: nat)
    requires Stored(rows, used) && Log(rows, used, before + after) && 1 <= size
    ensures var page, deltas := Page(Run(rows, before), size), before + after;
            var out := Replay(View(page, |Run(rows, before)|, false), deltas, true, size);
            out.stale ||
            (Exact(out, Run(rows, deltas)) <==> !(0 <= LastClear(deltas) < ListedThrough(page, deltas)))
  {
    hide *;
    LastClearConcat(before, after);
    ThroughBefore(rows, used, before, after, size);
    NoClear(before);
    NoClear(after);
    if MessagesClear in after {
      ConvergesAfterClear(rows, used, before, after, size);
    } else if MessagesClear !in before {
      ConvergesUncleared(rows, used, before, after, size);
    } else {
      ClearedBefore(rows, used, before, after, size);
    }
  }

  lemma ClearedBefore(rows: seq<Row>, used: set<Id>, before: seq<Event>, after: seq<Event>, size: nat)
    requires Stored(rows, used) && Log(rows, used, before + after) && 1 <= size
    requires MessagesClear in before && MessagesClear !in after
    ensures var end, deltas := Run(rows, before), before + after;
            var out := Replay(View(Page(end, size), |end|, false), deltas, true, size);
            var through := ListedThrough(Page(end, size), deltas);
            if end == [] then through == -1 && (out.stale || Exact(out, Run(rows, deltas)))
            else LastClear(before) < through && (out.stale || !Exact(out, Run(rows, deltas)))
  {
    hide Run, Log, Covered, ReplayFrom, Stored, LastClear;
    var end := Run(rows, before);
    var v := View(Page(end, size), |end|, false);
    var through := ListedThrough(v.messages, before + after);
    RunSplit(rows, used, before, after);
    RunKeeps(rows, used, before);
    AfterHeldClear(rows, used, before, after, size);
    if end != [] {
      ListedSinceClear(rows, used, before, after, size);
    }
    ReplaySplit(v, before, after, through, true, size);
    ThroughBefore(rows, used, before, after, size);
    var w := ReplayFrom(v, before, through, true, size);
    if end == [] {
      ReplayPast(w, end, UsedAfter(used, before), after, through - |before|, size);
    } else {
      assert [] + end == end;
      ReplayMissing(w, [], end, UsedAfter(used, before), after, through - |before|, size);
    }
  }

  predicate NoDeletes(es: seq<Event>) {
    forall i :: 0 <= i < |es| ==> !es[i].MessageDelete?
  }

  /** Only a delete of a message that is not listed ever owes a resync. */
  lemma {:induction false} OwesNothing(v: View, es: seq<Event>, through: int, size: nat)
    requires NoDeletes(es) && !v.stale
    ensures !ReplayFrom(v, es, through, true, size).stale
    decreases |es|
  {
    if es != [] {
      OwesNothing(ReplayNext(v, es[0], through, true, size), es[1..], through - 1, size);
    }
  }

  /**
   * A resync comes to be owed only by a delete of a message that is not listed,
   * or an arrival that cannot be placed.
   */
  lemma WhatOwes(v: View, event: Event, exact: bool, size: nat)
    ensures ReplayDelta(v, event, exact, size).stale <==>
            v.stale || (event.MessageDelete? && !Listed(v.messages, event.id)) ||
            (!exact && event.MessageNew? && !Listed(v.messages, event.row.id))
  {
  }

  /** Every window without deletes that fails to converge does so without owing a resync. */
  lemma FailsUnnoticed(rows: seq<Row>, used: set<Id>, before: seq<Event>, after: seq<Event>, size: nat)
    requires Stored(rows, used) && Log(rows, used, before + after) && 1 <= size && NoDeletes(before + after)
    ensures var page, deltas := Page(Run(rows, before), size), before + after;
            var out := Replay(View(page, |Run(rows, before)|, false), deltas, true, size);
            !out.stale &&
            (Exact(out, Run(rows, deltas)) <==> !(0 <= LastClear(deltas) < ListedThrough(page, deltas)))
  {
    var page, deltas := Page(Run(rows, before), size), before + after;
    var v := View(page, |Run(rows, before)|, false);
    SnapshotPlusReplay(rows, used, before, after, size);
    OwesNothing(v, deltas, ListedThrough(page, deltas), size);
    hide ReplayFrom, Run, Log, ListedThrough, LastClear, Exact;
  }

  /**
   * Replay does fail, and owes nothing: of a window that clears the inbox and
   * then receives one message, with the snapshot taken after both, the message
   * is lost.
   */
  lemma ClearLosesArrival(row: Row)
    ensures var before := [MessagesClear, MessageNew(row)];
            var page := Page(Run([], before), 1);
            var out := Replay(View(page, |Run([], before)|, false), before, true, 1);
            && Stored([], {}) && Log([], {}, before) && page == [row]
            && out == View([], 0, false) && !Exact(out, Run([], before))
  {
    var clear, arrival := MessagesClear, MessageNew(row);
    var before := [clear, arrival];
    assert before[1..] == [arrival] && [arrival][1..] == [];
    assert Run([], before) == Run([], [arrival]) == Run([row], []) == [row];
    assert Log([], {}, before) <==> Log([], {}, [arrival]);
    assert Log([row], {row.id}, []);
    var through := ListedThrough([row], before);
    assert Listed([row], row.id);
    var v := View([row], 1, false);
    assert ReplayFrom(v, before, through, true, 1) == ReplayFrom(View([], 0, false), [arrival], through - 1, true, 1);
    assert ReplayFrom(View([], 0, false), [arrival], through - 1, true, 1) ==
           ReplayFrom(View([], 0, false), [], through - 2, true, 1);
  }
}
