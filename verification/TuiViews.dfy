/**
 * What the list on screen shows when it cannot be decided locally what comes
 * into it: under a search, or on a later page.
 */
module TuiViews {
  import opened MessageList
  import opened TuiReplay
  import opened TuiReplayLaws

  /** A search; it reads nothing that flag and tag events change. */
  type Search = (Id, string) -> bool

  /** The rows a search matches, in order. */
  function Hits(rows: seq<Row>, search: Search): seq<Row> {
    if rows == [] then []
    else (if search(rows[0].id, rows[0].subject) then [rows[0]] else []) + Hits(rows[1..], search)
  }

  function Behind(rows: seq<Row>, offset: nat): seq<Row> {
    if |rows| <= offset then [] else rows[offset..]
  }

  /** The client shows the next matching rows from `offset` on, with their current flags, and counts all that match. */
  predicate Shows(v: View, rows: seq<Row>, search: Search, offset: nat) {
    v.messages <= Behind(Hits(rows, search), offset) && v.total == |Hits(rows, search)|
  }

  /** The client shows some stretch of the mailbox, with current flags, and counts all of it. */
  ghost predicate Counts(v: View, rows: seq<Row>) {
    v.total == |rows| && exists d: nat :: v.messages <= Behind(rows, d)
  }

  // ---------- What a search matches ----------

  /** A search that leaves nothing out. */
  ghost predicate Everything(search: Search) {
    forall id, subject :: search(id, subject)
  }

  lemma HitsNone(search: Search)
    ensures Hits([], search) == []
  {
  }

  lemma {:induction false} HitsAll(rows: seq<Row>, search: Search)
    requires Everything(search)
    ensures Hits(rows, search) == rows
  {
    if rows != [] {
      HitsAll(rows[1..], search);
    }
  }

  lemma {:induction false} HitsMembers(rows: seq<Row>, search: Search)
    ensures forall r :: r in Hits(rows, search) <==> r in rows && search(r.id, r.subject)
  {
    if rows != [] {
      HitsMembers(rows[1..], search);
      assert rows == [rows[0]] + rows[1..];
    }
  }

  lemma {:induction false} HitsDistinct(rows: seq<Row>, search: Search)
    requires Distinct(rows)
    ensures Distinct(Hits(rows, search))
  {
    if rows != [] {
      assert rows == [rows[0]] + rows[1..];
      DistinctTail([rows[0]], rows[1..]);
      HitsDistinct(rows[1..], search);
      HitsMembers(rows[1..], search);
      var hits := Hits(rows[1..], search);
      forall i | 0 <= i < |hits| ensures hits[i].id != rows[0].id {
        assert hits[i] in rows[1..];
      }
    }
  }

  lemma MemberListed(rows: seq<Row>, row: Row)
    requires row in rows
    ensures Listed(rows, row.id)
  {
    ListedIff(rows, row.id);
  }

  /** Rows from a list, or from a page of what matches in it, are listed in it. */
  lemma PartLists(part: seq<Row>, rows: seq<Row>, search: Search, offset: nat, id: Id)
    requires part <= Behind(Hits(rows, search), offset) && Listed(part, id)
    ensures Listed(rows, id)
  {
    HitsMembers(rows, search);
    var row := part[IndexOf(part, id)];
    assert row in Behind(Hits(rows, search), offset);
    assert row in Hits(rows, search);
    MemberListed(rows, row);
  }

  lemma WithoutCons(row: Row, rows: seq<Row>, id: Id)
    ensures Without([row] + rows, id) == if row.id == id then rows else [row] + Without(rows, id)
  {
    var all, at := [row] + rows, IndexOf(rows, id);
    assert all[1..] == rows;
    assert IndexOf(all, id) == if row.id == id then 0 else if at < 0 then -1 else at + 1;
    hide IndexOf;
    if row.id != id && 0 <= at {
      assert all[..at + 1] == [row] + rows[..at] && all[at + 2..] == rows[at + 1..];
    }
  }

  lemma UpdatedCons(row: Row, rows: seq<Row>, update: Event)
    requires update.Update?()
    ensures Updated([row] + rows, update) ==
            if row.id == update.id then [ApplyTo(row, update)] + rows else [row] + Updated(rows, update)
  {
    assert ([row] + rows)[1..] == rows;
  }

  /** The first row's id is that of no later row, and of no later match. */
  lemma FirstIsAlone(rows: seq<Row>, search: Search)
    requires rows != [] && Distinct(rows)
    ensures Distinct(rows[1..]) && !Listed(Hits(rows[1..], search), rows[0].id)
  {
    HitsMembers(rows[1..], search);
    var hits := Hits(rows[1..], search);
    forall i | 0 <= i < |hits| ensures hits[i].id != rows[0].id {
      assert hits[i] in rows[1..];
    }
  }

  lemma HitsCons(row: Row, rows: seq<Row>, search: Search)
    ensures Hits([row] + rows, search) ==
            if search(row.id, row.subject) then [row] + Hits(rows, search) else Hits(rows, search)
  {
    assert ([row] + rows)[1..] == rows;
  }

  lemma {:induction false} HitsWithout(rows: seq<Row>, id: Id, search: Search)
    requires Distinct(rows)
    ensures Hits(Without(rows, id), search) == Without(Hits(rows, search), id)
  {
    if rows != [] {
      var row, rest := rows[0], rows[1..];
      assert rows == [row] + rest;
      FirstIsAlone(rows, search);
      HitsWithout(rest, id, search);
      hide Hits, Without, Distinct;
      WithoutCons(row, rest, id);
      HitsCons(row, rest, search);
      HitsCons(row, Without(rest, id), search);
      WithoutCons(row, Hits(rest, search), id);
      NothingWithout(Hits(rest, search), row.id);
    }
  }

  lemma NothingWithout(rows: seq<Row>, id: Id)
    ensures !Listed(rows, id) ==> Without(rows, id) == rows
  {
  }

  lemma {:induction false} HitsUpdated(rows: seq<Row>, update: Event, search: Search)
    requires Distinct(rows) && update.Update?()
    ensures Hits(Updated(rows, update), search) == Updated(Hits(rows, search), update)
  {
    if rows != [] {
      var row, rest := rows[0], rows[1..];
      assert rows == [row] + rest;
      FirstIsAlone(rows, search);
      HitsUpdated(rest, update, search);
      hide Hits, Distinct;
      UpdatedCons(row, rest, update);
      HitsCons(row, rest, search);
      HitsCons(ApplyTo(row, update), rest, search);
      HitsCons(row, Updated(rest, update), search);
      UpdatedCons(row, Hits(rest, search), update);
    }
  }

  // ---------- A page behind others ----------

  lemma BehindSplit(rows: seq<Row>, offset: nat) returns (front: seq<Row>)
    ensures rows == front + Behind(rows, offset) && |front| == if |rows| <= offset then |rows| else offset
  {
    front := if |rows| <= offset then rows else rows[..offset];
  }

  lemma BehindOf(front: seq<Row>, rows: seq<Row>, offset: nat)
    requires |front| == offset || (|front| < offset && rows == [])
    ensures Behind(front + rows, offset) == rows
  {
  }

  lemma NotInFront(front: seq<Row>, behind: seq<Row>, id: Id)
    requires Distinct(front + behind) && Listed(behind, id)
    ensures !Listed(front, id)
  {
    if Listed(front, id) {
      NotInBoth(front, behind, id);
    }
  }

  lemma WithoutAt(rows: seq<Row>, id: Id, at: nat)
    requires IndexOf(rows, id) == at
    ensures at < |rows| && Without(rows, id) == rows[..at] + rows[at + 1..]
  {
  }

  lemma WithoutBehind(front: seq<Row>, behind: seq<Row>, id: Id)
    requires Distinct(front + behind) && Listed(behind, id)
    ensures Without(front + behind, id) == front + Without(behind, id)
  {
    hide Distinct, IndexOf, Without;
    NotInFront(front, behind, id);
    IndexOfConcat(front, behind, id);
    var at := IndexOf(behind, id);
    WithoutAt(behind, id, at);
    WithoutAt(front + behind, id, |front| + at);
    assert (front + behind)[..|front| + at] == front + behind[..at];
    assert (front + behind)[|front| + at + 1..] == behind[at + 1..];
  }

  lemma BehindWithout(rows: seq<Row>, offset: nat, id: Id)
    requires Distinct(rows) && Listed(Behind(rows, offset), id)
    ensures Behind(Without(rows, id), offset) == Without(Behind(rows, offset), id)
    ensures Listed(rows, id) && |Without(rows, id)| == |rows| - 1
  {
    hide IndexOf, Distinct;
    var front := BehindSplit(rows, offset);
    var behind := Behind(rows, offset);
    IndexOfConcat(front, behind, id);
    WithoutBehind(front, behind, id);
    WithoutKeepsDistinct(rows, id);
    hide Without, Behind;
    BehindOf(front, Without(behind, id), offset);
  }

  lemma BehindUpdated(rows: seq<Row>, offset: nat, update: Event)
    requires Distinct(rows) && update.Update?()
    ensures Behind(Updated(rows, update), offset) == Updated(Behind(rows, offset), update)
    ensures |Updated(rows, update)| == |rows|
  {
    var front := BehindSplit(rows, offset);
    var behind := Behind(rows, offset);
    UpdatedConcat(front, behind, update);
    BehindOf(Updated(front, update), Updated(behind, update), offset);
  }

  // ---------- Live events ----------

  /** One more event, where an arrival cannot be placed: the view still shows what it should, or a resync is owed. */
  lemma ShowsStep(v: View, rows: seq<Row>, used: set<Id>, event: Event, size: nat, search: Search, offset: nat)
    requires Shows(v, rows, search, offset) && Stored(rows, used) && CanCommit(rows, used, event)
    ensures var v2 := ReplayDelta(v, event, false, size); v2.stale || Shows(v2, Commit(rows, event), search, offset)
  {
    hide IndexOf;
    var hits := Hits(rows, search);
    HitsDistinct(rows, search);
    match event
    case MessageNew(row) =>
      if Listed(v.messages, row.id) {
        PartLists(v.messages, rows, search, offset, row.id);
        ListedUsed(rows, used, row.id);
      }
    case MessageDelete(id) =>
      if Listed(v.messages, id) {
        PrefixLists(v.messages, Behind(hits, offset), id);
        BehindWithout(hits, offset, id);
        HitsWithout(rows, id, search);
        WithoutPrefix(v.messages, Behind(hits, offset), id);
      }
    case MessagesClear =>
    case _ =>
      HitsUpdated(rows, event, search);
      BehindUpdated(hits, offset, event);
      UpdatedPrefix(v.messages, Behind(hits, offset), event);
  }

  // ---------- Up to the snapshot ----------

  /** The view on its way through what the snapshot already holds: its updates ahead in `es` turn it into `page`. */
  ghost predicate Turning(v: View, es: seq<Event>, page: seq<Row>) {
    && |v.messages| == |page|
    && forall i :: 0 <= i < |page| ==> v.messages[i].id == page[i].id && PatchAll(v.messages[i], es) == page[i]
  }

  lemma TurningStep(v: View, rows: seq<Row>, used: set<Id>, es: seq<Event>, page: seq<Row>, through: int, size: nat)
    requires Turning(v, es, page) && Distinct(page) && Stored(rows, used) && es != [] && Log(rows, used, es)
    requires es[0] != MessagesClear && forall id :: Listed(page, id) ==> Listed(Run(rows, es), id)
    ensures var v2 := ReplayNext(v, es[0], through, false, size);
            v2.stale || (Turning(v2, es[1..], page) && v2.total == v.total)
  {
    hide IndexOf;
    var e := es[0];
    StepFacts(rows, used, es);
    if e.MessageDelete? {
      CommitLists(rows, used, e, e.id);
      ListedUsed(rows, used, e.id);
      NeverBack(Commit(rows, e), Used(used, e), es[1..], e.id);
      SameIdsSameIndex(v.messages, page, e.id);
    } else if e.Update?() {
      UpdatedKeepsIds(v.messages, e);
      forall i | 0 <= i < |page| ensures PatchAll(Updated(v.messages, e)[i], es[1..]) == page[i] {
        SameIdsSameIndex(v.messages, page, e.id);
        if page[i].id == e.id {
          IndexOfAt(page, i);
        }
        assert Updated(v.messages, e)[i] == Patch(v.messages[i], e);
      }
    }
  }

  /** Replaying what the snapshot already holds leaves its page and its count, or a resync owed. */
  lemma {:induction false} TurnsToPage(v: View, rows: seq<Row>, used: set<Id>, es: seq<Event>, page: seq<Row>,
                                       through: int, size: nat)
    requires v.stale || Turning(v, es, page)
    requires Distinct(page) && Stored(rows, used) && Log(rows, used, es) && MessagesClear !in es
    requires forall id :: Listed(page, id) ==> Listed(Run(rows, es), id)
    ensures var out := ReplayFrom(v, es, through, false, size);
            out.stale || (out.messages == page && out.total == v.total)
    decreases |es|
  {
    if v.stale {
      StaysStale(v, es, through, false, size);
    } else if es == [] {
      assert forall i :: 0 <= i < |page| ==> v.messages[i] == PatchAll(v.messages[i], []);
    } else {
      TurningStep(v, rows, used, es, page, through, size);
      StepFacts(rows, used, es);
      var v2 := ReplayNext(v, es[0], through, false, size);
      TurnsToPage(v2, Commit(rows, es[0]), Used(used, es[0]), es[1..], page, through - 1, size);
      if v2.stale {
        StaysStale(v2, es[1..], through - 1, false, size);
      }
    }
  }

  /** An emptied view stays empty, or owes a resync. */
  lemma {:induction false} StaysEmpty(v: View, es: seq<Event>, through: int, size: nat)
    requires v.stale || (v.messages == [] && v.total == 0)
    ensures var out := ReplayFrom(v, es, through, false, size);
            out.stale || (out.messages == [] && out.total == 0)
    ensures var out := ReplayFrom(v, es, through, false, size);
            out.stale || forall i :: 0 <= i < |es| && through < i ==> !es[i].MessageNew?
    ensures var out := ReplayFrom(v, es, through, false, size);
            out.stale || forall i :: 0 <= i < |es| ==> !es[i].MessageDelete?
    decreases |es|
  {
    if v.stale {
      StaysStale(v, es, through, false, size);
    } else if es != [] {
      var v2 := ReplayNext(v, es[0], through, false, size);
      StaysEmpty(v2, es[1..], through - 1, size);
      if v2.stale {
        StaysStale(v2, es[1..], through - 1, false, size);
      }
      assert forall i :: 1 <= i < |es| ==> es[i] == es[1..][i - 1];
    }
  }

  /** Updates alone neither add nor remove a match. */
  lemma {:induction false} UpdatesKeepHits(rows: seq<Row>, used: set<Id>, es: seq<Event>, search: Search)
    requires Stored(rows, used) && Log(rows, used, es)
    requires forall i :: 0 <= i < |es| ==> es[i].Update?()
    ensures |Hits(Run(rows, es), search)| == |Hits(rows, search)|
    decreases |es|
  {
    if es != [] {
      StepFacts(rows, used, es);
      HitsUpdated(rows, es[0], search);
      UpdatesKeepHits(Commit(rows, es[0]), Used(used, es[0]), es[1..], search);
    }
  }

  // ---------- Past the snapshot ----------

  lemma {:induction false} ReplayShows(v: View, rows: seq<Row>, used: set<Id>, es: seq<Event>, through: int, size: nat,
                                       search: Search, offset: nat)
    requires v.stale || Shows(v, rows, search, offset)
    requires Stored(rows, used) && Log(rows, used, es) && through < 0
    ensures var out := ReplayFrom(v, es, through, false, size);
            out.stale || Shows(out, Run(rows, es), search, offset)
    decreases |es|
  {
    if v.stale {
      StaysStale(v, es, through, false, size);
    } else if es != [] {
      StepFacts(rows, used, es);
      ShowsStep(v, rows, used, es[0], size, search, offset);
      ReplayShows(ReplayDelta(v, es[0], false, size), Commit(rows, es[0]), Used(used, es[0]), es[1..], through - 1,
                  size, search, offset);
    }
  }

  // ---------- The snapshot point ----------

  /** A list read, taken after `before`: the page of matching rows from `offset` on, and how many match. */
  function Taken(end: seq<Row>, search: Search, offset: nat, size: nat): View {
    View(Page(Behind(Hits(end, search), offset), size), |Hits(end, search)|, false)
  }

  lemma TakenIsListed(end: seq<Row>, search: Search, offset: nat, size: nat)
    requires Distinct(end)
    ensures var v := Taken(end, search, offset, size);
            && Shows(v, end, search, offset) && Distinct(v.messages) && !v.stale
            && (forall r :: r in v.messages ==> r in end) && forall id :: Listed(v.messages, id) ==> Listed(end, id)
  {
    var v := Taken(end, search, offset, size);
    HitsDistinct(end, search);
    HitsMembers(end, search);
    forall id | Listed(v.messages, id) ensures Listed(end, id) {
      PartLists(v.messages, end, search, offset, id);
    }
  }

  lemma SnapshotTurns(rows: seq<Row>, used: set<Id>, before: seq<Event>, v: View)
    requires Stored(rows, used) && Log(rows, used, before)
    requires forall r :: r in v.messages ==> r in Run(rows, before)
    ensures Turning(v, before, v.messages)
  {
    RunSettles(rows, used, [], before);
    assert [] + before == before;
    var end := Run(rows, before);
    forall i | 0 <= i < |v.messages| ensures PatchAll(v.messages[i], before) == v.messages[i] {
      assert v.messages[i] in end;
    }
  }

  /** With no clear before the snapshot, replay converges. */
  lemma ShowsUncleared(rows: seq<Row>, used: set<Id>, before: seq<Event>, after: seq<Event>, size: nat, search: Search,
                       offset: nat)
    requires Stored(rows, used) && Log(rows, used, before + after) && MessagesClear !in before
    ensures var out := Replay(Taken(Run(rows, before), search, offset, size), before + after, false, size);
            out.stale || Shows(out, Run(rows, before + after), search, offset)
  {
    hide Run, Log, Shows, ReplayFrom, ListedThrough, Settled, Taken, Turning, Distinct;
    var end := Run(rows, before);
    var v := Taken(end, search, offset, size);
    var through := ListedThrough(v.messages, before + after);
    RunSplit(rows, used, before, after);
    RunKeeps(rows, used, before);
    TakenIsListed(end, search, offset, size);
    ThroughHeld(rows, used, before, after, v.messages);
    SnapshotTurns(rows, used, before, v);
    TurnsToPage(v, rows, used, before, v.messages, through, size);
    ReplaySplit(v, before, after, through, false, size);
    var w := ReplayFrom(v, before, through, false, size);
    assert w.stale || w == v;
    ReplayShows(w, end, UsedAfter(used, before), after, through - |before|, size, search, offset);
  }

  /** A clear committed after the snapshot leaves nothing to disagree about. */
  lemma ShowsAfterClear(rows: seq<Row>, used: set<Id>, before: seq<Event>, after: seq<Event>, size: nat,
                        search: Search, offset: nat)
    requires Stored(rows, used) && Log(rows, used, before + after) && MessagesClear in after
    ensures var out := Replay(Taken(Run(rows, before), search, offset, size), before + after, false, size);
            out.stale || Shows(out, Run(rows, before + after), search, offset)
  {
    hide Run, Log, ReplayFrom, ListedThrough, Stored, Taken;
    var end := Run(rows, before);
    var v := Taken(end, search, offset, size);
    var deltas := before + after;
    var through := ListedThrough(v.messages, deltas);
    var c := LastClear(after);
    NoClear(after);
    var head, tail := before + after[..c + 1], after[c + 1..];
    assert deltas == head + tail;
    RunSplit(rows, used, before, after);
    RunSplit(rows, used, head, tail);
    RunKeeps(rows, used, head);
    RunKeeps(rows, used, before);
    ClearRuns(rows, used, head);
    ClearEmpties(v, head, through, false, size);
    ReplaySplit(v, head, tail, through, false, size);
    StoredIsDistinct(end, UsedAfter(used, before));
    TakenIsListed(end, search, offset, size);
    ThroughHeld(rows, used, before, after, v.messages);
    var w := ReplayFrom(v, head, through, false, size);
    ReplayShows(w, [], UsedAfter(used, head), tail, through - |head|, size, search, offset);
  }

  lemma StoredIsDistinct(rows: seq<Row>, used: set<Id>)
    requires Stored(rows, used)
    ensures Distinct(rows)
  {
  }

  /** What a snapshot lists arrived after the last clear it holds. */
  lemma ShownSinceClear(rows: seq<Row>, used: set<Id>, before: seq<Event>, after: seq<Event>, page: seq<Row>)
    requires Stored(rows, used) && Log(rows, used, before) && MessagesClear in before
    requires page != [] && page[0] in Run(rows, before)
    ensures LastClear(before) < ListedThrough(page, before + after)
  {
    hide Run, Log, ListedThrough, Stored, LastClear, IndexOf;
    var head, tail := HeldClear(rows, used, before);
    var at := MintedFor(tail, UsedAfter(used, head), page[0]);
    assert before[|head| + at] == tail[at] == (before + after)[|head| + at];
    IndexOfTop(page);
    ThroughCovers(page, before + after, |head| + at);
  }

  lemma MintedFor(es: seq<Event>, used: set<Id>, row: Row) returns (at: nat)
    requires Log([], used, es) && row in Run([], es)
    ensures at < |es| && es[at].MessageNew? && es[at].row.id == row.id
  {
    LogOfFewer([], used, {}, es);
    RunKeeps([], {}, es);
    at := MintedBy({}, es, row.id);
  }

  /** An emptied view that owes nothing saw no message go, and none come that was not passed over. */
  lemma OnlyUpdatesSince(v: View, es: seq<Event>, through: int, size: nat, from: nat)
    requires (v.stale || (v.messages == [] && v.total == 0)) && MessagesClear !in es && through < from <= |es|
    requires !ReplayFrom(v, es, through, false, size).stale
    ensures ReplayFrom(v, es, through, false, size) == View([], 0, false)
    ensures forall i :: 0 <= i < |es[from..]| ==> es[from..][i].Update?()
  {
    StaysEmpty(v, es, through, size);
    hide ReplayFrom;
    forall i | 0 <= i < |es[from..]| ensures es[from..][i].Update?() {
      assert es[from..][i] == es[from + i];
      assert es[from + i] != MessagesClear;
    }
  }

  /**
   * With the last clear already in the snapshot, replay empties the view for
   * good, or owes a resync. That is right only if the page was empty.
   */
  lemma ClearedEmpty(rows: seq<Row>, used: set<Id>, before: seq<Event>, after: seq<Event>, size: nat, search: Search,
                     offset: nat)
    requires Stored(rows, used) && Log(rows, used, before + after)
    requires MessagesClear in before && MessagesClear !in after
    ensures var end, deltas := Run(rows, before), before + after;
            var v := Taken(end, search, offset, size);
            var out, through := Replay(v, deltas, false, size), ListedThrough(v.messages, deltas);
            && (v.messages == [] ==> through == -1)
            && (v.messages != [] ==> LastClear(before) < through)
            && (out.stale || (Shows(out, Run(rows, deltas), search, offset) <==> v.messages == []))
            && (v.messages != [] ==> out.stale || out.total != |Hits(Run(rows, deltas), search)|)
  {
    hide Run, Log, ReplayFrom, ListedThrough, Stored, Taken, LastClear, Hits, Shows, UsedAfter;
    var end, deltas := Run(rows, before), before + after;
    var v := Taken(end, search, offset, size);
    var through := ListedThrough(v.messages, deltas);
    RunSplit(rows, used, before, after);
    RunKeeps(rows, used, before);
    StoredIsDistinct(end, UsedAfter(used, before));
    TakenIsListed(end, search, offset, size);
    ThroughHeld(rows, used, before, after, v.messages);
    var head, tail := HeldClear(rows, used, before);
    var rest := tail + after;
    assert deltas == head + rest;
    RunSplit(rows, used, head, rest);
    ClearRuns(rows, used, head);
    ClearEmpties(v, head, through, false, size);
    ReplaySplit(v, head, rest, through, false, size);
    NothingListed();
    var w := ReplayFrom(v, head, through, false, size);
    var out := ReplayFrom(w, rest, through - |head|, false, size);
    if v.messages != [] {
      ShownSinceClear(rows, used, before, after, v.messages);
    }
    if !out.stale {
      if v.messages == [] {
        OnlyUpdatesSince(w, rest, through - |head|, size, 0);
        assert rest[0..] == rest;
        HitsNone(search);
        NothingIsStored(UsedAfter(used, head));
        UpdatesKeepHits([], UsedAfter(used, head), rest, search);
      } else {
        OnlyUpdatesSince(w, rest, through - |head|, size, |tail|);
        assert rest[|tail|..] == after;
        UpdatesKeepHits(end, UsedAfter(used, before), after, search);
      }
      EmptyShows(out, end, Run(rows, deltas), search, offset, size);
    }
  }

  lemma NothingListed()
    ensures forall deltas :: ListedThrough([], deltas) == -1
  {
    forall deltas ensures ListedThrough([], deltas) == -1 {
      assert forall id :: !Listed([], id);
    }
  }

  lemma EmptyShows(out: View, end: seq<Row>, now: seq<Row>, search: Search, offset: nat, size: nat)
    requires out == View([], 0, false)
    requires |Hits(now, search)| == |Hits(end, search)| || Hits(now, search) == []
    ensures Hits(now, search) == [] ==> Shows(out, now, search, offset)
    ensures |Hits(now, search)| == |Hits(end, search)| && Taken(end, search, offset, size).messages != [] ==>
              !Shows(out, now, search, offset) && out.total != |Hits(now, search)|
  {
  }

  /**
   * Under any search, on any page, and wherever in the recorded window the
   * list was read: replay ends owing a resync, or the client shows the
   * matching rows from its offset on with current flags and counts all that
   * match - unless the last recorded clear comes before the last listed
   * arrival, which is exactly when it does not.
   */
  lemma SearchPlusReplay(rows: seq<Row>, used: set<Id>, before: seq<Event>, after: seq<Event>, size: nat,
                         search: Search, offset: nat)
    requires Stored(rows, used) && Log(rows, used, before + after)
    ensures var deltas := before + after;
            var v := Taken(Run(rows, before), search, offset, size);
            var out := Replay(v, deltas, false, size);
            out.stale ||
            (Shows(out, Run(rows, deltas), search, offset) <==>
             !(0 <= LastClear(deltas) < ListedThrough(v.messages, deltas)))
    ensures var deltas := before + after;
            var v := Taken(Run(rows, before), search, offset, size);
            var out := Replay(v, deltas, false, size);
            0 <= LastClear(deltas) < ListedThrough(v.messages, deltas) ==>
              out.stale || out.total != |Hits(Run(rows, deltas), search)|
  {
    hide *;
    ClearsSplit(before, after);
    if MessagesClear in after {
      ShowsAfterClear(rows, used, before, after, size, search, offset);
      TakenThrough(rows, used, before, after, size, search, offset);
    } else if MessagesClear !in before {
      ShowsUncleared(rows, used, before, after, size, search, offset);
    } else {
      ClearedEmpty(rows, used, before, after, size, search, offset);
    }
  }

  lemma ClearsSplit(before: seq<Event>, after: seq<Event>)
    ensures MessagesClear in after ==> |before| <= LastClear(before + after)
    ensures MessagesClear !in after && MessagesClear in before ==> 0 <= LastClear(before + after) == LastClear(before)
    ensures MessagesClear !in after && MessagesClear !in before ==> LastClear(before + after) == -1
  {
    hide LastClear;
    LastClearConcat(before, after);
    NoClear(before);
    NoClear(after);
  }

  lemma TakenThrough(rows: seq<Row>, used: set<Id>, before: seq<Event>, after: seq<Event>, size: nat,
                     search: Search, offset: nat)
    requires Stored(rows, used) && Log(rows, used, before + after)
    ensures ListedThrough(Taken(Run(rows, before), search, offset, size).messages, before + after) < |before|
  {
    hide Run, Log, ListedThrough, Stored, Taken;
    RunSplit(rows, used, before, after);
    RunKeeps(rows, used, before);
    StoredIsDistinct(Run(rows, before), UsedAfter(used, before));
    TakenIsListed(Run(rows, before), search, offset, size);
    ThroughHeld(rows, used, before, after, Taken(Run(rows, before), search, offset, size).messages);
  }

  // ---------- Later pages of the whole mailbox ----------

  /** Without a search the rows from an offset on are a stretch of the mailbox. */
  lemma ShowsIsCounts(v: View, rows: seq<Row>, search: Search, offset: nat)
    requires Shows(v, rows, search, offset) && Everything(search)
    ensures Counts(v, rows)
  {
    HitsAll(rows, search);
  }

  /**
   * Without a search an arrival or a deletion anywhere leaves a later page a
   * stretch of the mailbox, and the count right.
   */
  lemma StretchNew(part: seq<Row>, rows: seq<Row>, row: Row, d: nat)
    requires part <= Behind(rows, d)
    ensures part <= Behind([row] + rows, d + 1)
  {
  }

  lemma StretchWithout(part: seq<Row>, rows: seq<Row>, id: Id, d: nat) returns (d2: nat)
    requires part <= Behind(rows, d) && Distinct(rows) && Listed(rows, id)
    ensures Without(part, id) <= Behind(Without(rows, id), d2)
  {
    hide *;
    var front := BehindSplit(rows, d);
    if Listed(front, id) {
      d2 := WithoutAhead(part, front, Behind(rows, d), id);
    } else {
      d2 := d;
      ListedBehind(front, Behind(rows, d), id);
      BehindWithout(rows, d, id);
      WithoutStart(part, Behind(rows, d), id);
    }
  }

  lemma ListedBehind(front: seq<Row>, behind: seq<Row>, id: Id)
    requires Listed(front + behind, id) && !Listed(front, id)
    ensures Listed(behind, id)
  {
    IndexOfConcat(front, behind, id);
  }

  lemma WithoutAhead(part: seq<Row>, front: seq<Row>, behind: seq<Row>, id: Id) returns (d: nat)
    requires part <= behind && Distinct(front + behind) && Listed(front, id)
    ensures Without(part, id) <= Behind(Without(front + behind, id), d)
  {
    hide IndexOf, Without, Behind, Distinct;
    NotInBoth(front, behind, id);
    IndexOfPrefix(part, behind, id);
    NothingWithout(part, id);
    WithoutConcat(front, behind, id);
    d := |Without(front, id)|;
    BehindOf(Without(front, id), behind, d);
  }

  lemma WithoutStart(part: seq<Row>, rows: seq<Row>, id: Id)
    requires part <= rows && Listed(rows, id)
    ensures Without(part, id) <= Without(rows, id)
  {
    if Listed(part, id) {
      WithoutPrefix(part, rows, id);
    } else {
      NothingWithout(part, id);
      IndexOfPrefix(part, rows, id);
      var at := IndexOf(rows, id);
      hide IndexOf;
      assert |part| <= at;
      assert Without(rows, id) == rows[..at] + rows[at + 1..];
      assert part == rows[..at][..|part|];
    }
  }

  lemma StretchListed(v: View, rows: seq<Row>)
    requires Counts(v, rows)
    ensures forall id :: Listed(v.messages, id) ==> Listed(rows, id)
  {
    var d: nat :| v.messages <= Behind(rows, d);
    forall id | Listed(v.messages, id) ensures Listed(rows, id) {
      var row := v.messages[IndexOf(v.messages, id)];
      assert row in Behind(rows, d);
      assert row in rows;
      MemberListed(rows, row);
    }
  }

  lemma CountsStep(v: View, rows: seq<Row>, used: set<Id>, event: Event)
    requires Counts(v, rows) && Stored(rows, used) && CanCommit(rows, used, event)
    ensures var total := match event
                         case MessageNew(_) => v.total + 1
                         case MessageDelete(_) => v.total - 1
                         case MessagesClear => 0
                         case _ => v.total;
            var messages := match event
                            case MessageNew(_) => v.messages
                            case MessageDelete(id) => Without(v.messages, id)
                            case MessagesClear => []
                            case _ => Updated(v.messages, event);
            Counts(View(messages, total, v.stale), Commit(rows, event))
  {
    hide IndexOf;
    var d: nat :| v.messages <= Behind(rows, d);
    match event
    case MessageNew(row) =>
      StretchNew(v.messages, rows, row, d);
    case MessageDelete(id) =>
      var d2 := StretchWithout(v.messages, rows, id, d);
      WithoutKeepsDistinct(rows, id);
    case MessagesClear =>
      assert [] <= Behind([], 0);
    case _ =>
      BehindUpdated(rows, d, event);
      UpdatedPrefix(v.messages, Behind(rows, d), event);
  }
}
