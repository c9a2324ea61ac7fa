/**
 * Landing the web inbox's first page. Live events recorded while the read was
 * in flight are replayed over the page, which the server may have taken at any
 * point among them. A read during which a deletion was confirmed is not
 * landed, so the events are arrivals and changes of flags or tags.
 */
module InboxReplay {
  import opened Helpers
  import opened InboxIndex
  import opened InboxList

  datatype Event = Arrival(message: Summary) | Change(id: Id, patch: Patch)

  // ---------- The server ----------

  function Changed(rows: seq<Summary>, id: Id, patch: Patch): (now: seq<Summary>)
    ensures |now| == |rows|
    ensures forall i :: 0 <= i < |rows| ==> now[i] == if rows[i].id == id then patch.Apply(rows[i]) else rows[i]
  {
    seq(|rows|, i requires 0 <= i < |rows| => if rows[i].id == id then patch.Apply(rows[i]) else rows[i])
  }

  function Commit(rows: seq<Summary>, e: Event): seq<Summary> {
    match e
    case Arrival(message) => [message] + rows
    case Change(id, patch) => Changed(rows, id, patch)
  }

  /** Ids rise as messages are stored, and only a stored message is changed. */
  predicate CanCommit(rows: seq<Summary>, e: Event) {
    match e
    case Arrival(message) => forall i :: 0 <= i < |rows| ==> rows[i].id < message.id
    case Change(id, _) => id in IdsOf(rows)
  }

  function Run(rows: seq<Summary>, es: seq<Event>): seq<Summary>
    decreases |es|
  {
    if es == [] then rows else Run(Commit(rows, es[0]), es[1..])
  }

  predicate Log(rows: seq<Summary>, es: seq<Event>)
    decreases |es|
  {
    es == [] || (CanCommit(rows, es[0]) && Log(Commit(rows, es[0]), es[1..]))
  }

  /** The messages that pass the filters, in order. */
  function Passing(rows: seq<Summary>, f: Filters): seq<Summary> {
    if rows == [] then [] else (if Matches(rows[0], f) then [rows[0]] else []) + Passing(rows[1..], f)
  }

  /** What a first-page read returns: its rows, the cursor behind them, and the count. */
  datatype Read = Read(page: seq<Summary>, cursor: Option<Id>, total: nat)

  function ReadOf(rows: seq<Summary>, f: Filters): Read {
    var all := Passing(rows, f);
    if |all| <= PAGE_SIZE then Read(all, None, |all|)
    else Read(all[..PAGE_SIZE], Some(all[PAGE_SIZE - 1].id), |all|)
  }

  // ---------- The client ----------

  datatype Shown = Shown(list: Loaded, total: int)

  /** What a trim must spare, and what is counted out when it is let go. */
  datatype Pending = Pending(undoable: Option<Id>, hidden: set<Id>)

  function Admitted(s: Shown, arrivals: seq<Summary>, f: Filters, p: Pending): Shown {
    var newest := FreshOf(arrivals, IdsOf(s.list.rows), f);
    if newest == [] then s
    else Shown(Arrived(s.list, newest, p.undoable, p.hidden), s.total + |newest|)
  }

  function Altered(s: Shown, id: Id, patch: Patch, f: Filters): Shown {
    var c := Patched(Counted(s.list.rows, [], 0, s.total), id, patch, f);
    Shown(s.list.(rows := c.rows), c.total)
  }

  /** `events` applied in order behind the arrivals gathered so far, each run of arrivals at once. */
  function Applied(s: Shown, arrivals: seq<Summary>, events: seq<Event>, f: Filters, p: Pending): Shown
    decreases |events|
  {
    if events == [] then Admitted(s, arrivals, f, p)
    else match events[0]
      case Arrival(message) => Applied(s, arrivals + [message], events[1..], f, p)
      case Change(id, patch) => Applied(Altered(Admitted(s, arrivals, f, p), id, patch, f), [], events[1..], f, p)
  }

  /** Index of the last recorded arrival that the page lists, or -1. */
  function LastInRead(events: seq<Event>, read: set<Id>): (last: int)
    ensures -1 <= last < |events|
    ensures 0 <= last ==> events[last].Arrival? && events[last].message.id in read
    ensures forall i :: last < i < |events| && events[i].Arrival? ==> events[i].message.id !in read
  {
    if events == [] then -1
    else
      var n := |events| - 1;
      if events[n].Arrival? && events[n].message.id in read then n else LastInRead(events[..n], read)
  }

  /** The events to replay: all but the arrivals up to index `last`. */
  function Kept(events: seq<Event>, last: int): seq<Event> {
    if events == [] then []
    else (if events[0].Arrival? && 0 <= last then [] else [events[0]]) + Kept(events[1..], last - 1)
  }

  function Replayed(read: Read, events: seq<Event>, f: Filters, p: Pending): Shown {
    Applied(Shown(Loaded(read.page, read.cursor, {}), read.total), [],
            Kept(events, LastInRead(events, IdsOf(read.page))), f, p)
  }

  /**
   * The list shows the newest messages the server holds in this view, down to
   * its cursor or all of them, as they are, and counts them all.
   */
  predicate Exact(s: Shown, rows: seq<Summary>, f: Filters) {
    var all := Passing(rows, f);
    && s.list.rows <= all && s.total == |all|
    && (if s.list.cursor.None? then s.list.rows == all else s.list.cursor == LastId(s.list.rows))
  }

  /** A change can take a message into the view, or out of it. */
  predicate Changeable(f: Filters) {
    f.starred || f.unread || f.tags != []
  }

  // ---------- The server's log ----------

  lemma CommitDescends(rows: seq<Summary>, e: Event)
    requires Descending(rows) && CanCommit(rows, e)
    ensures Descending(Commit(rows, e))
  {
  }

  lemma {:induction false} RunDescends(rows: seq<Summary>, es: seq<Event>)
    requires Descending(rows) && Log(rows, es)
    ensures Descending(Run(rows, es))
    decreases |es|
  {
    if es != [] {
      CommitDescends(rows, es[0]);
      RunDescends(Commit(rows, es[0]), es[1..]);
    }
  }

  lemma {:induction false} RunConcat(rows: seq<Summary>, a: seq<Event>, b: seq<Event>)
    ensures Run(rows, a + b) == Run(Run(rows, a), b)
    ensures Log(rows, a + b) <==> Log(rows, a) && Log(Run(rows, a), b)
    decreases |a|
  {
    if a == [] {
      assert a + b == b;
    } else {
      assert (a + b)[1..] == a[1..] + b;
      RunConcat(Commit(rows, a[0]), a[1..], b);
    }
  }

  lemma RunCons(rows: seq<Summary>, es: seq<Event>)
    requires Log(rows, es)
    ensures es == [] ==> Run(rows, es) == rows
    ensures es != [] ==>
              && CanCommit(rows, es[0]) && Log(Commit(rows, es[0]), es[1..])
              && Run(rows, es) == Run(Commit(rows, es[0]), es[1..])
  {
  }

  lemma RunSnoc(rows: seq<Summary>, es: seq<Event>)
    requires es != [] && Log(rows, es)
    ensures var n := |es| - 1;
            && es == es[..n] + [es[n]] && Log(rows, es[..n]) && CanCommit(Run(rows, es[..n]), es[n])
            && Run(rows, es) == Commit(Run(rows, es[..n]), es[n])
  {
    var n := |es| - 1;
    var last := [es[n]];
    assert es == es[..n] + last && last[1..] == [];
    RunConcat(rows, es[..n], last);
    RunCons(Run(rows, es[..n]), last);
    RunCons(Commit(Run(rows, es[..n]), es[n]), []);
    hide Run, Log, CanCommit, Commit;
  }

  lemma CommitIds(rows: seq<Summary>, e: Event)
    ensures IdsOf(Commit(rows, e)) == IdsOf(rows) + (if e.Arrival? then {e.message.id} else {})
  {
    var now := Commit(rows, e);
    forall x | x in IdsOf(rows) ensures x in IdsOf(now) {
      var i :| 0 <= i < |rows| && rows[i].id == x;
      assert now[if e.Arrival? then i + 1 else i].id == x;
    }
    forall x | x in IdsOf(now) ensures x in IdsOf(rows) || (e.Arrival? && x == e.message.id) {
      var i :| 0 <= i < |now| && now[i].id == x;
      assert e.Change? ==> rows[i].id == x;
      assert e.Arrival? && 0 < i ==> rows[i - 1].id == x;
    }
    assert e.Arrival? ==> now[0].id in IdsOf(now);
  }

  /** Only messages stored by the end are changed, and none that is stored is ever lost. */
  lemma {:induction false} ChangesKnown(rows: seq<Summary>, es: seq<Event>)
    requires Log(rows, es)
    ensures IdsOf(rows) <= IdsOf(Run(rows, es))
    ensures forall i :: 0 <= i < |es| && es[i].Change? ==> es[i].id in IdsOf(Run(rows, es))
    decreases |es|
  {
    if es != [] {
      CommitIds(rows, es[0]);
      ChangesKnown(Commit(rows, es[0]), es[1..]);
      assert forall i :: 0 < i < |es| ==> es[i] == es[1..][i - 1];
    }
  }

  // ---------- Filtering ----------

  lemma MatchesFixed(m: Summary, patch: Patch, f: Filters)
    requires !Changeable(f)
    ensures Matches(patch.Apply(m), f) == Matches(m, f) && patch.Apply(m).id == m.id
  {
  }

  lemma {:induction false} PassingConcat(a: seq<Summary>, b: seq<Summary>, f: Filters)
    ensures Passing(a + b, f) == Passing(a, f) + Passing(b, f)
  {
    if a == [] {
      assert a + b == b;
    } else {
      assert (a + b)[1..] == a[1..] + b;
      PassingConcat(a[1..], b, f);
    }
  }

  lemma {:induction false} PassingMembers(rows: seq<Summary>, f: Filters)
    ensures forall m :: m in Passing(rows, f) <==> m in rows && Matches(m, f)
  {
    if rows != [] {
      PassingMembers(rows[1..], f);
      assert rows == [rows[0]] + rows[1..];
    }
  }

  lemma {:induction false} PassingDescends(rows: seq<Summary>, f: Filters)
    requires Descending(rows)
    ensures Descending(Passing(rows, f))
  {
    if rows != [] {
      PassingDescends(rows[1..], f);
      PassingMembers(rows[1..], f);
      var rest := Passing(rows[1..], f);
      forall j | 0 <= j < |rest| ensures rest[j].id < rows[0].id {
        assert rest[j] in rest && rest[j] in rows[1..];
      }
    }
  }

  /** A change that does not bear on the filters is one of the messages that pass. */
  lemma {:induction false} PassingChanged(rows: seq<Summary>, id: Id, patch: Patch, f: Filters)
    requires !Changeable(f)
    ensures Passing(Changed(rows, id, patch), f) == Changed(Passing(rows, f), id, patch)
  {
    if rows != [] {
      var now := Changed(rows, id, patch);
      assert now[1..] == Changed(rows[1..], id, patch);
      PassingChanged(rows[1..], id, patch, f);
      MatchesFixed(rows[0], patch, f);
      hide Matches;
    }
  }

  // ---------- A change, replayed ----------

  function Step(m: Summary, e: Event): Summary {
    if e.Change? && e.id == m.id then e.patch.Apply(m) else m
  }

  /** A message with all changes among `es` applied. */
  function Final(m: Summary, es: seq<Event>): Summary
    decreases |es|
  {
    if es == [] then m else Final(Step(m, es[0]), es[1..])
  }

  function FinalAll(rows: seq<Summary>, es: seq<Event>): (now: seq<Summary>)
    ensures |now| == |rows| && forall i :: 0 <= i < |rows| ==> now[i] == Final(rows[i], es)
  {
    seq(|rows|, i requires 0 <= i < |rows| => Final(rows[i], es))
  }

  lemma {:induction false} FinalSnoc(m: Summary, es: seq<Event>, e: Event)
    ensures Final(m, es + [e]) == Step(Final(m, es), e) && Final(m, es).id == m.id
    decreases |es|
  {
    if es == [] {
      assert [e][1..] == [];
      assert Final(Step(m, e), [e][1..]) == Step(m, e);
    } else {
      assert (es + [e])[1..] == es[1..] + [e];
      FinalSnoc(Step(m, es[0]), es[1..], e);
    }
  }

  /** A change repeated at the end takes the place of the first. */
  lemma {:induction false} LastWins(m: Summary, es: seq<Event>, patch: Patch)
    ensures patch.Apply(Final(patch.Apply(m), es)) == patch.Apply(Final(m, es))
    decreases |es|
  {
    if es != [] {
      var e := es[0];
      if e.Change? && e.id == m.id {
        assert e.patch.Apply(patch.Apply(m)) == e.patch.Apply(m) ||
               e.patch.Apply(patch.Apply(m)) == patch.Apply(e.patch.Apply(m));
        LastWins(e.patch.Apply(m), es[1..], patch);
      } else {
        LastWins(m, es[1..], patch);
      }
    }
  }

  lemma {:induction false} Untouched(m: Summary, es: seq<Event>)
    requires forall i :: 0 <= i < |es| && es[i].Change? ==> es[i].id != m.id
    ensures Final(m, es) == m
    decreases |es|
  {
    if es != [] {
      assert forall i :: 0 <= i < |es| - 1 ==> es[1..][i] == es[i + 1];
      Untouched(m, es[1..]);
    }
  }

  /** Applying the changes of a log again to where it led changes nothing. */
  lemma {:induction false} Settled(rows: seq<Summary>, es: seq<Event>)
    requires Log(rows, es)
    ensures forall m :: m in Run(rows, es) ==> Final(m, es) == m
    decreases |es|
  {
    if es != [] {
      hide Run, Log, Final, Commit, CanCommit, Step, IdsOf;
      RunSnoc(rows, es);
      var n := |es| - 1;
      var e, before := es[n], es[..n];
      var was, now := Run(rows, before), Run(rows, es);
      Settled(rows, before);
      ChangesKnown(rows, before);
      forall m | m in now ensures Final(m, es) == m {
        FinalSnoc(m, before, e);
        SettledStep(was, before, e, m);
      }
    }
  }

  lemma SettledStep(was: seq<Summary>, before: seq<Event>, e: Event, m: Summary)
    requires forall r :: r in was ==> Final(r, before) == r
    requires forall i :: 0 <= i < |before| && before[i].Change? ==> before[i].id in IdsOf(was)
    requires CanCommit(was, e) && m in Commit(was, e)
    ensures Step(Final(m, before), e) == m
  {
    match e
    case Arrival(message) =>
      if m == message {
        forall i | 0 <= i < |before| && before[i].Change? ensures before[i].id != m.id {
          var k :| 0 <= k < |was| && was[k].id == before[i].id;
        }
        Untouched(m, before);
      }
    case Change(id, patch) =>
      var i :| 0 <= i < |was| && Changed(was, id, patch)[i] == m;
      assert was[i] in was;
      LastWins(was[i], before, patch);
      FinalSnoc(m, before, e);
  }

  // ---------- The client, step by step ----------

  /** Where a change does not bear on the filters, it changes the one row and no count. */
  lemma AlteredIs(s: Shown, id: Id, patch: Patch, f: Filters)
    requires Distinct(s.list.rows) && !Changeable(f)
    ensures Altered(s, id, patch, f) == Shown(s.list.(rows := Changed(s.list.rows, id, patch)), s.total)
  {
    var rows := s.list.rows;
    var index, now := IndexOf(rows, id), Changed(rows, id, patch);
    assert IndexOf([], id) == -1;
    if 0 <= index {
      MatchesFixed(rows[index], patch, f);
      hide Matches;
      assert rows[index := patch.Apply(rows[index])] == now;
    } else {
      assert now == rows;
    }
  }

  lemma SameLast(rows: seq<Summary>, id: Id, patch: Patch)
    ensures LastId(Changed(rows, id, patch)) == LastId(rows)
  {
    assert forall m: Summary :: patch.Apply(m).id == m.id;
  }

  lemma ChangedPrefix(head: seq<Summary>, rows: seq<Summary>, id: Id, patch: Patch)
    requires head <= rows
    ensures Changed(head, id, patch) <= Changed(rows, id, patch)
    ensures head == rows ==> Changed(head, id, patch) == Changed(rows, id, patch)
  {
  }

  lemma PrefixDistinct(head: seq<Summary>, rows: seq<Summary>)
    requires Descending(rows) && head <= rows
    ensures Distinct(head) && Descending(head)
  {
  }

  lemma ExactDistinct(s: Shown, rows: seq<Summary>, f: Filters)
    requires Exact(s, rows, f) && Descending(rows)
    ensures Distinct(s.list.rows)
  {
    PassingDescends(rows, f);
    PrefixDistinct(s.list.rows, Passing(rows, f));
  }

  lemma AlterExact(s: Shown, rows: seq<Summary>, id: Id, patch: Patch, f: Filters)
    requires Exact(s, rows, f) && Descending(rows) && !Changeable(f)
    ensures Exact(Altered(s, id, patch, f), Changed(rows, id, patch), f)
  {
    ExactDistinct(s, rows, f);
    AlteredIs(s, id, patch, f);
    PassingChanged(rows, id, patch, f);
    SameLast(s.list.rows, id, patch);
    ChangedPrefix(s.list.rows, Passing(rows, f), id, patch);
    hide Passing, Altered, Matches, Changed, LastId;
  }

  /** Arrivals that are filtered out. */
  predicate Stale(arrivals: seq<Summary>, f: Filters) {
    forall i :: 0 <= i < |arrivals| ==> !Matches(arrivals[i], f)
  }

  lemma {:induction false} StaleNotFresh(arrivals: seq<Summary>, known: set<Id>, f: Filters)
    requires Stale(arrivals, f)
    ensures FreshOf(arrivals, known, f) == []
  {
    if arrivals != [] {
      var n := |arrivals| - 1;
      StaleNotFresh(arrivals[..n], if arrivals[n].id in known then known else known + {arrivals[n].id}, f);
    }
  }

  /** A run of arrivals, all of them new, is admitted as far as it passes the filters. */
  lemma {:induction false} FreshIsPassing(stale: seq<Summary>, arrivals: seq<Summary>, known: set<Id>, f: Filters)
    requires Stale(stale, f) && Ascending(arrivals)
    requires forall i :: 0 <= i < |arrivals| ==> arrivals[i].id !in known
    ensures FreshOf(stale + arrivals, known, f) == Passing(Reversed(arrivals), f)
    decreases |arrivals|
  {
    hide FreshOf, Matches, Stale;
    if arrivals == [] {
      assert stale + arrivals == stale && Reversed(arrivals) == [];
      StaleNotFresh(stale, known, f);
    } else {
      var n := |arrivals| - 1;
      var m := arrivals[n];
      assert (stale + arrivals)[..|stale| + n] == stale + arrivals[..n];
      FreshStep(stale + arrivals, known, f);
      FreshIsPassing(stale, arrivals[..n], known + {m.id}, f);
      assert Reversed(arrivals)[1..] == Reversed(arrivals[..n]);
    }
  }

  lemma AdmitExact(s: Shown, stale: seq<Summary>, arrivals: seq<Summary>, rows: seq<Summary>, f: Filters, p: Pending)
    requires Exact(s, rows, f) && Stale(stale, f) && Descending(Reversed(arrivals) + rows)
    ensures Exact(Admitted(s, stale + arrivals, f, p), Reversed(arrivals) + rows, f)
  {
    var newest := Passing(Reversed(arrivals), f);
    AboveList(s.list.rows, arrivals, rows, f);
    FreshIsPassing(stale, arrivals, IdsOf(s.list.rows), f);
    PassingConcat(Reversed(arrivals), rows, f);
    OnTopExact(s, newest, Passing(rows, f), p);
    hide FreshOf, Passing, Arrived, Stale, Matches, IdsOf;
  }

  lemma AboveList(shown: seq<Summary>, arrivals: seq<Summary>, rows: seq<Summary>, f: Filters)
    requires shown <= Passing(rows, f) && Descending(Reversed(arrivals) + rows)
    ensures Ascending(arrivals) && forall i :: 0 <= i < |arrivals| ==> arrivals[i].id !in IdsOf(shown)
  {
    PassingMembers(rows, f);
    var all, n := Reversed(arrivals) + rows, |arrivals|;
    forall i, j | 0 <= i < j < n ensures arrivals[i].id < arrivals[j].id {
      assert arrivals[i] == all[n - 1 - i] && arrivals[j] == all[n - 1 - j];
    }
    forall i, k | 0 <= i < n && 0 <= k < |shown| ensures shown[k].id != arrivals[i].id {
      assert shown[k] == Passing(rows, f)[k] && shown[k] in Passing(rows, f);
      var j :| 0 <= j < |rows| && rows[j] == shown[k];
      assert all[n - 1 - i] == arrivals[i] && all[n + j] == rows[j];
    }
  }

  /** New rows on top of an exact list, the oldest then let go. */
  lemma OnTopExact(s: Shown, newest: seq<Summary>, all: seq<Summary>, p: Pending)
    requires s.list.rows <= all && s.total == |all|
    requires if s.list.cursor.None? then s.list.rows == all else s.list.cursor == LastId(s.list.rows)
    ensures var out := if newest == [] then s
                       else Shown(Arrived(s.list, newest, p.undoable, p.hidden), s.total + |newest|);
            && out.list.rows <= newest + all && out.total == |newest + all|
            && (if out.list.cursor.None? then out.list.rows == newest + all
                else out.list.cursor == LastId(out.list.rows))
  {
    hide Trimmed, IndexOf, Kept, IdsOf;
    if newest != [] {
      var l := s.list.(rows := newest + s.list.rows);
      assert l.cursor.Some? ==> LastId(l.rows) == LastId(s.list.rows);
      TrimBounds(l, p.undoable, p.hidden);
      assert l.rows <= newest + all;
    } else {
      assert newest + all == all;
    }
  }

  // ---------- Replaying past the snapshot ----------

  lemma AppliedCons(s: Shown, arrivals: seq<Summary>, es: seq<Event>, f: Filters, p: Pending)
    ensures es == [] ==> Applied(s, arrivals, es, f, p) == Admitted(s, arrivals, f, p)
    ensures es != [] && es[0].Arrival? ==>
              Applied(s, arrivals, es, f, p) == Applied(s, arrivals + [es[0].message], es[1..], f, p)
    ensures es != [] && es[0].Change? ==>
              Applied(s, arrivals, es, f, p) ==
              Applied(Altered(Admitted(s, arrivals, f, p), es[0].id, es[0].patch, f), [], es[1..], f, p)
  {
    hide Admitted, Altered;
  }

  lemma OneMoreOnTop(arrivals: seq<Summary>, m: Summary, rows: seq<Summary>)
    ensures Reversed(arrivals + [m]) + rows == Commit(Reversed(arrivals) + rows, Arrival(m))
  {
  }

  lemma NoneOnTop(rows: seq<Summary>)
    ensures Reversed([]) + rows == rows
  {
  }

  lemma ChangeIs(rows: seq<Summary>, id: Id, patch: Patch)
    ensures Commit(rows, Change(id, patch)) == Changed(rows, id, patch)
  {
  }

  /** A list that is exact stays exact under the events that follow, with a run of arrivals yet to be admitted. */
  lemma {:induction false} Follows(s: Shown, stale: seq<Summary>, arrivals: seq<Summary>, rows: seq<Summary>,
                                   es: seq<Event>, f: Filters, p: Pending)
    requires Exact(s, rows, f) && Stale(stale, f) && !Changeable(f)
    requires Descending(Reversed(arrivals) + rows) && Log(Reversed(arrivals) + rows, es)
    ensures Exact(Applied(s, stale + arrivals, es, f, p), Run(Reversed(arrivals) + rows, es), f)
    decreases |es|
  {
    hide *;
    var now := Reversed(arrivals) + rows;
    RunCons(now, es);
    AppliedCons(s, stale + arrivals, es, f, p);
    if es == [] {
      AdmitExact(s, stale, arrivals, rows, f, p);
    } else {
      CommitDescends(now, es[0]);
      match es[0]
      case Arrival(m) =>
        OneMoreOnTop(arrivals, m, rows);
        assert stale + (arrivals + [m]) == (stale + arrivals) + [m];
        Follows(s, stale, arrivals + [m], rows, es[1..], f, p);
      case Change(id, patch) =>
        AdmitExact(s, stale, arrivals, rows, f, p);
        var t, none := Altered(Admitted(s, stale + arrivals, f, p), id, patch, f), [];
        ChangeIs(now, id, patch);
        AlterExact(Admitted(s, stale + arrivals, f, p), now, id, patch, f);
        NoneOnTop(Commit(now, es[0]));
        NoneStale(f);
        assert none + none == none;
        Follows(t, none, none, Commit(now, es[0]), es[1..], f, p);
    }
  }

  lemma NoneStale(f: Filters)
    ensures Stale([], f)
  {
  }

  // ---------- Replaying up to the snapshot ----------

  /** Every arrival among these events is filtered out. */
  predicate StaleEvents(es: seq<Event>, f: Filters) {
    forall i :: 0 <= i < |es| && es[i].Arrival? ==> !Matches(es[i].message, f)
  }

  lemma FinalChanged(rows: seq<Summary>, id: Id, patch: Patch, es: seq<Event>)
    ensures FinalAll(Changed(rows, id, patch), es) == FinalAll(rows, [Change(id, patch)] + es)
  {
    assert ([Change(id, patch)] + es)[1..] == es;
  }

  lemma FinalArrival(rows: seq<Summary>, m: Summary, es: seq<Event>)
    ensures FinalAll(rows, [Arrival(m)] + es) == FinalAll(rows, es)
  {
    assert ([Arrival(m)] + es)[1..] == es;
  }

  lemma AdmitStale(s: Shown, stale: seq<Summary>, f: Filters, p: Pending)
    requires Stale(stale, f)
    ensures Admitted(s, stale, f, p) == s
  {
    StaleNotFresh(stale, IdsOf(s.list.rows), f);
  }

  lemma SameIdsDistinct(rows: seq<Summary>, id: Id, patch: Patch)
    requires Distinct(rows)
    ensures Distinct(Changed(rows, id, patch))
  {
    assert forall m: Summary :: patch.Apply(m).id == m.id;
  }

  /** Events with no arrival to show only apply their changes. */
  lemma {:induction false} StaleReplay(s: Shown, stale: seq<Summary>, es: seq<Event>, rest: seq<Event>, f: Filters,
                                       p: Pending) returns (left: seq<Summary>)
    requires Distinct(s.list.rows) && Stale(stale, f) && StaleEvents(es, f) && !Changeable(f)
    ensures Stale(left, f)
    ensures Applied(s, stale, es + rest, f, p) ==
            Applied(Shown(s.list.(rows := FinalAll(s.list.rows, es)), s.total), left, rest, f, p)
    decreases |es|
  {
    hide Admitted, Altered, Matches, Changeable, Changed, FreshOf, Distinct;
    if es == [] {
      left := stale;
      assert es + rest == rest && FinalAll(s.list.rows, es) == s.list.rows;
      assert s.list.(rows := s.list.rows) == s.list;
    } else {
      assert (es + rest)[1..] == es[1..] + rest && es == [es[0]] + es[1..];
      assert forall i :: 0 <= i < |es| - 1 ==> es[1..][i] == es[i + 1];
      match es[0]
      case Arrival(m) =>
        FinalArrival(s.list.rows, m, es[1..]);
        left := StaleReplay(s, stale + [m], es[1..], rest, f, p);
      case Change(id, patch) =>
        AdmitStale(s, stale, f, p);
        AlteredIs(s, id, patch, f);
        SameIdsDistinct(s.list.rows, id, patch);
        FinalChanged(s.list.rows, id, patch, es[1..]);
        NoneStale(f);
        left := StaleReplay(Altered(s, id, patch, f), [], es[1..], rest, f, p);
    }
  }

  lemma KeptCons(es: seq<Event>, last: int)
    ensures es == [] ==> Kept(es, last) == []
    ensures es != [] ==>
              Kept(es, last) == (if es[0].Arrival? && 0 <= last then [] else [es[0]]) + Kept(es[1..], last - 1)
  {
  }

  lemma {:induction false} KeptSplit(a: seq<Event>, b: seq<Event>, last: int)
    requires last < |a|
    ensures Kept(a + b, last) == Kept(a, last) + b
    decreases |a|
  {
    hide Kept;
    KeptCons(a, last);
    if a == [] {
      assert a + b == b;
      KeptAll(b, last);
    } else {
      assert (a + b)[1..] == a[1..] + b && (a + b)[0] == a[0];
      KeptCons(a + b, last);
      KeptSplit(a[1..], b, last - 1);
    }
  }

  lemma {:induction false} KeptAll(es: seq<Event>, last: int)
    requires last < 0
    ensures Kept(es, last) == es
  {
    if es != [] {
      KeptAll(es[1..], last - 1);
    }
  }

  /** Every change is kept, and of the arrivals those after the last one in the read. */
  lemma {:induction false} KeptChanges(rows: seq<Summary>, es: seq<Event>, last: int, f: Filters)
    ensures FinalAll(rows, Kept(es, last)) == FinalAll(rows, es)
    ensures (forall i: nat :: last < i < |es| && es[i].Arrival? ==> !Matches(es[i].message, f)) ==>
              StaleEvents(Kept(es, last), f)
    decreases |es|
  {
    hide Matches;
    if es != [] {
      var e := es[0];
      assert es == [e] + es[1..];
      assert forall i :: 0 <= i < |es| - 1 ==> es[1..][i] == es[i + 1];
      match e
      case Arrival(m) =>
        KeptChanges(rows, es[1..], last - 1, f);
        FinalArrival(rows, m, es[1..]);
        FinalArrival(rows, m, Kept(es[1..], last - 1));
        assert Kept(es, last) == (if 0 <= last then [] else [e]) + Kept(es[1..], last - 1);
        assert [] + Kept(es[1..], last - 1) == Kept(es[1..], last - 1);
      case Change(id, patch) =>
        KeptChanges(Changed(rows, id, patch), es[1..], last - 1, f);
        FinalChanged(rows, id, patch, es[1..]);
        FinalChanged(rows, id, patch, Kept(es[1..], last - 1));
    }
  }

  // ---------- What the read says of the arrivals recorded ----------

  /** Arrivals are newer than all that was stored before them. */
  lemma {:induction false} ArrivalsNewer(rows: seq<Summary>, es: seq<Event>, i: nat)
    requires Descending(rows) && Log(rows, es) && i < |es| && es[i].Arrival?
    ensures forall id :: id in IdsOf(rows) ==> id < es[i].message.id
    decreases |es|
  {
    if 0 < i {
      CommitDescends(rows, es[0]);
      CommitIds(rows, es[0]);
      ArrivalsNewer(Commit(rows, es[0]), es[1..], i - 1);
    }
  }

  lemma NewestYet(rows: seq<Summary>, m: Summary)
    requires CanCommit(rows, Arrival(m))
    ensures forall id :: id in IdsOf(rows) ==> id < m.id
  {
  }

  /** A message newer than an arrival came later, and is recorded behind it. */
  lemma {:induction false} LaterRecorded(rows: seq<Summary>, es: seq<Event>, i: nat, id: Id) returns (j: nat)
    requires Descending(rows) && Log(rows, es) && i < |es| && es[i].Arrival?
    requires id in IdsOf(Run(rows, es)) && es[i].message.id < id
    ensures i < j < |es| && es[j].Arrival? && es[j].message.id == id
    decreases |es|
  {
    hide Run, Log, Commit, IdsOf, Descending;
    var n := |es| - 1;
    var e, before := es[n], es[..n];
    RunSnoc(rows, es);
    var was := Run(rows, before);
    CommitIds(was, e);
    if e.Arrival? && e.message.id == id {
      j := n;
    } else {
      if i == n {
        NewestYet(was, e.message);
      }
      j := LaterRecorded(rows, before, i, id);
    }
  }

  /** A recorded arrival is stored, and passes the filters as it did when it arrived. */
  lemma {:induction false} ArrivedStays(rows: seq<Summary>, es: seq<Event>, i: nat, f: Filters) returns (m: Summary)
    requires Log(rows, es) && i < |es| && es[i].Arrival? && !Changeable(f)
    ensures m in Run(rows, es) && m.id == es[i].message.id && Matches(m, f) == Matches(es[i].message, f)
    decreases |es|
  {
    hide Matches, Changeable;
    if i == 0 {
      var now := Commit(rows, es[0]);
      assert now[0] == es[0].message;
      m := StoredStays(now, es[1..], now[0], f);
    } else {
      m := ArrivedStays(Commit(rows, es[0]), es[1..], i - 1, f);
    }
  }

  lemma {:induction false} StoredStays(rows: seq<Summary>, es: seq<Event>, r: Summary, f: Filters)
    returns (m: Summary)
    requires Log(rows, es) && r in rows && !Changeable(f)
    ensures m in Run(rows, es) && m.id == r.id && Matches(m, f) == Matches(r, f)
    decreases |es|
  {
    if es == [] {
      m := r;
    } else {
      var i :| 0 <= i < |rows| && rows[i] == r;
      var now := Commit(rows, es[0]);
      var k := if es[0].Arrival? then i + 1 else i;
      if es[0].Change? {
        MatchesFixed(r, es[0].patch, f);
      }
      hide Matches;
      assert now[k] in now && now[k].id == r.id && Matches(now[k], f) == Matches(r, f);
      m := StoredStays(now, es[1..], now[k], f);
    }
  }

  /** An arrival recorded before the snapshot and after every listed one is filtered out. */
  lemma UnlistedStale(rows: seq<Summary>, before: seq<Event>, f: Filters, i: nat)
    requires Descending(rows) && Log(rows, before) && !Changeable(f) && i < |before| && before[i].Arrival?
    requires forall j :: i <= j < |before| && before[j].Arrival? ==>
               before[j].message.id !in IdsOf(ReadOf(Run(rows, before), f).page)
    ensures !Matches(before[i].message, f)
  {
    hide Run, Log, Matches, ReadOf, IdsOf, Descending, Changeable;
    var m := ArrivedStays(rows, before, i, f);
    if Matches(m, f) {
      RunDescends(rows, before);
      TopOfPage(Run(rows, before), m, f);
      var j := LaterRecorded(rows, before, i, ReadOf(Run(rows, before), f).page[0].id);
    }
  }

  /** The last listed arrival was recorded before the snapshot. */
  lemma ListedBefore(now: seq<Summary>, before: seq<Event>, after: seq<Event>, f: Filters)
    requires Descending(now) && Log(now, after)
    ensures LastInRead(before + after, IdsOf(ReadOf(now, f).page)) < |before|
  {
    var es, last := before + after, LastInRead(before + after, IdsOf(ReadOf(now, f).page));
    hide Log, ReadOf, IdsOf, Descending, LastInRead;
    assert forall k :: |before| <= k < |es| ==> es[k] == after[k - |before|];
    PageStored(now, f);
    if |before| <= last {
      ArrivalsNewer(now, after, last - |before|);
    }
  }

  /** The arrivals recorded before the snapshot that the page does not account for are filtered out. */
  lemma UnaccountedStale(rows: seq<Summary>, before: seq<Event>, after: seq<Event>, f: Filters)
    requires Descending(rows) && Log(rows, before + after) && !Changeable(f)
    ensures var last := LastInRead(before + after, IdsOf(ReadOf(Run(rows, before), f).page));
            && last < |before|
            && forall i: nat :: last < i < |before| && before[i].Arrival? ==> !Matches(before[i].message, f)
  {
    hide Run, Log, Matches, ReadOf, IdsOf, Descending, Changeable, LastInRead;
    var es, last := before + after, LastInRead(before + after, IdsOf(ReadOf(Run(rows, before), f).page));
    RunConcat(rows, before, after);
    RunDescends(rows, before);
    ListedBefore(Run(rows, before), before, after, f);
    forall i: nat | last < i < |before| && before[i].Arrival? ensures !Matches(before[i].message, f) {
      assert forall k :: 0 <= k < |before| ==> es[k] == before[k];
      UnlistedStale(rows, before, f, i);
    }
  }

  lemma PageStored(rows: seq<Summary>, f: Filters)
    ensures IdsOf(ReadOf(rows, f).page) <= IdsOf(rows)
  {
    PassingMembers(rows, f);
    var page := ReadOf(rows, f).page;
    forall x | x in IdsOf(page) ensures x in IdsOf(rows) {
      var k :| 0 <= k < |page| && page[k].id == x;
      assert page[k] == Passing(rows, f)[k] && page[k] in Passing(rows, f);
      var i :| 0 <= i < |rows| && rows[i] == page[k];
    }
  }

  /** A message that passes the filters is on the page, or the page starts with a newer one. */
  lemma TopOfPage(rows: seq<Summary>, m: Summary, f: Filters)
    requires Descending(rows) && m in rows && Matches(m, f) && m.id !in IdsOf(ReadOf(rows, f).page)
    ensures var page := ReadOf(rows, f).page;
            page != [] && m.id < page[0].id && page[0].id in IdsOf(rows) && page[0].id in IdsOf(page)
  {
    PassingMembers(rows, f);
    PassingDescends(rows, f);
    PageStored(rows, f);
    var all, page := Passing(rows, f), ReadOf(rows, f).page;
    var k :| 0 <= k < |all| && all[k] == m;
    assert forall i :: 0 <= i < |page| ==> page[i] == all[i] && page[i].id in IdsOf(page);
  }

  // ---------- The landing ----------

  lemma ReadExact(rows: seq<Summary>, f: Filters)
    ensures var read := ReadOf(rows, f);
            Exact(Shown(Loaded(read.page, read.cursor, {}), read.total), rows, f)
  {
  }

  /** A page taken in the course of a log already shows the changes recorded by then. */
  lemma PageSettled(rows: seq<Summary>, before: seq<Event>, f: Filters)
    requires Descending(rows) && Log(rows, before)
    ensures var page := ReadOf(Run(rows, before), f).page;
            Distinct(page) && FinalAll(page, before) == page
  {
    var now := Run(rows, before);
    RunDescends(rows, before);
    PassingDescends(now, f);
    PrefixDistinct(ReadOf(now, f).page, Passing(now, f));
    Settled(rows, before);
    PassingMembers(now, f);
    var page := ReadOf(now, f).page;
    forall i | 0 <= i < |page| ensures Final(page[i], before) == page[i] {
      assert page[i] == Passing(now, f)[i] && page[i] in Passing(now, f);
    }
  }

  /**
   * Wherever among the recorded events the server took the page, the list ends
   * up showing the newest messages of the view as they are at the end, and
   * counts all of them, in every view that no change can take a message into
   * or out of.
   */
  lemma LandsExact(rows: seq<Summary>, before: seq<Event>, after: seq<Event>, f: Filters, p: Pending)
    requires Descending(rows) && Log(rows, before + after) && !Changeable(f)
    ensures Exact(Replayed(ReadOf(Run(rows, before), f), before + after, f, p), Run(rows, before + after), f)
  {
    var now, read := Run(rows, before), ReadOf(Run(rows, before), f);
    var last := LastInRead(before + after, IdsOf(read.page));
    var s := Shown(Loaded(read.page, read.cursor, {}), read.total);
    RunConcat(rows, before, after);
    RunDescends(rows, before);
    UnaccountedStale(rows, before, after, f);
    KeptSplit(before, after, last);
    KeptChanges(read.page, before, last, f);
    PageSettled(rows, before, f);
    ReadExact(now, f);
    NoneStale(f);
    var left := StaleReplay(s, [], Kept(before, last), after, f, p);
    NoneOnTop(now);
    Follows(s, left, [], now, after, f, p);
    hide *;
    var none: seq<Summary> := [];
    assert left + none == left;
    assert s.list.(rows := read.page) == s.list;
  }

  /** A change that takes a message into a view it was not in. */
  lemma ChangeableByOne(f: Filters) returns (m: Summary, patch: Patch)
    requires Changeable(f)
    ensures m.id == 0 && !Matches(m, f) && Matches(patch.Apply(m), f)
  {
    var all := Summary(0, false, true, true, f.tags);
    if f.starred {
      m, patch := all.(isStarred := false), SetStarred(true);
    } else if f.unread {
      m, patch := all.(isRead := true), SetRead(false);
    } else {
      m, patch := all.(tags := []), SetTags(f.tags);
    }
    assert f.tags != [] ==> f.tags[0] in all.tags;
    assert patch.Apply(m) == all;
  }

  /** With no row loaded a change shows nothing. */
  lemma NothingToAlter(id: Id, patch: Patch, f: Filters, p: Pending)
    ensures var s := Shown(Loaded([], None, {}), 0); Applied(s, [], [Change(id, patch)], f, p) == s
  {
    var s, e := Shown(Loaded([], None, {}), 0), Change(id, patch);
    assert [e][1..] == [];
    AppliedCons(s, [], [e], f, p);
    NoneStale(f);
    AdmitStale(s, [], f, p);
    AppliedCons(s, [], [], f, p);
    assert Altered(s, id, patch, f) == s;
    hide Applied, Admitted, Altered;
  }

  lemma OneRead(m: Summary, f: Filters)
    requires !Matches(m, f)
    ensures ReadOf([m], f) == Read([], None, 0)
  {
    hide Matches;
    assert [m][1..] == [] && Passing([m], f) == [];
  }

  lemma OnePasses(m: Summary, f: Filters)
    requires Matches(m, f)
    ensures Passing([m], f) == [m]
  {
    hide Matches;
    assert [m][1..] == [];
  }

  lemma OneChange(m: Summary, patch: Patch)
    ensures Log([m], [Change(m.id, patch)]) && Run([m], [Change(m.id, patch)]) == [patch.Apply(m)]
  {
    var e := Change(m.id, patch);
    assert [e][1..] == [] && [m][0].id in IdsOf([m]);
    assert Changed([m], m.id, patch) == [patch.Apply(m)];
    assert Run([m], [e]) == Run([patch.Apply(m)], []);
  }

  lemma NothingInRead(id: Id, patch: Patch, read: set<Id>)
    ensures LastInRead([Change(id, patch)], read) == -1
  {
    assert [Change(id, patch)][..0] == [];
  }

  lemma NotExact(s: Shown, rows: seq<Summary>, f: Filters)
    requires |Passing(rows, f)| != s.total
    ensures !Exact(s, rows, f)
  {
    hide Passing;
  }

  /**
   * In every other view it need not: of one stored message that is not in the
   * view when the page is read, a change takes it there, and the list neither
   * shows nor counts it.
   */
  lemma ChangeMissed(f: Filters, p: Pending) returns (m: Summary, e: Event)
    requires Changeable(f)
    ensures Log([m], [e]) && ReadOf([m], f) == Read([], None, 0)
    ensures var out := Replayed(ReadOf([m], f), [e], f, p);
            out == Shown(Loaded([], None, {}), 0) && |Passing(Run([m], [e]), f)| == 1 && !Exact(out, Run([m], [e]), f)
  {
    hide Matches, Applied, Passing, Kept, Exact, Log, Run, ReadOf, LastInRead, Changeable, IdsOf;
    var patch;
    m, patch := ChangeableByOne(f);
    e := Change(m.id, patch);
    OneRead(m, f);
    OneChange(m, patch);
    OnePasses(patch.Apply(m), f);
    NothingInRead(m.id, patch, IdsOf([]));
    KeptAll([e], -1);
    NothingToAlter(m.id, patch, f, p);
    NotExact(Shown(Loaded([], None, {}), 0), [patch.Apply(m)], f);
  }

  // ---------- The inbox ----------

  function ShownBy(inbox: Inbox): Shown
    reads inbox
  {
    Shown(inbox.Now(), inbox.storedTotal)
  }

  function PendingIn(inbox: Inbox): Pending
    reads inbox
  {
    Pending(inbox.undoableId, inbox.hiddenIds)
  }

  lemma LoadedIds(positions: map<Id, int>, head: int, rows: seq<Summary>)
    requires Indexes(positions, head, rows)
    ensures positions.Keys == IdsOf(rows)
  {
  }

  /** One run of arrivals, with the reader at the top. */
  method Admit(inbox: Inbox, arrivals: seq<Summary>)
    requires inbox.Valid() && !inbox.liveHeld
    modifies inbox
    ensures inbox.Valid() && !inbox.liveHeld && inbox.filters == old(inbox.filters)
    ensures PendingIn(inbox) == old(PendingIn(inbox))
    ensures ShownBy(inbox) == Admitted(old(ShownBy(inbox)), arrivals, inbox.filters, PendingIn(inbox))
  {
    hide Indexes, FreshOf, Arrived, IdsOf;
    LoadedIds(inbox.positions, inbox.headPosition, inbox.messages);
    NoIds(inbox.heldRows, 0);
    assert inbox.heldRows[0..0] == inbox.heldRows;
    assert inbox.KnownIds() == IdsOf(inbox.messages);
    var newest := inbox.AdmitArrivals(arrivals, false);
  }

  /** One change, with the reader at the top. */
  method Alter(inbox: Inbox, id: Id, patch: Patch)
    requires inbox.Valid() && !inbox.liveHeld
    modifies inbox
    ensures inbox.Valid() && !inbox.liveHeld && inbox.filters == old(inbox.filters)
    ensures PendingIn(inbox) == old(PendingIn(inbox))
    ensures ShownBy(inbox) == Altered(old(ShownBy(inbox)), id, patch, inbox.filters)
  {
    hide Indexes, Matches;
    inbox.PatchMessage(id, patch);
  }

  /** Applies events in order, each run of arrivals at once. */
  method ApplyEvents(inbox: Inbox, events: seq<Event>)
    requires inbox.Valid() && !inbox.liveHeld
    modifies inbox
    ensures inbox.Valid() && !inbox.liveHeld && inbox.filters == old(inbox.filters)
    ensures PendingIn(inbox) == old(PendingIn(inbox))
    ensures ShownBy(inbox) == Applied(old(ShownBy(inbox)), [], events, inbox.filters, PendingIn(inbox))
  {
    hide Admitted, Altered, Applied, Inbox.Valid;
    var arrivals: seq<Summary> := [];
    var i := 0;
    assert events[0..] == events;
    while i < |events|
      invariant 0 <= i <= |events|
      invariant inbox.Valid() && !inbox.liveHeld && inbox.filters == old(inbox.filters)
      invariant PendingIn(inbox) == old(PendingIn(inbox))
      invariant Applied(old(ShownBy(inbox)), [], events, inbox.filters, PendingIn(inbox)) ==
                Applied(ShownBy(inbox), arrivals, events[i..], inbox.filters, PendingIn(inbox))
    {
      AppliedCons(ShownBy(inbox), arrivals, events[i..], inbox.filters, PendingIn(inbox));
      assert events[i..][0] == events[i] && events[i..][1..] == events[i + 1..];
      match events[i] {
        case Arrival(message) =>
          arrivals := arrivals + [message];
        case Change(id, patch) =>
          Admit(inbox, arrivals);
          arrivals := [];
          Alter(inbox, id, patch);
      }
      i := i + 1;
    }
    AppliedCons(ShownBy(inbox), arrivals, events[i..], inbox.filters, PendingIn(inbox));
    Admit(inbox, arrivals);
  }

  /** Looks for the last recorded arrival that the page lists, from the end. */
  method FindLastInRead(events: seq<Event>, read: set<Id>) returns (last: int)
    ensures last == LastInRead(events, read)
  {
    last := |events| - 1;
    assert events[..|events|] == events;
    while 0 <= last && !(events[last].Arrival? && events[last].message.id in read)
      invariant -1 <= last < |events|
      invariant LastInRead(events, read) == LastInRead(events[..last + 1], read)
    {
      assert events[..last + 1][..last] == events[..last];
      last := last - 1;
    }
  }

  /** Leaves out the arrivals up to index `last`. */
  method KeepEvents(events: seq<Event>, last: int) returns (kept: seq<Event>)
    ensures kept == Kept(events, last)
  {
    hide Kept;
    kept := [];
    var i := 0;
    assert events[0..] == events;
    while i < |events|
      invariant 0 <= i <= |events|
      invariant kept + Kept(events[i..], last - i) == Kept(events, last)
    {
      assert events[i..][0] == events[i] && events[i..][1..] == events[i + 1..];
      KeptCons(events[i..], last - i);
      if last < i || !events[i].Arrival? {
        kept := kept + [events[i]];
      }
      i := i + 1;
    }
    KeptCons(events[i..], last - i);
    assert events[i..] == [] && kept + [] == kept;
  }

  /** Replays what was recorded while a read was in flight over the list it returned. */
  method ReplayEvents(inbox: Inbox, events: seq<Event>, read: set<Id>)
    requires inbox.Valid() && !inbox.liveHeld
    modifies inbox
    ensures inbox.Valid() && !inbox.liveHeld && inbox.filters == old(inbox.filters)
    ensures PendingIn(inbox) == old(PendingIn(inbox))
    ensures ShownBy(inbox) ==
            Applied(old(ShownBy(inbox)), [], Kept(events, LastInRead(events, read)), inbox.filters, PendingIn(inbox))
  {
    hide Applied, Inbox.Valid, Kept, LastInRead;
    var last := FindLastInRead(events, read);
    var kept := KeepEvents(events, last);
    ApplyEvents(inbox, kept);
  }

  /**
   * A first-page read lands with the reader at the top. `rows` is what the
   * server held when the recording began; it took the page between `before`
   * and `after`.
   */
  method LandFirstPage(inbox: Inbox, read: Read, events: seq<Event>, ghost rows: seq<Summary>,
                       ghost before: seq<Event>, ghost after: seq<Event>)
    requires inbox.Valid() && !inbox.liveHeld
    requires Descending(rows) && Log(rows, events) && events == before + after
    requires read == ReadOf(Run(rows, before), inbox.filters)
    modifies inbox
    ensures inbox.Valid() && !inbox.liveHeld && inbox.filters == old(inbox.filters)
    ensures ShownBy(inbox) == Replayed(read, events, inbox.filters, PendingIn(inbox))
    ensures !Changeable(inbox.filters) ==> Exact(ShownBy(inbox), Run(rows, events), inbox.filters)
  {
    RunConcat(rows, before, after);
    PageSettled(rows, before, inbox.filters);
    if !Changeable(inbox.filters) {
      LandsExact(rows, before, after, inbox.filters, PendingIn(inbox));
    }
    hide *;
    inbox.LandTopPage(read.page, read.cursor, read.total);
    ReplayEvents(inbox, events, IdsOf(read.page));
  }
}
