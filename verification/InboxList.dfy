/**
 * The rows the web inbox keeps loaded, as values. Messages are named by their
 * place in the server's arrival order; the client compares names for equality
 * only.
 */
module InboxList {
  import opened Helpers

  type Id = nat

  datatype Summary = Summary(id: Id, isRead: bool, isStarred: bool, hasAttachments: bool, tags: seq<string>)

  datatype Filters = Filters(starred: bool, unread: bool, attachments: bool, tags: seq<string>)

  predicate Matches(m: Summary, f: Filters) {
    && (f.starred ==> m.isStarred) && (f.unread ==> !m.isRead) && (f.attachments ==> m.hasAttachments)
    && (f.tags != [] ==> exists i :: 0 <= i < |f.tags| && f.tags[i] in m.tags)
  }

  predicate Narrows(f: Filters) {
    f.starred || f.unread || f.attachments || f.tags != []
  }

  /** No filter leaves nothing out, and each one asks for one thing more of a message; of several tags any will do. */
  lemma EachFilterAsks(m: Summary, f: Filters, tag: string)
    ensures Matches(m, Filters(false, false, false, []))
    ensures Matches(m, f.(starred := true)) <==> Matches(m, f.(starred := false)) && m.isStarred
    ensures Matches(m, f.(unread := true)) <==> Matches(m, f.(unread := false)) && !m.isRead
    ensures Matches(m, f.(attachments := true)) <==> Matches(m, f.(attachments := false)) && m.hasAttachments
    ensures Matches(m, f.(tags := [tag])) <==> Matches(m, f.(tags := [])) && tag in m.tags
    ensures f.tags != [] ==>
              (Matches(m, f.(tags := f.tags + [tag])) <==> Matches(m, f) || Matches(m, f.(tags := [tag])))
  {
    assert [tag][0] == tag;
    var more := f.tags + [tag];
    assert more[|f.tags|] == tag;
    assert forall i :: 0 <= i < |f.tags| ==> more[i] == f.tags[i];
  }

  /** Filters narrow a list exactly if there is a message they leave out. */
  lemma NarrowsIff(f: Filters)
    ensures Narrows(f) <==> exists m :: !Matches(m, f)
  {
    assert Narrows(f) ==> !Matches(Summary(0, f.unread, false, false, []), f);
  }

  const PAGE_SIZE := 100
  const MAX_LIVE_ROWS := 5 * PAGE_SIZE

  /** Newest first, and so without duplicates. */
  predicate Descending(rows: seq<Summary>) {
    forall i, j :: 0 <= i < j < |rows| ==> rows[j].id < rows[i].id
  }

  /** No message twice. */
  predicate Distinct(rows: seq<Summary>) {
    forall i, j :: 0 <= i < j < |rows| ==> rows[i].id != rows[j].id
  }

  predicate Ascending(rows: seq<Summary>) {
    forall i, j :: 0 <= i < j < |rows| ==> rows[i].id < rows[j].id
  }

  predicate AllNewer(newer: seq<Summary>, rows: seq<Summary>) {
    forall i, j :: 0 <= i < |newer| && 0 <= j < |rows| ==> rows[j].id < newer[i].id
  }

  /** Linear search: the index of the row with `id`, or -1. */
  function IndexOf(rows: seq<Summary>, id: Id): (index: int)
    ensures -1 <= index < |rows|
    ensures 0 <= index ==> rows[index].id == id
    ensures forall i :: 0 <= i < (if index < 0 then |rows| else index) ==> rows[i].id != id
  {
    if rows == [] then -1
    else if rows[0].id == id then 0
    else
      var later := IndexOf(rows[1..], id);
      if later < 0 then -1 else later + 1
  }

  function Without(rows: seq<Summary>, id: Id): seq<Summary> {
    var index := IndexOf(rows, id);
    if index < 0 then rows else rows[..index] + rows[index + 1..]
  }

  function IdsOf(rows: seq<Summary>): set<Id> {
    set i | 0 <= i < |rows| :: rows[i].id
  }

  /** `rows` without those among `loaded`. */
  function Unseen(rows: seq<Summary>, loaded: set<Id>): seq<Summary> {
    if rows == [] then []
    else
      var n := |rows| - 1;
      Unseen(rows[..n], loaded) + (if rows[n].id in loaded then [] else [rows[n]])
  }

  /** The loaded list, where its next older page starts, and the rows awaiting deletion it let go. */
  datatype Loaded = Loaded(rows: seq<Summary>, cursor: Option<Id>, letGo: set<Id>)

  function LastId(rows: seq<Summary>): Option<Id> {
    if rows == [] then None else Some(rows[|rows| - 1].id)
  }

  /** Where a trim cuts: at the cap, or below the undoable row if that lies deeper. */
  function Kept(rows: seq<Summary>, undoable: Option<Id>): nat {
    var through := if undoable.None? then 0 else IndexOf(rows, undoable.value) + 1;
    if through <= MAX_LIVE_ROWS then MAX_LIVE_ROWS else through
  }

  function Trimmed(l: Loaded, undoable: Option<Id>, hidden: set<Id>): Loaded {
    var keep := Kept(l.rows, undoable);
    if |l.rows| <= keep then l
    else Loaded(l.rows[..keep], Some(l.rows[keep - 1].id), l.letGo + IdsOf(l.rows[keep..]) * hidden)
  }

  /** Puts `newest`, newest first, on top and lets the oldest rows go. */
  function Arrived(l: Loaded, newest: seq<Summary>, undoable: Option<Id>, hidden: set<Id>): Loaded {
    Trimmed(l.(rows := newest + l.rows), undoable, hidden)
  }

  /**
   * The arrivals to show, newest first: the latest copy of each that is
   * neither known nor filtered out.
   */
  function FreshOf(arrivals: seq<Summary>, known: set<Id>, f: Filters): seq<Summary> {
    if arrivals == [] then []
    else
      var n := |arrivals| - 1;
      var a := arrivals[n];
      if a.id in known then FreshOf(arrivals[..n], known, f)
      else (if Matches(a, f) then [a] else []) + FreshOf(arrivals[..n], known + {a.id}, f)
  }

  /** No message is announced before an older one, though one may be announced twice. */
  predicate InCommitOrder(arrivals: seq<Summary>) {
    forall i, j :: 0 <= i < j < |arrivals| ==> arrivals[i].id <= arrivals[j].id
  }

  predicate NewOrKnown(arrivals: seq<Summary>, known: set<Id>, rows: seq<Summary>) {
    forall i, j :: 0 <= i < |arrivals| && arrivals[i].id !in known && 0 <= j < |rows| ==> rows[j].id < arrivals[i].id
  }

  // ---------- Lemmas ----------

  lemma IndexOfAt(rows: seq<Summary>, i: nat)
    requires Distinct(rows) && i < |rows|
    ensures IndexOf(rows, rows[i].id) == i
  {
  }

  lemma WithoutAt(rows: seq<Summary>, id: Id, i: nat)
    requires i < |Without(rows, id)|
    ensures Without(rows, id)[i] == rows[if 0 <= IndexOf(rows, id) <= i then i + 1 else i]
  {
    hide IndexOf;
    var index := IndexOf(rows, id);
    if 0 <= index {
      var less := rows[..index] + rows[index + 1..];
      assert less[i] == if i < index then rows[..index][i] else rows[index + 1..][i - index];
    }
  }

  lemma WithoutKeepsOrder(rows: seq<Summary>, id: Id)
    requires Descending(rows)
    ensures Descending(Without(rows, id))
    ensures forall i :: 0 <= i < |Without(rows, id)| ==> Without(rows, id)[i].id != id && Without(rows, id)[i] in rows
  {
    var index := IndexOf(rows, id);
    if 0 <= index {
      Skipping(rows, index);
      assert Without(rows, id) == rows[..index] + rows[index + 1..];
    }
  }

  /** A list in order stays in order, and loses only that row, without one of its rows. */
  lemma Skipping(rows: seq<Summary>, at: nat)
    requires Descending(rows) && at < |rows|
    ensures var out := rows[..at] + rows[at + 1..];
            Descending(out) && forall i :: 0 <= i < |out| ==> out[i].id != rows[at].id && out[i] in rows
  {
    var out := rows[..at] + rows[at + 1..];
    forall i | 0 <= i < |out| ensures out[i].id != rows[at].id && out[i] in rows {
      var k := if i < at then i else i + 1;
      assert out[i] == rows[k];
    }
  }

  lemma WithoutKeepsDistinct(rows: seq<Summary>, id: Id)
    requires Distinct(rows)
    ensures Distinct(Without(rows, id))
  {
    forall i, j | 0 <= i < j < |Without(rows, id)| ensures Without(rows, id)[i].id != Without(rows, id)[j].id {
      WithoutAt(rows, id, i);
      WithoutAt(rows, id, j);
    }
    hide Without;
  }

  /** What was not loaded comes in order and once. */
  lemma {:induction false} UnseenOnce(rows: seq<Summary>, loaded: set<Id>)
    requires Distinct(rows)
    ensures Distinct(Unseen(rows, loaded))
    ensures forall m :: m in Unseen(rows, loaded) <==> m in rows && m.id !in loaded
  {
    if rows != [] {
      var n := |rows| - 1;
      var less := Unseen(rows[..n], loaded);
      UnseenOnce(rows[..n], loaded);
      assert rows == rows[..n] + [rows[n]];
      forall i | 0 <= i < |less| ensures less[i].id != rows[n].id {
        assert less[i] in rows[..n];
      }
    }
  }

  lemma {:induction false} UnseenAll(rows: seq<Summary>, loaded: set<Id>)
    requires forall i :: 0 <= i < |rows| ==> rows[i].id !in loaded
    ensures Unseen(rows, loaded) == rows
  {
    if rows != [] {
      UnseenAll(rows[..|rows| - 1], loaded);
    }
  }

  /** Fresh arrivals are none of them known, and none twice. */
  lemma {:induction false} FreshOnce(arrivals: seq<Summary>, known: set<Id>, f: Filters)
    ensures Distinct(FreshOf(arrivals, known, f))
    ensures forall m :: m in FreshOf(arrivals, known, f) ==> m in arrivals && m.id !in known && Matches(m, f)
  {
    if arrivals != [] {
      var n := |arrivals| - 1;
      var a := arrivals[n];
      FreshOnce(arrivals[..n], if a.id in known then known else known + {a.id}, f);
    }
  }

  /** Fresh arrivals rise above all that is loaded, newest first, and are those announced, unknown and wanted. */
  lemma {:induction false} FreshDescends(arrivals: seq<Summary>, known: set<Id>, f: Filters, rows: seq<Summary>)
    requires InCommitOrder(arrivals) && NewOrKnown(arrivals, known, rows)
    ensures var newest := FreshOf(arrivals, known, f);
            && Descending(newest) && AllNewer(newest, rows)
            && (forall i :: 0 <= i < |newest| ==>
                 newest[i] in arrivals && newest[i].id !in known && Matches(newest[i], f))
  {
    if arrivals != [] {
      var n := |arrivals| - 1;
      var a := arrivals[n];
      if a.id in known {
        FreshDescends(arrivals[..n], known, f, rows);
      } else {
        FreshDescends(arrivals[..n], known + {a.id}, f, rows);
        var older := FreshOf(arrivals[..n], known + {a.id}, f);
        forall i | 0 <= i < |older| ensures older[i].id < a.id {
          assert older[i] in arrivals[..n] && older[i].id != a.id;
        }
      }
    }
  }

  /** An announced message that is neither known nor shown was filtered out. */
  lemma {:induction false} FreshMissesNone(arrivals: seq<Summary>, known: set<Id>, f: Filters, i: nat)
    requires i < |arrivals| && arrivals[i].id !in known
    requires forall j :: i < j < |arrivals| ==> arrivals[j].id != arrivals[i].id
    ensures arrivals[i] in FreshOf(arrivals, known, f) <==> Matches(arrivals[i], f)
  {
    var n := |arrivals| - 1;
    var a := arrivals[n];
    if i < n {
      assert arrivals[i] != a;
      FreshMissesNone(arrivals[..n], if a.id in known then known else known + {a.id}, f, i);
    } else {
      FreshSkipsKnown(arrivals[..n], known + {a.id}, f);
    }
  }

  lemma FreshNone(known: set<Id>, f: Filters)
    ensures FreshOf([], known, f) == []
  {
  }

  lemma FreshStep(arrivals: seq<Summary>, known: set<Id>, f: Filters)
    requires arrivals != []
    ensures var n := |arrivals| - 1;
            FreshOf(arrivals, known, f) ==
            if arrivals[n].id in known then FreshOf(arrivals[..n], known, f)
            else
              (if Matches(arrivals[n], f) then [arrivals[n]] else []) +
              FreshOf(arrivals[..n], known + {arrivals[n].id}, f)
  {
  }

  /** Knowing messages that are not announced makes no difference. */
  lemma {:induction false} FreshAgrees(arrivals: seq<Summary>, known: set<Id>, also: set<Id>, f: Filters)
    requires forall i :: 0 <= i < |arrivals| ==> (arrivals[i].id in known <==> arrivals[i].id in also)
    ensures FreshOf(arrivals, known, f) == FreshOf(arrivals, also, f)
  {
    if arrivals != [] {
      var n := |arrivals| - 1;
      var a := arrivals[n];
      if a.id in known {
        FreshAgrees(arrivals[..n], known, also, f);
      } else {
        FreshAgrees(arrivals[..n], known + {a.id}, also + {a.id}, f);
      }
    }
  }

  /**
   * Of two runs of arrivals that share no message, admitted in turn, the fresh
   * ones are those of the two runs admitted as one.
   */
  lemma {:induction false} FreshInSteps(older: seq<Summary>, newer: seq<Summary>, known: set<Id>, next: set<Id>,
                                        f: Filters)
    requires forall i, j :: 0 <= i < |older| && 0 <= j < |newer| ==> older[i].id != newer[j].id
    requires forall j :: 0 <= j < |newer| ==> (newer[j].id in known <==> newer[j].id in next)
    ensures FreshOf(older + newer, known, f) == FreshOf(newer, next, f) + FreshOf(older, known, f)
    decreases |newer|
  {
    hide FreshOf, Matches;
    if newer == [] {
      assert older + newer == older;
      FreshNone(next, f);
    } else {
      var n := |newer| - 1;
      var a := newer[n];
      FreshStep(newer, next, f);
      FreshStep(older + newer, known, f);
      assert (older + newer)[..|older| + n] == older + newer[..n];
      if a.id in known {
        FreshInSteps(older, newer[..n], known, next, f);
      } else {
        FreshInSteps(older, newer[..n], known + {a.id}, next + {a.id}, f);
        FreshAgrees(older, known, known + {a.id}, f);
      }
    }
  }

  lemma {:induction false} FreshSkipsKnown(arrivals: seq<Summary>, known: set<Id>, f: Filters)
    ensures forall m :: m in FreshOf(arrivals, known, f) ==> m.id !in known
  {
    if arrivals != [] {
      var n := |arrivals| - 1;
      var a := arrivals[n];
      FreshSkipsKnown(arrivals[..n], if a.id in known then known else known + {a.id}, f);
    }
  }

  /**
   * A run of arrivals admitted at once shows, holds and counts what admitting
   * its parts in turn does. `next` is what is known once the older part is in.
   */
  lemma AdmitInSteps(l: Loaded, older: seq<Summary>, newer: seq<Summary>, known: set<Id>, next: set<Id>, f: Filters,
                     undoable: Option<Id>, hidden: set<Id>)
    requires undoable.Some? ==> undoable.value !in IdsOf(newer)
    requires forall i, j :: 0 <= i < |older| && 0 <= j < |newer| ==> older[i].id != newer[j].id
    requires forall j :: 0 <= j < |newer| ==> (newer[j].id in known <==> newer[j].id in next)
    ensures var first, second := FreshOf(older, known, f), FreshOf(newer, next, f);
            var all := FreshOf(older + newer, known, f);
            && Arrived(Arrived(l, first, undoable, hidden), second, undoable, hidden) ==
               Arrived(l, all, undoable, hidden)
            && Reversed(all) == Reversed(first) + Reversed(second)
            && |all| == |first| + |second|
  {
    FreshInSteps(older, newer, known, next, f);
    FreshOnce(newer, next, f);
    var first, second := FreshOf(older, known, f), FreshOf(newer, next, f);
    assert undoable.Some? ==> undoable.value !in IdsOf(second) by {
      forall i | 0 <= i < |second| ensures second[i].id in IdsOf(newer) {
        assert second[i] in newer;
      }
    }
    PrependInSteps(l, first, second, undoable, hidden);
  }

  /** Rows put on top at once leave the list that putting them there in turn does. */
  lemma PrependInSteps(l: Loaded, older: seq<Summary>, newer: seq<Summary>, undoable: Option<Id>, hidden: set<Id>)
    requires undoable.Some? ==> undoable.value !in IdsOf(newer)
    ensures Arrived(Arrived(l, older, undoable, hidden), newer, undoable, hidden)
         == Arrived(l, newer + older, undoable, hidden)
  {
    hide Kept, IndexOf, IdsOf;
    var rows := older + l.rows;
    var all := newer + rows;
    assert newer + older + l.rows == all;
    KeptGrows(newer, rows, undoable);
    var keep := Kept(rows, undoable);
    if keep < |rows| {
      var cut := |newer| + keep;
      assert newer + rows[..keep] == all[..cut] && all[cut..] == rows[keep..] && all[cut - 1] == rows[keep - 1];
      TrimTwice(l.(rows := all), cut, undoable, hidden);
    }
  }

  /** A trim keeps the newest rows, as many as the cap, and the undoable row where it is. */
  lemma TrimBounds(l: Loaded, undoable: Option<Id>, hidden: set<Id>)
    requires l.cursor.Some? ==> l.cursor == LastId(l.rows)
    ensures var t := Trimmed(l, undoable, hidden);
            && t.rows <= l.rows
            && (|l.rows| <= MAX_LIVE_ROWS ==> t == l)
            && (undoable.Some? ==> IndexOf(t.rows, undoable.value) == IndexOf(l.rows, undoable.value))
            && (t.cursor.Some? ==> t.cursor == LastId(t.rows))
            && (|t.rows| < |l.rows| ==> t.cursor.Some?) && (t.cursor.None? ==> t == l)
            && |t.rows| <= (if undoable.Some? && MAX_LIVE_ROWS <= IndexOf(l.rows, undoable.value)
                            then IndexOf(l.rows, undoable.value) + 1 else MAX_LIVE_ROWS)
  {
    if undoable.Some? && |Trimmed(l, undoable, hidden).rows| < |l.rows| {
      IndexOfCut(l.rows, Kept(l.rows, undoable), undoable.value);
    }
  }

  lemma KeptGrows(newer: seq<Summary>, rows: seq<Summary>, undoable: Option<Id>)
    requires undoable.Some? ==> undoable.value !in IdsOf(newer)
    ensures 0 < Kept(rows, undoable) && Kept(newer + rows, undoable) <= |newer| + Kept(rows, undoable)
  {
    if undoable.Some? {
      KeptShifts(newer, rows, undoable.value);
    }
  }

  lemma KeptShifts(newer: seq<Summary>, rows: seq<Summary>, id: Id)
    requires id !in IdsOf(newer)
    ensures IndexOf(newer + rows, id) == if IndexOf(rows, id) < 0 then -1 else |newer| + IndexOf(rows, id)
  {
    var all := newer + rows;
    var k := IndexOf(rows, id);
    assert forall i :: 0 <= i < |newer| ==> newer[i].id in IdsOf(newer);
    assert forall i :: 0 <= i < |all| ==> all[i] == if i < |newer| then newer[i] else rows[i - |newer|];
    if 0 <= k {
      assert all[|newer| + k].id == id;
    }
  }

  lemma IndexOfCut(rows: seq<Summary>, n: nat, id: Id)
    requires n <= |rows|
    ensures IndexOf(rows[..n], id) == if IndexOf(rows, id) < n then IndexOf(rows, id) else -1
  {
    var a, b := IndexOf(rows[..n], id), IndexOf(rows, id);
    if 0 <= a {
      assert rows[a].id == id;
    }
    if 0 <= b < n {
      assert rows[..n][b].id == id;
    }
  }

  /** Trimming what an earlier, more generous cut left. */
  lemma TrimTwice(l: Loaded, cut: nat, undoable: Option<Id>, hidden: set<Id>)
    requires Kept(l.rows, undoable) <= cut <= |l.rows|
    ensures var once := Loaded(l.rows[..cut], if cut < |l.rows| then Some(l.rows[cut - 1].id) else l.cursor,
                               l.letGo + IdsOf(l.rows[cut..]) * hidden);
            Trimmed(once, undoable, hidden) == Trimmed(l, undoable, hidden)
  {
    var keep := Kept(l.rows, undoable);
    if undoable.Some? {
      IndexOfCut(l.rows, cut, undoable.value);
    }
    assert Kept(l.rows[..cut], undoable) == keep;
    assert l.rows[..cut][..keep] == l.rows[..keep];
    IdsSplit(l.rows, keep, cut);
    assert IdsOf(l.rows[|l.rows|..]) == {};
    assert l.letGo + {} * hidden == l.letGo;
    assert l.letGo + IdsOf(l.rows[cut..]) * hidden + IdsOf(l.rows[..cut][keep..]) * hidden
        == l.letGo + IdsOf(l.rows[keep..]) * hidden;
  }

  lemma IdsSplit(rows: seq<Summary>, keep: nat, cut: nat)
    requires keep <= cut <= |rows|
    ensures IdsOf(rows[keep..]) == IdsOf(rows[..cut][keep..]) + IdsOf(rows[cut..])
  {
    forall x | x in IdsOf(rows[keep..]) ensures x in IdsOf(rows[..cut][keep..]) + IdsOf(rows[cut..]) {
      var i :| keep <= i < |rows| && rows[i].id == x && rows[keep..][i - keep].id == x;
      if i < cut {
        assert rows[..cut][keep..][i - keep].id == x;
      } else {
        assert rows[cut..][i - cut].id == x;
      }
    }
    forall x | x in IdsOf(rows[..cut][keep..]) ensures x in IdsOf(rows[keep..]) {
      var i :| 0 <= i < cut - keep && rows[..cut][keep..][i].id == x;
      assert rows[keep..][i].id == x;
    }
    forall x | x in IdsOf(rows[cut..]) ensures x in IdsOf(rows[keep..]) {
      var i :| 0 <= i < |rows| - cut && rows[cut..][i].id == x;
      assert rows[keep..][i + cut - keep].id == x;
    }
  }
}
