/**
 * Counting deletions in the web inbox. A deletion is confirmed by the answer
 * to its request and by a live event, in either order, while the undo window,
 * reads of the count, other clients and a cleared inbox go on around it.
 */
module InboxDeletions {
  import opened Helpers
  import opened InboxList

  /** What is remembered of a deletion: which count and which clear preceded it, and whether it was confirmed. */
  datatype Issued = Issued(snapshot: nat, clearRevision: nat, confirmed: bool)

  datatype Outcome = Undecided | Succeeded | Failed

  /** A DELETE in flight, and what the server made of it. */
  datatype Request = Request(id: Id, outcome: Outcome)

  /** Whether the total counts a message, as far as the list can tell. */
  datatype Counted = Yes | No | OnlyServerKnows

  /** What the list shows: the matches of a search, or the messages that pass the filters. */
  datatype View = View(searching: bool, filters: Filters)

  const WHOLE_INBOX := View(false, Filters(false, false, false, []))

  /**
   * The filters decide for a message the list has. Any other is in the total
   * of the whole inbox, and is anyone's guess in a narrower view.
   */
  function CountedInTotal(row: Option<Summary>, view: View): Counted {
    if row.Some? then (if Matches(row.value, view.filters) then Yes else No)
    else if view.searching || Narrows(view.filters) then OnlyServerKnows
    else Yes
  }

  /** A read of the count, and what it will be compared with once it lands. */
  datatype CountRead = CountRead(request: nat, snapshot: nat, revision: nat)

  datatype ReadInFlight = ReadInFlight(read: CountRead, began: nat)

  /** What happened to the count, in order. */
  datatype Step = Issue(id: Id) | Confirm(id: Id) | Decrement(id: Id, tracked: bool) | NewCount | Cleared

  function Decrements(history: seq<Step>, id: Id): nat {
    if history == [] then 0
    else
      var n := |history| - 1;
      Decrements(history[..n], id) + (if history[n].Decrement? && history[n].id == id then 1 else 0)
  }

  /** Whether no count was taken from the server, and the inbox not cleared, from step `from` on. */
  predicate SameCount(history: seq<Step>, from: nat) {
    forall k :: from <= k < |history| ==> !history[k].NewCount? && !history[k].Cleared?
  }

  /**
   * A tracked deletion is counted only against the count it was issued
   * against: no newer count and no clear lie between.
   */
  ghost predicate CountedInTime(history: seq<Step>) {
    forall k :: 0 <= k < |history| && history[k].Decrement? && history[k].tracked ==>
      exists j :: 0 <= j < k && history[j] == Issue(history[k].id) && SameCount(history[..k], j)
  }

  lemma DecrementsSnoc(history: seq<Step>, s: Step, id: Id)
    ensures Decrements(history + [s], id) == Decrements(history, id) + (if s.Decrement? && s.id == id then 1 else 0)
  {
    assert (history + [s])[..|history|] == history;
  }

  lemma CountedInTimeSnoc(history: seq<Step>, s: Step)
    requires CountedInTime(history)
    requires s.Decrement? && s.tracked ==>
               exists j :: 0 <= j < |history| && history[j] == Issue(s.id) && SameCount(history, j)
    ensures CountedInTime(history + [s])
  {
    var more := history + [s];
    forall k | 0 <= k < |more| && more[k].Decrement? && more[k].tracked
      ensures exists j :: 0 <= j < k && more[j] == Issue(more[k].id) && SameCount(more[..k], j)
    {
      if k < |history| {
        assert more[k] == history[k] && more[..k] == history[..k];
        var j :| 0 <= j < k && history[j] == Issue(history[k].id) && SameCount(history[..k], j);
        assert more[j] == history[j];
      } else {
        assert more[..k] == history;
        var j :| 0 <= j < |history| && history[j] == Issue(s.id) && SameCount(history, j);
        assert more[j] == history[j];
      }
    }
  }

  ghost predicate Requested(requests: map<nat, Request>, id: Id) {
    exists t :: t in requests && requests[t].id == id
  }

  ghost predicate Succeeding(requests: map<nat, Request>, id: Id) {
    exists t :: t in requests && requests[t] == Request(id, Succeeded)
  }

  ghost predicate OneRequest(requests: map<nat, Request>, id: Id) {
    forall s, t :: s in requests && t in requests && requests[s].id == id && requests[t].id == id ==> s == t
  }

  ghost predicate OneSuccess(requests: map<nat, Request>, id: Id) {
    forall s, t ::
      s in requests && t in requests && requests[s] == Request(id, Succeeded) && requests[t] == requests[s] ==>
      s == t
  }

  /** Nothing about the requests for `id` differs. */
  ghost predicate SameRequests(a: map<nat, Request>, b: map<nat, Request>, id: Id) {
    && (Requested(a, id) <==> Requested(b, id)) && (Succeeding(a, id) <==> Succeeding(b, id))
    && (OneRequest(a, id) <==> OneRequest(b, id)) && (OneSuccess(a, id) <==> OneSuccess(b, id))
  }

  lemma OtherRequests(a: map<nat, Request>, b: map<nat, Request>, id: Id)
    requires forall t: nat, r: Request :: r.id == id ==> ((t in a && a[t] == r) <==> (t in b && b[t] == r))
    ensures SameRequests(a, b, id)
  {
    forall t | t in a && a[t].id == id ensures t in b && b[t] == a[t] {
    }
    forall t | t in b && b[t].id == id ensures t in a && a[t] == b[t] {
    }
  }

  lemma NewRequest(requests: map<nat, Request>, t: nat, id: Id)
    requires t !in requests
    ensures var more := requests[t := Request(id, Undecided)];
            && Requested(more, id) && (Succeeding(more, id) <==> Succeeding(requests, id))
            && (OneSuccess(requests, id) ==> OneSuccess(more, id))
            && (!Requested(requests, id) ==> OneRequest(more, id) && !Succeeding(more, id))
            && forall other :: other != id ==> SameRequests(requests, more, other)
  {
    var more := requests[t := Request(id, Undecided)];
    assert t in more && more[t].id == id;
    forall k | k in requests && requests[k] == Request(id, Succeeded) ensures Succeeding(more, id) {
      assert k in more && more[k] == Request(id, Succeeded);
    }
    forall other | other != id ensures SameRequests(requests, more, other) {
      OtherRequests(requests, more, other);
    }
  }

  lemma LessRequest(requests: map<nat, Request>, t: nat)
    requires t in requests
    ensures var id, less := requests[t].id, requests - {t};
            && Requested(requests, id) && (requests[t].outcome.Succeeded? ==> Succeeding(requests, id))
            && (OneSuccess(requests, id) ==> OneSuccess(less, id))
            && (OneSuccess(requests, id) && requests[t].outcome.Succeeded? ==> !Succeeding(less, id))
            && (!requests[t].outcome.Succeeded? ==> (Succeeding(less, id) <==> Succeeding(requests, id)))
            && (OneRequest(requests, id) ==> OneRequest(less, id) && !Requested(less, id) && !Succeeding(less, id))
            && forall other :: other != id ==> SameRequests(requests, less, other)
  {
    var id, less := requests[t].id, requests - {t};
    assert requests[t].outcome.Succeeded? ==> requests[t] == Request(id, Succeeded);
    forall k | k in requests && requests[k] == Request(id, Succeeded) && k != t ensures Succeeding(less, id) {
      assert k in less && less[k] == Request(id, Succeeded);
    }
    forall other | other != id ensures SameRequests(requests, less, other) {
      OtherRequests(requests, less, other);
    }
  }

  /** The server decides a request. */
  lemma Decided(requests: map<nat, Request>, t: nat, outcome: Outcome)
    requires t in requests && requests[t].outcome.Undecided?
    ensures var id, now := requests[t].id, requests[t := Request(requests[t].id, outcome)];
            && (Requested(now, id) <==> Requested(requests, id)) && (OneRequest(now, id) <==> OneRequest(requests, id))
            && (!outcome.Succeeded? ==>
                  && (Succeeding(now, id) <==> Succeeding(requests, id))
                  && (OneSuccess(requests, id) ==> OneSuccess(now, id)))
            && (OneRequest(requests, id) ==> (Succeeding(now, id) <==> outcome.Succeeded?))
            && forall other :: other != id ==> SameRequests(requests, now, other)
  {
    var id, now := requests[t].id, requests[t := Request(requests[t].id, outcome)];
    assert t in now && now[t].id == id;
    forall k | k in requests && requests[k] == Request(id, Succeeded) ensures Succeeding(now, id) {
      assert k in now && now[k] == Request(id, Succeeded);
    }
    assert outcome.Succeeded? ==> now[t] == Request(id, Succeeded);
    forall k | k in now && now[k].id == id ensures k in requests && requests[k].id == id {
    }
    forall other | other != id ensures SameRequests(requests, now, other) {
      OtherRequests(requests, now, other);
    }
  }

  lemma SameCountSnoc(history: seq<Step>, s: Step)
    requires !s.NewCount? && !s.Cleared?
    ensures forall from :: SameCount(history, from) ==> SameCount(history + [s], from)
    ensures SameCount(history + [s], |history|)
  {
  }

  /** What the server holds, and what is under way to the client. */
  datatype World = World(present: set<Id>, events: set<Id>, requests: map<nat, Request>, nextToken: nat)

  /** How many confirmations of the deletion of `id` may still arrive. */
  ghost function Due(w: World, id: Id): nat {
    if id in w.present then 2
    else (if id in w.events then 1 else 0) + (if Succeeding(w.requests, id) then 1 else 0)
  }

  /** Too little is still to come for `id` to be counted twice, whatever is remembered of it. */
  ghost predicate Spent(w: World, history: seq<Step>, id: Id) {
    Decrements(history, id) + Due(w, id) <= 1 && OneSuccess(w.requests, id)
  }

  /** What is remembered of `id` keeps it from being counted twice. */
  ghost predicate Guarded(w: World, history: seq<Step>, issued: map<Id, Issued>, id: Id) {
    var d := Decrements(history, id);
    && OneRequest(w.requests, id)
    && (id in w.present ==> d == 0 && id !in w.events && !Succeeding(w.requests, id))
    && (id !in issued ==> !Requested(w.requests, id) && d + (if id in w.events then 1 else 0) <= 1)
    && (id in issued && !issued[id].confirmed ==>
          Requested(w.requests, id) && d <= 1 && (d == 1 ==> id !in w.events && !Succeeding(w.requests, id)))
    && (id in issued && issued[id].confirmed ==>
          d <= 1 && id !in w.present && (Requested(w.requests, id) ==> id !in w.events))
  }

  ghost predicate OnceFor(w: World, history: seq<Step>, issued: map<Id, Issued>, id: Id) {
    Spent(w, history, id) || Guarded(w, history, issued, id)
  }

  /** No message is counted out twice but, perhaps, those in `exposed`. */
  ghost predicate Once(w: World, history: seq<Step>, issued: map<Id, Issued>, exposed: set<Id>) {
    forall id :: id !in exposed ==> OnceFor(w, history, issued, id)
  }

  /** What a confirmation of `id` finds, just taken off its way. */
  ghost predicate Confirmable(w: World, history: seq<Step>, issued: map<Id, Issued>, exposed: set<Id>, id: Id) {
    && (forall other :: other != id && other !in exposed ==> OnceFor(w, history, issued, other))
    && (id !in exposed ==>
          && id !in w.present
          && (LastConfirmation(w, history, id) || GuardedConfirmation(w, history, issued, id)))
  }

  /** `id` was not counted, and nothing more is to come. */
  ghost predicate LastConfirmation(w: World, history: seq<Step>, id: Id) {
    Decrements(history, id) == 0 && id !in w.events && !Succeeding(w.requests, id)
  }

  ghost predicate GuardedConfirmation(w: World, history: seq<Step>, issued: map<Id, Issued>, id: Id) {
    var d := Decrements(history, id);
    && OneRequest(w.requests, id)
    && (id !in issued ==> d == 0 && !Requested(w.requests, id) && id !in w.events)
    && (id in issued && !issued[id].confirmed ==> d == 0 && (Requested(w.requests, id) ==> id !in w.events))
    && (id in issued && issued[id].confirmed ==> d <= 1 && !Requested(w.requests, id) && id !in w.events)
  }

  /** `more` counts `id` out `n` more times than `history`, and no other message. */
  ghost predicate CountsMore(history: seq<Step>, more: seq<Step>, id: Id, n: nat) {
    forall other :: Decrements(more, other) == Decrements(history, other) + (if other == id then n else 0)
  }

  /** Each tracked deletion remembers the count it was issued against. */
  ghost predicate Stamped(issued: map<Id, Issued>, at: map<Id, nat>, history: seq<Step>, snapshot: nat,
                          clearRevision: nat) {
    && at.Keys == issued.Keys
    && forall id :: id in issued ==>
         && at[id] < |history| && history[at[id]] == Issue(id)
         && issued[id].snapshot <= snapshot && issued[id].clearRevision <= clearRevision
         && (issued[id].snapshot == snapshot && issued[id].clearRevision == clearRevision ==>
              SameCount(history, at[id]))
  }

  /**
   * A read under the current revision began after the last deletion was
   * confirmed, and one under the current count after it was taken.
   */
  ghost predicate ReadsInOrder(pending: set<ReadInFlight>, history: seq<Step>, snapshot: nat, revision: nat,
                               latest: nat, confirmedAt: nat) {
    forall r :: r in pending ==>
      && r.read.snapshot <= snapshot && r.read.revision <= revision && r.read.request <= latest
      && (r.read.revision == revision ==> confirmedAt <= r.began)
      && (r.read.snapshot == snapshot ==> SameCount(history, r.began))
  }

  // ---------- Keeping the books ----------

  lemma IssueKeepsOnce(w: World, history: seq<Step>, more: seq<Step>, issued: map<Id, Issued>, exposed: set<Id>,
                       id: Id, entry: Issued)
    requires Once(w, history, issued, exposed) && (id in exposed || id !in issued || Spent(w, history, id))
    requires !entry.confirmed && w.nextToken !in w.requests && CountsMore(history, more, id, 0)
    ensures Once(w.(requests := w.requests[w.nextToken := Request(id, Undecided)], nextToken := w.nextToken + 1),
                 more, issued[id := entry], exposed)
  {
    hide Decrements, Requested, Succeeding, OneRequest, OneSuccess;
    var x := w.(requests := w.requests[w.nextToken := Request(id, Undecided)], nextToken := w.nextToken + 1);
    NewRequest(w.requests, w.nextToken, id);
    var now := issued[id := entry];
    forall other | other !in exposed ensures OnceFor(x, more, now, other) {
      assert OnceFor(w, history, issued, other) && Decrements(more, other) == Decrements(history, other);
      assert other != id ==> SameRequests(w.requests, x.requests, other);
    }
  }

  /** Promising nothing of one more message. */
  lemma ExposeMore(w: World, history: seq<Step>, issued: map<Id, Issued>, exposed: set<Id>, id: Id)
    requires Once(w, history, issued, exposed)
    ensures Once(w, history, issued, exposed + {id})
  {
  }

  lemma ConfirmKeepsOnce(w: World, history: seq<Step>, more: seq<Step>, issued: map<Id, Issued>, exposed: set<Id>,
                         id: Id, n: nat)
    requires Confirmable(w, history, issued, exposed, id) && CountsMore(history, more, id, n) && n <= 1
    requires id in issued ==> !issued[id].confirmed
    ensures Once(w, more, if id in issued then issued[id := issued[id].(confirmed := true)] else issued, exposed)
  {
    hide Decrements, Requested, OneRequest;
    assert !Succeeding(w.requests, id) ==> OneSuccess(w.requests, id);
    hide Succeeding, OneSuccess;
    var now := if id in issued then issued[id := issued[id].(confirmed := true)] else issued;
    forall other | other !in exposed ensures OnceFor(w, more, now, other) {
      assert Decrements(more, other) == Decrements(history, other) + (if other == id then n else 0);
      assert other != id ==> OnceFor(w, history, issued, other);
    }
  }

  lemma SettleKeepsOnce(w: World, history: seq<Step>, issued: map<Id, Issued>, exposed: set<Id>, id: Id)
    requires Confirmable(w, history, issued, exposed, id) && id in issued && issued[id].confirmed
    ensures Once(w, history, issued - {id}, exposed)
  {
    hide Decrements, Requested, OneRequest;
    assert !Succeeding(w.requests, id) ==> OneSuccess(w.requests, id);
    hide Succeeding, OneSuccess;
    var now := issued - {id};
    forall other | other !in exposed ensures OnceFor(w, history, now, other) {
      assert other != id ==> OnceFor(w, history, issued, other);
    }
  }

  lemma EventConfirms(w: World, history: seq<Step>, issued: map<Id, Issued>, exposed: set<Id>, id: Id)
    requires Once(w, history, issued, exposed) && id in w.events
    ensures Confirmable(w.(events := w.events - {id}), history, issued, exposed, id)
  {
    hide Decrements, Requested, Succeeding, OneRequest, OneSuccess;
    assert id !in exposed ==> OnceFor(w, history, issued, id);
    var x := w.(events := w.events - {id});
    forall other | other != id && other !in exposed ensures OnceFor(x, history, issued, other) {
      assert OnceFor(w, history, issued, other);
    }
  }

  lemma AnswerConfirms(w: World, history: seq<Step>, issued: map<Id, Issued>, exposed: set<Id>, t: nat)
    requires Once(w, history, issued, exposed) && t in w.requests && w.requests[t].outcome.Succeeded?
    ensures Confirmable(w.(requests := w.requests - {t}), history, issued, exposed, w.requests[t].id)
  {
    hide Decrements, Requested, Succeeding, OneRequest, OneSuccess;
    var id, x := w.requests[t].id, w.(requests := w.requests - {t});
    LessRequest(w.requests, t);
    assert id !in exposed ==> OnceFor(w, history, issued, id);
    forall other | other != id && other !in exposed ensures OnceFor(x, history, issued, other) {
      assert OnceFor(w, history, issued, other) && SameRequests(w.requests, x.requests, other);
    }
  }

  lemma FailureKeepsOnce(w: World, history: seq<Step>, issued: map<Id, Issued>, exposed: set<Id>, t: nat)
    requires Once(w, history, issued, exposed) && t in w.requests && w.requests[t].outcome.Failed?
    ensures Once(w.(requests := w.requests - {t}), history, issued - {w.requests[t].id}, exposed)
  {
    hide Decrements, Requested, Succeeding, OneRequest, OneSuccess;
    var id, x := w.requests[t].id, w.(requests := w.requests - {t});
    LessRequest(w.requests, t);
    var now := issued - {id};
    forall other | other !in exposed ensures OnceFor(x, history, now, other) {
      assert OnceFor(w, history, issued, other) && (other != id ==> SameRequests(w.requests, x.requests, other));
    }
  }

  lemma DeletionKeepsOnce(w: World, history: seq<Step>, issued: map<Id, Issued>, exposed: set<Id>, id: Id)
    requires Once(w, history, issued, exposed) && id in w.present
    ensures Once(w.(present := w.present - {id}, events := w.events + {id}), history, issued, exposed)
  {
    hide Decrements, Requested, Succeeding, OneRequest, OneSuccess;
    var x := w.(present := w.present - {id}, events := w.events + {id});
    forall other | other !in exposed ensures OnceFor(x, history, issued, other) {
      assert OnceFor(w, history, issued, other);
    }
  }

  /** The server deletes a message on request. */
  lemma SuccessKeepsOnce(w: World, history: seq<Step>, issued: map<Id, Issued>, exposed: set<Id>, t: nat)
    requires Once(w, history, issued, exposed) && t in w.requests && w.requests[t].outcome.Undecided? &&
             w.requests[t].id in w.present
    ensures var id := w.requests[t].id;
            Once(w.(present := w.present - {id}, events := w.events + {id},
                    requests := w.requests[t := Request(id, Succeeded)]), history, issued, exposed)
  {
    hide Decrements, Succeeding, OneRequest, OneSuccess;
    var id := w.requests[t].id;
    assert Requested(w.requests, id);
    hide Requested;
    var x := w.(present := w.present - {id}, events := w.events + {id},
      requests := w.requests[t := Request(id, Succeeded)]);
    Decided(w.requests, t, Succeeded);
    forall other | other !in exposed ensures OnceFor(x, history, issued, other) {
      assert OnceFor(w, history, issued, other) && (other != id ==> SameRequests(w.requests, x.requests, other));
    }
  }

  /** A request fails, whether or not the server still holds the message. */
  lemma RefusalKeepsOnce(w: World, history: seq<Step>, issued: map<Id, Issued>, exposed: set<Id>, t: nat)
    requires Once(w, history, issued, exposed) && t in w.requests && w.requests[t].outcome.Undecided?
    ensures Once(w.(requests := w.requests[t := Request(w.requests[t].id, Failed)]), history, issued, exposed)
  {
    hide Decrements, Requested, Succeeding, OneRequest, OneSuccess;
    var id, x := w.requests[t].id, w.(requests := w.requests[t := Request(w.requests[t].id, Failed)]);
    Decided(w.requests, t, Failed);
    forall other | other !in exposed ensures OnceFor(x, history, issued, other) {
      assert OnceFor(w, history, issued, other) && (other != id ==> SameRequests(w.requests, x.requests, other));
    }
  }

  lemma ArrivalKeepsOnce(w: World, history: seq<Step>, issued: map<Id, Issued>, exposed: set<Id>, id: Id)
    requires Once(w, history, issued, exposed) && id !in w.present && id !in w.events && !Requested(w.requests, id)
    requires id !in issued && Decrements(history, id) == 0
    ensures Once(w.(present := w.present + {id}), history, issued, exposed)
  {
    hide Decrements;
    assert OneRequest(w.requests, id) && !Succeeding(w.requests, id);
    hide Requested, Succeeding, OneRequest, OneSuccess;
    var x := w.(present := w.present + {id});
    forall other | other !in exposed ensures OnceFor(x, history, issued, other) {
      assert OnceFor(w, history, issued, other);
    }
  }

  lemma LossKeepsOnce(w: World, less: World, history: seq<Step>, issued: map<Id, Issued>, exposed: set<Id>)
    requires Once(w, history, issued, exposed)
    requires less == w.(present := less.present, events := less.events) && less.present <= w.present &&
             less.events <= w.events
    ensures Once(less, history, issued, exposed)
  {
    hide Decrements, Requested, Succeeding, OneRequest, OneSuccess;
    forall other | other !in exposed ensures OnceFor(less, history, issued, other) {
      assert OnceFor(w, history, issued, other);
    }
  }

  lemma SameDecrements(w: World, history: seq<Step>, more: seq<Step>, issued: map<Id, Issued>, exposed: set<Id>)
    requires Once(w, history, issued, exposed) && CountsMore(history, more, 0, 0)
    ensures Once(w, more, issued, exposed)
  {
    hide Decrements, Requested, Succeeding, OneRequest, OneSuccess;
    forall other | other !in exposed ensures OnceFor(w, more, issued, other) {
      assert OnceFor(w, history, issued, other) && Decrements(more, other) == Decrements(history, other);
    }
  }

  /** A step that counts nothing. */
  lemma NoteStep(history: seq<Step>, s: Step)
    requires !s.Decrement? && CountedInTime(history)
    ensures CountedInTime(history + [s]) && forall id :: CountsMore(history, history + [s], id, 0)
  {
    CountedInTimeSnoc(history, s);
    hide Decrements;
    forall other ensures Decrements(history + [s], other) == Decrements(history, other) {
      DecrementsSnoc(history, s, other);
    }
  }

  /** The step that counts `id` out, tracked only if it is still against the count it was issued against. */
  lemma CountStep(history: seq<Step>, id: Id, tracked: bool, at: nat)
    requires CountedInTime(history)
    requires tracked ==> at < |history| && history[at] == Issue(id) && SameCount(history, at)
    ensures CountedInTime(history + [Decrement(id, tracked)]) &&
            CountsMore(history, history + [Decrement(id, tracked)], id, 1)
  {
    var s := Decrement(id, tracked);
    CountedInTimeSnoc(history, s);
    hide Decrements;
    forall other ensures Decrements(history + [s], other) == Decrements(history, other) +
      (if other == id then 1 else 0) {
      DecrementsSnoc(history, s, other);
    }
  }

  lemma StampNote(issued: map<Id, Issued>, at: map<Id, nat>, history: seq<Step>, snapshot: nat, clearRevision: nat,
                  s: Step)
    requires Stamped(issued, at, history, snapshot, clearRevision) && !s.NewCount? && !s.Cleared?
    ensures Stamped(issued, at, history + [s], snapshot, clearRevision)
  {
    SameCountSnoc(history, s);
    hide SameCount;
  }

  lemma StampIssue(issued: map<Id, Issued>, at: map<Id, nat>, history: seq<Step>, snapshot: nat, clearRevision: nat,
                   id: Id)
    requires Stamped(issued, at, history, snapshot, clearRevision)
    ensures Stamped(issued[id := Issued(snapshot, clearRevision, false)], at[id := |history|],
                    history + [Issue(id)], snapshot, clearRevision)
  {
    SameCountSnoc(history, Issue(id));
    hide SameCount;
  }

  lemma StampEntry(issued: map<Id, Issued>, at: map<Id, nat>, history: seq<Step>, snapshot: nat, clearRevision: nat,
                   id: Id)
    requires Stamped(issued, at, history, snapshot, clearRevision)
    ensures Stamped(issued - {id}, at - {id}, history, snapshot, clearRevision)
    ensures id in issued ==>
      Stamped(issued[id := issued[id].(confirmed := true)], at, history, snapshot, clearRevision)
  {
    hide SameCount;
  }

  /** A newer count or a clear leaves every tracked deletion behind. */
  lemma StampBehind(issued: map<Id, Issued>, at: map<Id, nat>, history: seq<Step>, snapshot: nat, clearRevision: nat,
                    s: Step, later: nat)
    requires Stamped(issued, at, history, snapshot, clearRevision) && clearRevision <= later
    ensures Stamped(issued, at, history + [s], snapshot + 1, later)
  {
    hide SameCount;
  }

  class Inbox {
    var storedTotal: int
    /** Identifies the latest server count applied. */
    var snapshot: nat
    var deletionRevision: nat
    var clearRevision: nat
    var countNeedsRefresh: bool
    var latestCountRead: nat
    var undoableId: Option<Id>
    /** Local deletions awaiting their answer or their event. */
    var issuedDeletes: map<Id, Issued>
    var hiddenIds: set<Id>

    ghost var world: World
    ghost var history: seq<Step>
    /** When each tracked deletion was issued. */
    ghost var issuedAt: map<Id, nat>
    /** When a deletion was last confirmed. */
    ghost var confirmedAt: nat
    /** Reads of the count and the list in flight, and when each began. */
    ghost var pendingReads: set<ReadInFlight>
    /**
     * The messages whose deletion was issued again while it was still tracked
     * and could still be counted twice.
     */
    ghost var exposed: set<Id>

    constructor (stored: set<Id>, count: int)
      ensures Valid() && world == World(stored, {}, map[], 0) && storedTotal == count && history == []
      ensures exposed == {} && issuedDeletes == map[] && undoableId == None && !countNeedsRefresh
    {
      storedTotal, snapshot, deletionRevision, clearRevision := count, 0, 0, 0;
      countNeedsRefresh, latestCountRead, undoableId, issuedDeletes, hiddenIds := false, 0, None, map[], {};
      world, history, issuedAt := World(stored, {}, map[], 0), [], map[];
      confirmedAt, pendingReads, exposed := 0, {}, {};
    }

    ghost predicate Tokens() reads this {
      forall t :: t in world.requests ==> t < world.nextToken
    }

    /** The books on past steps, whatever is still under way. */
    ghost predicate Booked() reads this {
      && Stamped(issuedDeletes, issuedAt, history, snapshot, clearRevision)
      && CountedInTime(history) && Tokens() && confirmedAt <= |history|
      && ReadsInOrder(pendingReads, history, snapshot, deletionRevision, latestCountRead, confirmedAt)
    }

    ghost predicate Valid() reads this {
      Booked() && Once(world, history, issuedDeletes, exposed)
    }

    // ---------- The user ----------

    /** Takes a message out of the list; its deletion is issued once the undo window closes. */
    method DeleteWithUndo(id: Id)
      requires Valid()
      modifies this
      ensures Valid() && undoableId == Some(id) && Issues(old(undoableId))
    {
      hide Once, CountedInTime, Stamped, CountsMore, ReadsInOrder, Spent;
      CommitDelete();
      hiddenIds := hiddenIds + {id};
      undoableId := Some(id);
    }

    /** `pending` was issued, if there was one, and nothing was counted. */
    twostate predicate Issues(pending: Option<Id>) reads this {
      && storedTotal == old(storedTotal) && countNeedsRefresh == old(countNeedsRefresh) && snapshot == old(snapshot)
      && clearRevision == old(clearRevision) && deletionRevision == old(deletionRevision)
      && CountsMore(old(history), history, 0, 0)
      && match pending
         case None => issuedDeletes == old(issuedDeletes) && world == old(world) && exposed == old(exposed)
         case Some(id) =>
           && issuedDeletes == old(issuedDeletes)[id := Issued(snapshot, clearRevision, false)]
           && world == old(world).(requests := old(world).requests[old(world).nextToken := Request(id, Undecided)],
                                   nextToken := old(world).nextToken + 1)
           && exposed == old(exposed) +
             (if id in old(issuedDeletes) && !Spent(old(world), old(history), id) then {id} else {})
    }

    /** Issues the deletion that could still be undone. */
    method CommitDelete()
      requires Valid()
      modifies this
      ensures Valid() && undoableId == None && Issues(old(undoableId))
    {
      hide Once, CountedInTime, Stamped, CountsMore, ReadsInOrder, Spent;
      var pending := undoableId;
      undoableId := None;
      if pending.None? {
        SameHistory(history);
        return;
      }
      var id := pending.value;
      NoteStep(history, Issue(id));
      StampIssue(issuedDeletes, issuedAt, history, snapshot, clearRevision, id);
      ReadsNote(pendingReads, history, snapshot, deletionRevision, latestCountRead, confirmedAt, Issue(id));
      var entry := Issued(snapshot, clearRevision, false);
      if id in issuedDeletes && !Spent(world, history, id) {
        ExposeMore(world, history, issuedDeletes, exposed, id);
        exposed := exposed + {id};
      }
      IssueKeepsOnce(world, history, history + [Issue(id)], issuedDeletes, exposed, id, entry);
      issuedDeletes := issuedDeletes[id := entry];
      issuedAt := issuedAt[id := |history|];
      history := history + [Issue(id)];
      world := world.(requests := world.requests[world.nextToken := Request(id, Undecided)],
        nextToken := world.nextToken + 1);
    }

    /** Brings the last deleted message back. */
    method UndoDelete()
      requires Valid()
      modifies `undoableId, `hiddenIds
      ensures Valid() && undoableId == None
    {
      hide Once, CountedInTime, Stamped, ReadsInOrder;
      if undoableId.Some? {
        hiddenIds := hiddenIds - {undoableId.value};
      }
      undoableId := None;
    }

    // ---------- Confirmations ----------

    /** What one confirmation of `id` did, with `counted` the list's answer to whether the total counts it. */
    twostate predicate Reconciles(id: Id, counted: Counted, refresh: bool) reads this {
      var was := old(issuedDeletes);
      var again := id in was && was[id].confirmed;
      var cleared := id in was && was[id].clearRevision != clearRevision;
      var current := !counted.OnlyServerKnows? && !old(countNeedsRefresh) &&
        (id in was ==> was[id].snapshot == snapshot);
      var counts := !again && !cleared && current && counted.Yes?;
      && storedTotal == (if !counts then old(storedTotal)
                         else if old(storedTotal) <= 1 then 0
                         else old(storedTotal) - 1)
      && CountsMore(old(history), history, id, if counts then 1 else 0)
      && refresh == (!again && !cleared && !current) && countNeedsRefresh == (old(countNeedsRefresh) || refresh)
      && issuedDeletes == (if again then was - {id}
                           else if id in was then was[id := was[id].(confirmed := true)]
                           else was)
      && snapshot == old(snapshot) && clearRevision == old(clearRevision) && exposed == old(exposed)
    }

    /**
     * Applies one confirmation that `id` is gone, `row` being what the list or
     * the waiting arrivals hold of it: at most one per deletion counts,
     * and only if the total still counts it.
     */
    method ReconcileDeletion(id: Id, row: Option<Summary>, view: View) returns (refresh: bool)
      requires Booked() && Confirmable(world, history, issuedDeletes, exposed, id)
      modifies this
      ensures Valid() && Reconciles(id, CountedInTotal(row, view), refresh) && world == old(world) &&
              undoableId == old(undoableId)
    {
      hide Once, Confirmable, CountedInTime, Stamped, CountsMore, ReadsInOrder;
      if id in issuedDeletes && issuedDeletes[id].confirmed {
        refresh := false;
        SameHistory(history);
        StampEntry(issuedDeletes, issuedAt, history, snapshot, clearRevision, id);
        SettleKeepsOnce(world, history, issuedDeletes, exposed, id);
        issuedDeletes := issuedDeletes - {id};
        issuedAt := issuedAt - {id};
      } else {
        refresh := FirstConfirmation(id, CountedInTotal(row, view));
      }
    }

    method FirstConfirmation(id: Id, counted: Counted) returns (refresh: bool)
      requires Booked() && Confirmable(world, history, issuedDeletes, exposed, id)
      requires id in issuedDeletes ==> !issuedDeletes[id].confirmed
      modifies this
      ensures Valid() && Reconciles(id, counted, refresh) && world == old(world) && undoableId == old(undoableId)
    {
      hide Once, Confirmable, CountedInTime, Stamped, CountsMore, ReadsInOrder;
      var tracked := id in issuedDeletes;
      var cleared := tracked && issuedDeletes[id].clearRevision != clearRevision;
      var countIsCurrent :=
        !counted.OnlyServerKnows? && !countNeedsRefresh && (tracked ==> issuedDeletes[id].snapshot == snapshot);
      var counts := !cleared && countIsCurrent && counted.Yes?;
      hiddenIds := hiddenIds - {id};
      Confirmed(id, cleared, counts);
      if !cleared && !countIsCurrent {
        countNeedsRefresh := true;
      }
      if counts {
        storedTotal := if storedTotal - 1 < 0 then 0 else storedTotal - 1;
      }
      refresh := !cleared && !countIsCurrent;
    }

    /** Marks a tracked deletion confirmed, and invalidates the reads in flight unless a clear already has. */
    method Confirmed(id: Id, cleared: bool, ghost counts: bool)
      requires Booked() && Confirmable(world, history, issuedDeletes, exposed, id)
      requires id in issuedDeletes ==> !issuedDeletes[id].confirmed
      requires cleared == (id in issuedDeletes && issuedDeletes[id].clearRevision != clearRevision)
      requires counts ==> !cleared && (id in issuedDeletes ==> issuedDeletes[id].snapshot == snapshot)
      modifies `issuedDeletes, `deletionRevision, `history, `confirmedAt
      ensures Valid() && CountsMore(old(history), history, id, if counts then 1 else 0)
      ensures issuedDeletes == if id in old(issuedDeletes)
                               then old(issuedDeletes)[id := old(issuedDeletes)[id].(confirmed := true)]
                               else old(issuedDeletes)
      ensures deletionRevision == old(deletionRevision) + (if cleared then 0 else 1)
    {
      hide Once, Confirmable, CountedInTime, Stamped, CountsMore, ReadsInOrder;
      SameHistory(history);
      if !cleared {
        NewRevision(pendingReads, history, snapshot, deletionRevision, latestCountRead, confirmedAt, |history| + 1);
        deletionRevision := deletionRevision + 1;
        NoteConfirmed(id);
        if counts {
          NoteCounted(id, id in issuedDeletes);
        }
      }
      ConfirmKeepsOnce(world, old(history), history, issuedDeletes, exposed, id, if counts then 1 else 0);
      StampEntry(issuedDeletes, issuedAt, history, snapshot, clearRevision, id);
      if id in issuedDeletes {
        issuedDeletes := issuedDeletes[id := issuedDeletes[id].(confirmed := true)];
      }
    }

    ghost method NoteConfirmed(id: Id)
      requires Stamped(issuedDeletes, issuedAt, history, snapshot, clearRevision) && CountedInTime(history)
      requires ReadsInOrder(pendingReads, history, snapshot, deletionRevision, latestCountRead, |history| + 1)
      modifies `history, `confirmedAt
      ensures Stamped(issuedDeletes, issuedAt, history, snapshot, clearRevision) && CountedInTime(history)
      ensures ReadsInOrder(pendingReads, history, snapshot, deletionRevision, latestCountRead, confirmedAt)
      ensures confirmedAt == |history| == |old(history)| + 1 && CountsMore(old(history), history, id, 0)
    {
      NoteStep(history, Confirm(id));
      StampNote(issuedDeletes, issuedAt, history, snapshot, clearRevision, Confirm(id));
      ReadsNote(pendingReads, history, snapshot, deletionRevision, latestCountRead, |history| + 1, Confirm(id));
      history := history + [Confirm(id)];
      confirmedAt := |history|;
    }

    /** Counts `id` out; if tracked, it was issued against the count now shown. */
    ghost method NoteCounted(id: Id, tracked: bool)
      requires Stamped(issuedDeletes, issuedAt, history, snapshot, clearRevision) && CountedInTime(history)
      requires tracked == (id in issuedDeletes)
      requires tracked ==> issuedDeletes[id].snapshot == snapshot && issuedDeletes[id].clearRevision == clearRevision
      requires ReadsInOrder(pendingReads, history, snapshot, deletionRevision, latestCountRead, confirmedAt)
      modifies `history
      ensures Stamped(issuedDeletes, issuedAt, history, snapshot, clearRevision) && CountedInTime(history)
      ensures ReadsInOrder(pendingReads, history, snapshot, deletionRevision, latestCountRead, confirmedAt)
      ensures |history| == |old(history)| + 1
      ensures forall was :: CountsMore(was, old(history), id, 0) ==> CountsMore(was, history, id, 1)
    {
      CountStep(history, id, tracked, if tracked then issuedAt[id] else 0);
      StampNote(issuedDeletes, issuedAt, history, snapshot, clearRevision, Decrement(id, tracked));
      ReadsNote(pendingReads, history, snapshot, deletionRevision, latestCountRead, confirmedAt,
        Decrement(id, tracked));
      history := history + [Decrement(id, tracked)];
    }

    /** A live event says that `id` is gone. */
    method DeleteEvent(id: Id, row: Option<Summary>, view: View) returns (refresh: bool)
      requires Valid() && id in world.events
      modifies this
      ensures Valid() && Reconciles(id, CountedInTotal(row, view), refresh) &&
              world == old(world).(events := old(world).events - {id})
      ensures undoableId == if old(undoableId) == Some(id) then None else old(undoableId)
    {
      hide Once, Confirmable, CountedInTime, Stamped, CountsMore;
      if undoableId == Some(id) {
        undoableId := None;
      }
      EventConfirms(world, history, issuedDeletes, exposed, id);
      world := world.(events := world.events - {id});
      refresh := ReconcileDeletion(id, row, view);
    }

    /** The answer to a request arrives. */
    method Answer(ghost t: nat, id: Id, succeeded: bool, row: Option<Summary>, view: View) returns (refresh: bool)
      requires Valid() && t in world.requests &&
               world.requests[t] == Request(id, if succeeded then Succeeded else Failed)
      modifies this
      ensures Valid() && world == old(world).(requests := old(world).requests - {t}) && undoableId == old(undoableId)
      ensures if succeeded then Reconciles(id, CountedInTotal(row, view), refresh) else
                && issuedDeletes == old(issuedDeletes) - {id} && history == old(history) &&
                   storedTotal == old(storedTotal)
                && exposed == old(exposed) && countNeedsRefresh == old(countNeedsRefresh) && snapshot == old(snapshot)
                && clearRevision == old(clearRevision) && !refresh
    {
      hide Once, Confirmable, CountedInTime, Stamped, CountsMore, ReadsInOrder;
      if succeeded {
        AnswerConfirms(world, history, issuedDeletes, exposed, t);
        world := world.(requests := world.requests - {t});
        refresh := ReconcileDeletion(id, row, view);
      } else {
        refresh := false;
        FailureKeepsOnce(world, history, issuedDeletes, exposed, t);
        StampEntry(issuedDeletes, issuedAt, history, snapshot, clearRevision, id);
        world := world.(requests := world.requests - {t});
        var back := id in issuedDeletes && !issuedDeletes[id].confirmed &&
          issuedDeletes[id].clearRevision == clearRevision;
        issuedDeletes := issuedDeletes - {id};
        issuedAt := issuedAt - {id};
        if back {
          hiddenIds := hiddenIds - {id};
        }
      }
    }

    /** The inbox was cleared; the deletions issued before outlive that. */
    method ClearEvent()
      requires Valid()
      modifies this
      ensures Valid() && storedTotal == 0 && issuedDeletes == old(issuedDeletes) &&
              clearRevision == old(clearRevision) + 1
      ensures CountsMore(old(history), history, 0, 0) && exposed == old(exposed) && world == old(world)
    {
      hide Once, CountedInTime, Stamped, CountsMore, ReadsInOrder;
      undoableId, hiddenIds := None, {};
      NoteStep(history, Cleared);
      StampBehind(issuedDeletes, issuedAt, history, snapshot, clearRevision, Cleared, clearRevision + 1);
      NewRevision(pendingReads, history, snapshot, deletionRevision, latestCountRead, confirmedAt, confirmedAt);
      ReadsBehind(pendingReads, history, snapshot, deletionRevision + 1, latestCountRead, confirmedAt, Cleared);
      SameDecrements(world, history, history + [Cleared], issuedDeletes, exposed);
      snapshot, deletionRevision, clearRevision := snapshot + 1, deletionRevision + 1, clearRevision + 1;
      countNeedsRefresh := false;
      storedTotal := 0;
      history := history + [Cleared];
    }

    // ---------- Reads of the count ----------

    /** Begins to read the count, or the list and its count. */
    method BeginRead(countOnly: bool) returns (read: CountRead, ghost began: nat)
      requires Valid()
      modifies `latestCountRead, `pendingReads
      ensures Valid() && began == |history| && ReadInFlight(read, began) in pendingReads
      ensures read == CountRead(latestCountRead, snapshot, deletionRevision)
      ensures latestCountRead == old(latestCountRead) + (if countOnly then 1 else 0)
    {
      hide Once, CountedInTime, Stamped;
      if countOnly {
        latestCountRead := latestCountRead + 1;
      }
      read, began := CountRead(latestCountRead, snapshot, deletionRevision), |history|;
      pendingReads := pendingReads + {ReadInFlight(read, began)};
    }

    /** A newer count from the server replaces the one shown. */
    method ApplyCount(total: int)
      requires Valid()
      modifies `snapshot, `storedTotal, `history
      ensures Valid() && storedTotal == total && snapshot == old(snapshot) + 1 &&
              CountsMore(old(history), history, 0, 0)
      ensures history == old(history) + [NewCount]
    {
      hide Once, CountedInTime, Stamped, CountsMore, ReadsInOrder;
      NoteStep(history, NewCount);
      StampBehind(issuedDeletes, issuedAt, history, snapshot, clearRevision, NewCount, clearRevision);
      ReadsBehind(pendingReads, history, snapshot, deletionRevision, latestCountRead, confirmedAt, NewCount);
      SameDecrements(world, history, history + [NewCount], issuedDeletes, exposed);
      snapshot, storedTotal := snapshot + 1, total;
      history := history + [NewCount];
    }

    /**
     * A read of the count alone lands. It is applied exactly if it is the
     * latest, and then nothing was confirmed, counted or cleared since it began.
     */
    method CountLands(read: CountRead, ghost began: nat, total: int) returns (applied: bool)
      requires Valid() && ReadInFlight(read, began) in pendingReads
      modifies this
      ensures Valid() && world == old(world) && issuedDeletes == old(issuedDeletes) && exposed == old(exposed)
      ensures applied == (read == old(CountRead(latestCountRead, snapshot, deletionRevision)))
      ensures CountsMore(old(history), history, 0, 0)
      ensures if applied then
                && storedTotal == total && !countNeedsRefresh && history == old(history) + [NewCount]
                && old(confirmedAt) <= began && SameCount(old(history), began)
              else
                && storedTotal == old(storedTotal) && countNeedsRefresh == old(countNeedsRefresh)
                && history == old(history)
    {
      hide Once, CountedInTime, Stamped, CountsMore;
      SameHistory(history);
      applied := read == CountRead(latestCountRead, snapshot, deletionRevision);
      if applied {
        ApplyCount(total);
        countNeedsRefresh := false;
      }
    }

    /**
     * A list read lands. The count it brings is settled only if nothing was
     * confirmed since it began; else it is to be read again.
     */
    method ListLands(read: CountRead, ghost began: nat, total: int) returns (refresh: bool)
      requires Valid() && ReadInFlight(read, began) in pendingReads
      modifies this
      ensures Valid() && world == old(world) && issuedDeletes == old(issuedDeletes) && storedTotal == total
      ensures refresh == countNeedsRefresh && (!refresh ==> old(confirmedAt) <= began)
    {
      hide Once, CountedInTime, Stamped, CountsMore;
      refresh := read.revision != deletionRevision;
      ApplyCount(total);
      countNeedsRefresh := refresh;
    }

    // ---------- The server and other clients ----------

    /**
     * The server handles a request: the message is deleted, the answer then
     * arriving or lost, or it was gone already.
     */
    ghost method ServerDecides(t: nat, lost: bool)
      requires Valid() && t in world.requests && world.requests[t].outcome.Undecided?
      modifies `world
      ensures Valid()
      ensures var id := old(world).requests[t].id;
              var deletes := id in old(world).present;
              && world.present == old(world).present - {id}
              && world.events == (if deletes then old(world).events + {id} else old(world).events)
              && world.requests == old(world).requests[t := Request(id, if deletes && !lost then Succeeded else Failed)]
              && world.nextToken == old(world).nextToken
    {
      hide Once, CountedInTime, Stamped, ReadsInOrder;
      var id := world.requests[t].id;
      var deletes := id in world.present;
      if deletes && !lost {
        SuccessKeepsOnce(world, history, issuedDeletes, exposed, t);
        world := world.(present := world.present - {id}, events := world.events + {id},
                        requests := world.requests[t := Request(id, Succeeded)]);
      } else {
        if deletes {
          DeletedElsewhere(id);
        }
        ServerFails(t);
      }
    }

    /** A request fails on its way or at the server, which keeps whatever it holds. */
    ghost method ServerFails(t: nat)
      requires Valid() && t in world.requests && world.requests[t].outcome.Undecided?
      modifies `world
      ensures Valid()
      ensures world == old(world).(requests := old(world).requests[t := Request(old(world).requests[t].id, Failed)])
    {
      hide Once, CountedInTime, Stamped, ReadsInOrder;
      RefusalKeepsOnce(world, history, issuedDeletes, exposed, t);
      world := world.(requests := world.requests[t := Request(world.requests[t].id, Failed)]);
    }

    /** The server stores a message under an id never used before. */
    ghost method Arrives(id: Id)
      requires Valid() && id !in world.present && id !in world.events && !Requested(world.requests, id)
      requires id !in issuedDeletes && Decrements(history, id) == 0
      modifies `world
      ensures Valid() && world == old(world).(present := old(world).present + {id})
    {
      hide Once, CountedInTime, Stamped, ReadsInOrder;
      ArrivalKeepsOnce(world, history, issuedDeletes, exposed, id);
      world := world.(present := world.present + {id});
    }

    /** Another client or the retention sweep deletes a message. */
    ghost method DeletedElsewhere(id: Id)
      requires Valid() && id in world.present
      modifies `world
      ensures Valid() && world == old(world).(present := old(world).present - {id}, events := old(world).events + {id})
    {
      hide Once, CountedInTime, Stamped, ReadsInOrder;
      DeletionKeepsOnce(world, history, issuedDeletes, exposed, id);
      world := world.(present := world.present - {id}, events := world.events + {id});
    }

    /** The server's inbox is cleared, or events are lost with the connection. */
    ghost method Vanish(present: set<Id>, events: set<Id>)
      requires Valid() && present <= world.present && events <= world.events
      modifies `world
      ensures Valid() && world == old(world).(present := present, events := events)
    {
      hide Once, CountedInTime, Stamped, ReadsInOrder;
      LossKeepsOnce(world, world.(present := present, events := events), history, issuedDeletes, exposed);
      world := world.(present := present, events := events);
    }

    // ---------- What holds over every run ----------

    /**
     * A message is not counted out twice, as long as its deletion is not issued
     * again while it is tracked and may still be counted twice. What is done to
     * other messages does not matter.
     */
    lemma CountedOnce(id: Id)
      requires Valid() && id !in exposed
      ensures Decrements(history, id) <= 1 && (id in world.present ==> Decrements(history, id) == 0)
    {
      hide Decrements, Requested, Succeeding, OneRequest, OneSuccess;
      assert OnceFor(world, history, issuedDeletes, id);
    }

    /** A tracked deletion is counted against the very count it was issued against. */
    lemma CountedAgainstItsCount(k: nat)
      requires Valid() && k < |history| && history[k].Decrement? && history[k].tracked
      ensures exists j :: 0 <= j < k && history[j] == Issue(history[k].id) && SameCount(history[..k], j)
    {
    }
  }

  lemma ReadsNote(pending: set<ReadInFlight>, history: seq<Step>, snapshot: nat, revision: nat, latest: nat,
                  confirmedAt: nat, s: Step)
    requires ReadsInOrder(pending, history, snapshot, revision, latest, confirmedAt) && !s.NewCount? && !s.Cleared?
    ensures ReadsInOrder(pending, history + [s], snapshot, revision, latest, confirmedAt)
  {
    SameCountSnoc(history, s);
    hide SameCount;
  }

  /** A newer count or a clear leaves every read in flight behind. */
  lemma ReadsBehind(pending: set<ReadInFlight>, history: seq<Step>, snapshot: nat, revision: nat, latest: nat,
                    confirmedAt: nat, s: Step)
    requires ReadsInOrder(pending, history, snapshot, revision, latest, confirmedAt)
    ensures ReadsInOrder(pending, history + [s], snapshot + 1, revision, latest, confirmedAt)
  {
  }

  lemma NewRevision(pending: set<ReadInFlight>, history: seq<Step>, snapshot: nat, revision: nat, latest: nat,
                    confirmedAt: nat, now: nat)
    requires ReadsInOrder(pending, history, snapshot, revision, latest, confirmedAt)
    ensures ReadsInOrder(pending, history, snapshot, revision + 1, latest, now)
  {
  }

  lemma SameHistory(history: seq<Step>)
    ensures forall id :: CountsMore(history, history, id, 0)
  {
  }

  /**
   * With the message gone, the answer to a request that failed makes the inbox
   * forget the deletion. Once the count was read again, whatever confirmation
   * is still under way is counted.
   */
  method CountTheRest(inbox: Inbox, id: Id, ghost failed: nat, ghost t: nat, answered: bool, announced: bool,
                      total: int)
    requires inbox.Valid() && id !in inbox.world.present
    requires failed in inbox.world.requests && inbox.world.requests[failed] == Request(id, Failed)
    requires answered ==> t in inbox.world.requests && inbox.world.requests[t] == Request(id, Succeeded)
    requires announced ==> id in inbox.world.events
    modifies inbox
    ensures inbox.Valid() && inbox.exposed == old(inbox.exposed)
    ensures Decrements(inbox.history, id) ==
            Decrements(old(inbox.history), id) + (if answered then 1 else 0) + (if announced then 1 else 0)
  {
    hide Once, CountedInTime, Stamped, ReadsInOrder, Decrements;
    assert CountedInTotal(None, WHOLE_INBOX) == Yes;
    var refresh := inbox.Answer(failed, id, false, None, WHOLE_INBOX);
    ghost var began;
    var read;
    read, began := inbox.BeginRead(true);
    var applied := inbox.CountLands(read, began, total);
    assert Decrements(inbox.history, id) == Decrements(old(inbox.history), id);
    if answered {
      refresh := inbox.Answer(t, id, true, None, WHOLE_INBOX);
    }
    if announced {
      refresh := inbox.DeleteEvent(id, None, WHOLE_INBOX);
    }
  }

  /**
   * A deletion issued again while it is tracked and its count plus what is
   * still to come reaches two can be counted that often, from every such
   * state. `t` is the request on its way; the flags say what is under way.
   */
  method CountsTwice(inbox: Inbox, id: Id, ghost t: nat, present: bool, undecided: bool, answered: bool,
                     announced: bool, total: int)
    requires inbox.Valid() && id !in inbox.exposed && inbox.undoableId == Some(id)
    requires id in inbox.issuedDeletes && !Spent(inbox.world, inbox.history, id)
    requires present == (id in inbox.world.present) && announced == (id in inbox.world.events)
    requires answered == Succeeding(inbox.world.requests, id)
    requires present ==> t in inbox.world.requests && inbox.world.requests[t].id == id
    requires present ==> undecided == inbox.world.requests[t].outcome.Undecided?
    requires answered ==> t in inbox.world.requests && inbox.world.requests[t] == Request(id, Succeeded)
    modifies inbox
    ensures inbox.exposed == old(inbox.exposed) + {id}
    ensures Decrements(inbox.history, id) == old(Decrements(inbox.history, id) + Due(inbox.world, id))
    ensures 2 <= Decrements(inbox.history, id)
  {
    StillTwo(inbox, id, t);
    hide Once, OnceFor, Guarded, Spent, CountedInTime, Stamped, ReadsInOrder, Decrements, Requested, Succeeding;
    ghost var again := Reissue(inbox, id);
    if present {
      DecideBoth(inbox, id, t, again, undecided, total);
    } else {
      inbox.ServerDecides(again, false);
      CountTheRest(inbox, id, again, t, answered, announced, total);
    }
  }

  /** The deletion is issued once more. */
  method Reissue(inbox: Inbox, id: Id) returns (ghost again: nat)
    requires inbox.Valid() && inbox.undoableId == Some(id)
    requires id in inbox.issuedDeletes && !Spent(inbox.world, inbox.history, id)
    modifies inbox
    ensures inbox.Valid() && inbox.exposed == old(inbox.exposed) + {id}
    ensures again !in old(inbox.world.requests)
    ensures inbox.world.requests == old(inbox.world.requests)[again := Request(id, Undecided)]
    ensures inbox.world.present == old(inbox.world.present) && inbox.world.events == old(inbox.world.events)
    ensures Decrements(inbox.history, id) == old(Decrements(inbox.history, id))
  {
    hide Once, Spent, CountedInTime, Stamped, ReadsInOrder, Decrements;
    again := inbox.world.nextToken;
    inbox.CommitDelete();
  }

  /** Of two requests for a stored message one succeeds and one fails. */
  method DecideBoth(inbox: Inbox, id: Id, ghost t: nat, ghost again: nat, undecided: bool, total: int)
    requires inbox.Valid() && id in inbox.world.present && t != again
    requires t in inbox.world.requests && again in inbox.world.requests
    requires inbox.world.requests[t] == Request(id, if undecided then Undecided else Failed)
    requires inbox.world.requests[again] == Request(id, Undecided)
    modifies inbox
    ensures inbox.Valid() && inbox.exposed == old(inbox.exposed)
    ensures Decrements(inbox.history, id) == old(Decrements(inbox.history, id)) + 2
  {
    hide Once, CountedInTime, Stamped, ReadsInOrder, Decrements;
    if undecided {
      inbox.ServerDecides(t, false);
      inbox.ServerDecides(again, false);
      CountTheRest(inbox, id, again, t, true, true, total);
    } else {
      inbox.ServerDecides(again, false);
      CountTheRest(inbox, id, t, again, true, true, total);
    }
  }

  /** What is guarded and not spent still has two confirmations to give, or one on top of a count. */
  lemma StillTwo(inbox: Inbox, id: Id, t: nat)
    requires inbox.Valid() && id !in inbox.exposed && id in inbox.issuedDeletes &&
             !Spent(inbox.world, inbox.history, id)
    ensures 2 <= Decrements(inbox.history, id) + Due(inbox.world, id)
    ensures id in inbox.world.present ==> id !in inbox.world.events && !Succeeding(inbox.world.requests, id)
    ensures id in inbox.world.present && t in inbox.world.requests && inbox.world.requests[t].id == id ==>
      !inbox.world.requests[t].outcome.Succeeded?
  {
    var w := inbox.world;
    assert OnceFor(w, inbox.history, inbox.issuedDeletes, id);
    assert OneRequest(w.requests, id) ==> OneSuccess(w.requests, id);
    if t in w.requests && w.requests[t].id == id && w.requests[t].outcome.Succeeded? {
      assert w.requests[t] == Request(id, Succeeded);
    }
  }

  /**
   * Asking twice to delete one message is enough, if the second undo window
   * closes before the first request is answered.
   */
  method DoubleDelete() returns (inbox: Inbox)
    ensures fresh(inbox) && inbox.exposed == {0} && Decrements(inbox.history, 0) == 2
  {
    inbox := new Inbox({0, 1}, 2);
    NothingCounted();
    inbox.DeleteWithUndo(0);
    inbox.DeleteWithUndo(0);
    assert Decrements(inbox.history, 0) == 0;
    assert !Succeeding(inbox.world.requests, 0);
    hide Once, OnceFor, Guarded, CountedInTime, Stamped, ReadsInOrder, Decrements;
    CountsTwice(inbox, 0, 0, true, true, false, false, 1);
  }

  lemma NothingCounted()
    ensures forall id :: Decrements([], id) == 0
  {
  }
}
