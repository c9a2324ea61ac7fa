/**
 * Storing captured mail and answering for it. SMTP sessions hand messages over
 * and wait; one consumer stores them in transactions, sends each session one
 * verdict and announces what was stored. Sessions act between any two steps
 * of the consumer.
 */
module Acknowledgement {
  import opened Bytes
  import opened Transactions

  datatype Verdict = Stored | Rejected

  datatype Reply = Ok250 | Retry451

  /** How an insert ends: committed, or refused for these messages or by the store as a whole. */
  datatype Insert = Committed | RefusedMessages | RefusedByStore

  /** A transaction: when it began, what it was to store, and how it ended. */
  datatype Attempt = Attempt(start: nat, ids: seq<nat>, end: Insert)

  /** How a message fares when its turn comes to be stored alone. */
  datatype Turn = Abandoned | TooLate | Attempted(attempt: Attempt) {
    predicate Stops() {
      TooLate? || (Attempted? && attempt.end.RefusedByStore?)
    }

    predicate Commits() {
      Attempted? && attempt.end.Committed?
    }
  }

  const MAX_BATCH_MESSAGES := 32

  /** How many seconds a session waits for its verdict, and how many of them a batch may take to be stored singly. */
  const STORE_ACK_TIMEOUT := 30
  const FALLBACK_BUDGET := STORE_ACK_TIMEOUT / 2

  function Ids(group: seq<Delivery>): seq<nat> {
    seq(|group|, i requires 0 <= i < |group| => group[i].id)
  }

  predicate Rising(ids: seq<nat>) {
    forall i, j :: 0 <= i < j < |ids| ==> ids[i] < ids[j]
  }

  lemma IdsEmpty()
    ensures Ids([]) == []
  {
  }

  lemma IdsSnoc(group: seq<Delivery>, next: Delivery)
    ensures Ids(group + [next]) == Ids(group) + [next.id]
  {
  }

  lemma IdsConcat(a: seq<Delivery>, b: seq<Delivery>)
    ensures Ids(a + b) == Ids(a) + Ids(b)
  {
  }

  lemma IdsHas(group: seq<Delivery>)
    ensures forall d :: d in group ==> d.id in Ids(group)
    ensures forall id :: id in Ids(group) ==> exists d :: d in group && d.id == id
  {
    forall d | d in group ensures d.id in Ids(group) {
      var i :| 0 <= i < |group| && group[i] == d;
      assert Ids(group)[i] == d.id;
    }
    forall id | id in Ids(group) ensures exists d :: d in group && d.id == id {
      var i :| 0 <= i < |group| && Ids(group)[i] == id;
      assert group[i] in group;
    }
  }

  lemma IdsCons(group: seq<Delivery>, i: nat)
    requires i < |group|
    ensures Ids(group[i..]) == [group[i].id] + Ids(group[i + 1..])
  {
  }

  /** No two deliveries of a batch share an id. */
  lemma IdsApart(done: seq<Delivery>, todo: seq<Delivery>)
    requires Rising(Ids(done + todo))
    ensures forall d, e :: d in done && e in todo ==> d.id != e.id
  {
    hide Ids, Rising;
    IdsConcat(done, todo);
    RisingParts(Ids(done), Ids(todo));
    IdsHas(done);
    IdsHas(todo);
  }

  lemma GroupApart(group: seq<Delivery>, i: nat)
    requires i < |group| && Rising(Ids(group))
    ensures forall d :: d in group[..i] ==> d.id != group[i].id
  {
    hide Rising;
    assert group == group[..i] + group[i..] && group[i] in group[i..];
    IdsApart(group[..i], group[i..]);
  }

  /** Any part of a rising sequence rises. */
  lemma RisingParts(a: seq<nat>, b: seq<nat>)
    requires Rising(a + b)
    ensures Rising(a) && Rising(b)
    ensures forall x, y :: x in a && y in b ==> x < y
  {
    var all := a + b;
    assert forall i :: 0 <= i < |a| ==> a[i] == all[i];
    assert forall i :: 0 <= i < |b| ==> b[i] == all[|a| + i];
    forall x, y | x in a && y in b ensures x < y {
      var i :| 0 <= i < |a| && a[i] == x;
      var j :| 0 <= j < |b| && b[j] == y;
      assert all[i] < all[|a| + j];
    }
  }

  lemma RisingNext(ids: seq<nat>, next: nat)
    requires Rising(ids + [next])
    ensures Rising(ids + [next + 1]) && Rising(ids + [next] + [next + 1])
    ensures next !in ids
  {
    var all := ids + [next];
    forall i | 0 <= i < |ids| ensures ids[i] < next && ids[i] == all[i] {
      assert all[i] < all[|ids|];
    }
    forall i, j | 0 <= i < j < |ids| ensures ids[i] < ids[j] {
      assert all[i] < all[j];
    }
  }

  /** `picked` are the elements of `from` at the indices `at`, in order. */
  ghost predicate Picks(picked: seq<nat>, at: seq<nat>, from: seq<nat>) {
    && |picked| == |at| && Rising(at)
    && forall k :: 0 <= k < |at| ==> at[k] < |from| && picked[k] == from[at[k]]
  }

  /** Some elements of `from`, in order. */
  ghost predicate Selected(picked: seq<nat>, from: seq<nat>) {
    exists at :: Picks(picked, at, from)
  }

  lemma SelectedEmpty()
    ensures Selected([], [])
  {
    assert Picks([], [], []);
  }

  lemma SelectedSnoc(picked: seq<nat>, from: seq<nat>, next: nat)
    requires Selected(picked, from)
    ensures Selected(picked, from + [next]) && Selected(picked + [next], from + [next])
  {
    var at: seq<nat> :| Picks(picked, at, from);
    assert Picks(picked, at, from + [next]);
    assert Picks(picked + [next], at + [|from|], from + [next]);
  }

  lemma SelectedIn(picked: seq<nat>, from: seq<nat>)
    requires Selected(picked, from)
    ensures forall x :: x in picked ==> x in from
  {
    var at: seq<nat> :| Picks(picked, at, from);
    forall x | x in picked ensures x in from {
      var k :| 0 <= k < |picked| && picked[k] == x;
      assert from[at[k]] == x;
    }
  }

  lemma PartsApart(ids: seq<nat>, i: nat)
    requires Rising(ids) && i <= |ids|
    ensures forall x :: x in ids[..i] ==> x !in ids[i..]
    ensures i < |ids| ==> ids[i] !in ids[..i]
  {
    assert ids == ids[..i] + ids[i..];
    RisingParts(ids[..i], ids[i..]);
    assert i < |ids| ==> ids[i..][0] == ids[i];
  }

  /** What follows in a rising sequence is new and without repetition. */
  lemma AllDistinct(before: seq<nat>, ids: seq<nat>)
    requires Rising(before + ids)
    ensures forall i, j :: 0 <= i < j < |ids| ==> ids[i] != ids[j]
  {
    RisingParts(before, ids);
  }

  lemma RisingWithout(a: seq<nat>, x: nat, b: seq<nat>)
    requires Rising(a + [x] + b)
    ensures Rising(a + b) && x !in a && x !in b
  {
    var all, less := a + [x] + b, a + b;
    var n := |a|;
    assert forall i :: 0 <= i < |less| ==> less[i] == all[if i < n then i else i + 1];
    forall i | 0 <= i < |a| ensures a[i] != x {
      assert all[i] == a[i] && all[n] == x;
    }
    forall i | 0 <= i < |b| ensures b[i] != x {
      assert all[n + 1 + i] == b[i] && all[n] == x;
    }
  }

  /** The next group is what comes next in the batch. */
  lemma NextGroup(groups: seq<seq<Delivery>>, i: nat, batch: seq<Delivery>, todo: seq<Delivery>)
    returns (tail: seq<Delivery>)
    requires Splits(groups, batch) && i < |groups| && Concat(groups[..i]) + todo == batch
    ensures todo == groups[i] + tail && Concat(groups[..i + 1]) + tail == batch
    ensures Ids(todo) == Ids(groups[i]) + Ids(tail)
    ensures forall id :: id in Ids(groups[i]) ==> id in Ids(batch)
  {
    hide Ids;
    var done := Concat(groups[..i]);
    assert groups[..i + 1] == groups[..i] + [groups[i]];
    ConcatSnoc(groups[..i], groups[i]);
    ConcatPrefix(groups, i + 1);
    tail := PrefixRest(done, groups[i], todo);
    IdsConcat(groups[i], tail);
    IdsConcat(done, todo);
  }

  lemma PrefixRest(done: seq<Delivery>, group: seq<Delivery>, todo: seq<Delivery>) returns (tail: seq<Delivery>)
    requires done + group <= done + todo
    ensures todo == group + tail && done + group + tail == done + todo
  {
    var all, n := done + todo, |done| + |group|;
    tail := all[n..];
    assert all == (done + group) + tail;
    assert todo == all[|done|..] == (done + group + tail)[|done|..];
  }

  lemma {:induction false} ConcatPrefix(groups: seq<seq<Delivery>>, i: nat)
    requires i <= |groups|
    ensures Concat(groups[..i]) <= Concat(groups)
  {
    var n := |groups| - 1;
    if i == |groups| {
      assert groups[..i] == groups;
    } else {
      ConcatPrefix(groups[..n], i);
      assert groups[..n][..i] == groups[..i];
    }
  }

  lemma GroupsSnoc(groups: seq<seq<Delivery>>, i: nat)
    requires i < |groups|
    ensures Ids(Concat(groups[..i + 1])) == Ids(Concat(groups[..i])) + Ids(groups[i])
  {
    assert groups[..i + 1] == groups[..i] + [groups[i]];
    ConcatSnoc(groups[..i], groups[i]);
    IdsConcat(Concat(groups[..i]), groups[i]);
  }

  lemma AllGroups(groups: seq<seq<Delivery>>, batch: seq<Delivery>, todo: seq<Delivery>)
    requires Splits(groups, batch) && Concat(groups) + todo == batch
    ensures todo == [] && Ids(todo) == [] && Concat(groups) == batch
  {
  }

  /** What sessions and the consumer share, and what the outside has seen of it. */
  class Mailroom {
    /** Whether a message can be parsed. */
    const parses: seq<Byte> -> bool
    /** How the store answers, one transaction after another. */
    const answers: nat -> Insert
    /** The time, in seconds. */
    var now: nat
    var nextId: nat
    var queue: seq<Delivery>
    var closed: bool
    /** Deliveries whose session still waits for a verdict. */
    var waiting: set<nat>
    /** The verdict sent for a delivery; an acknowledgement is consumed by sending it. */
    var verdicts: map<nat, Verdict>
    /** What the session of a delivery told its sender. */
    var replies: map<nat, Reply>
    /** Ids of the stored messages, in commit order. */
    var committed: seq<nat>
    /** Ids of the announced messages, in the order announced. */
    var announced: seq<nat>
    /** The transactions so far. */
    var attempts: seq<Attempt>

    constructor (parses: seq<Byte> -> bool, answers: nat -> Insert)
      ensures Valid([]) && committed == [] && announced == [] && queue == [] && !closed
      ensures this.parses == parses && this.answers == answers
    {
      this.parses, this.answers := parses, answers;
      now, nextId, queue, closed, waiting := 0, 0, [], false, {};
      verdicts, replies, committed, announced, attempts := map[], map[], [], [], [];
    }

    /**
     * Messages are stored once, in the order they were handed over, and
     * announced in that order. `hand` is what the consumer took off the queue
     * and knows nothing of yet.
     */
    ghost predicate InOrder(hand: seq<nat>) reads this {
      Rising(committed + (hand + Ids(queue)) + [nextId]) && announced <= committed && Unanswered(hand + Ids(queue))
    }

    ghost predicate Unanswered(ids: seq<nat>) reads this {
      forall id :: id in ids ==> id !in verdicts
    }

    /** A verdict says what happened, and 250 is only ever said of a stored message. */
    ghost predicate Truthful() reads this {
      && (forall id :: id in verdicts ==> id < nextId && (verdicts[id].Stored? <==> id in committed))
      && (forall id :: id in replies ==> id < nextId && (replies[id].Ok250? ==> id in committed))
    }

    /** A session that waits has not replied. */
    ghost predicate OneReply() reads this {
      forall id :: id in waiting ==> id < nextId && id !in replies
    }

    /** No session waits in vain: its message is queued, in hand, stored or answered for. */
    ghost predicate Remembered(hand: seq<nat>) reads this {
      forall id :: id in waiting ==> id in verdicts || id in committed || id in hand + Ids(queue)
    }

    /** A message is announced only after its session was answered. */
    ghost predicate AnsweredFirst() reads this {
      forall id :: id in announced ==> id in verdicts
    }

    /** Every transaction ended as the store answered. */
    ghost predicate Recorded() reads this {
      forall i :: 0 <= i < |attempts| ==> attempts[i].end == answers(i)
    }

    ghost predicate Valid(hand: seq<nat>) reads this {
      Recorded() && InOrder(hand) && Truthful() && OneReply() && Remembered(hand) && AnsweredFirst()
    }

    /** What sessions may change while the consumer is between two steps. */
    twostate predicate SessionsOnly() reads this {
      && verdicts == old(verdicts) && committed == old(committed) && announced == old(announced)
      && attempts == old(attempts)
      && nextId >= old(nextId) && now >= old(now)
      && old(queue) <= queue
      && (forall i :: |old(queue)| <= i < |queue| ==> old(nextId) <= queue[i].id)
      && (forall id :: id in waiting && id < old(nextId) ==> id in old(waiting))
      && (forall id :: id in old(replies) ==> id in replies && replies[id] == old(replies)[id])
    }

    // ---------- Sessions ----------

    /** A session hands its message over, or answers at once if the queue is closed. */
    method HandOver(raw: seq<Byte>, ghost hand: seq<nat>)
      requires Valid(hand)
      modifies `nextId, `queue, `waiting, `replies
      ensures Valid(hand) && SessionsOnly() && nextId == old(nextId) + 1
      ensures if closed then queue == old(queue) && waiting == old(waiting) &&
              replies == old(replies)[old(nextId) := Retry451]
              else
                && queue == old(queue) + [Delivery(old(nextId), raw)]
                && waiting == old(waiting) + {old(nextId)} && replies == old(replies)
    {
      hide Ids, Rising;
      var id := nextId;
      nextId := nextId + 1;
      RisingNext(committed + (hand + Ids(queue)), id);
      if closed {
        replies := replies[id := Retry451];
      } else {
        IdsSnoc(queue, Delivery(id, raw));
        assert hand + (Ids(queue) + [id]) == (hand + Ids(queue)) + [id];
        assert committed + ((hand + Ids(queue)) + [id]) + [nextId] == committed + (hand + Ids(queue)) + [id] + [nextId];
        queue := queue + [Delivery(id, raw)];
        waiting := waiting + {id};
      }
    }

    /** A session answers for the verdict it received. */
    method ReadVerdict(id: nat, ghost hand: seq<nat>)
      requires Valid(hand)
      modifies `replies, `waiting
      ensures Valid(hand) && SessionsOnly()
      ensures if id in old(waiting) && id in verdicts
              then waiting == old(waiting) - {id} &&
                   replies == old(replies)[id := if verdicts[id].Stored? then Ok250 else Retry451]
              else waiting == old(waiting) && replies == old(replies)
    {
      if id in waiting && id in verdicts {
        replies := replies[id := if verdicts[id].Stored? then Ok250 else Retry451];
        waiting := waiting - {id};
      }
    }

    /** A session times out, or finds its delivery dropped unanswered. */
    method GiveUp(id: nat, ghost hand: seq<nat>)
      requires Valid(hand)
      modifies `replies, `waiting
      ensures Valid(hand) && SessionsOnly()
      ensures if id in old(waiting) then waiting == old(waiting) - {id} && replies == old(replies)[id := Retry451]
              else waiting == old(waiting) && replies == old(replies)
    {
      if id in waiting {
        replies := replies[id := Retry451];
        waiting := waiting - {id};
      }
    }

    /** The consumer's end is going away: from now on hand-offs are refused. */
    method Close(ghost hand: seq<nat>)
      requires Valid(hand)
      modifies `closed
      ensures Valid(hand) && SessionsOnly() && closed
    {
      closed := true;
    }

    /** Time passes. */
    method Wait(ghost hand: seq<nat>)
      requires Valid(hand)
      modifies `now
      ensures Valid(hand) && SessionsOnly()
    {
      var seconds: nat := *;
      if seconds > 0 {
        now := now + seconds;
      }
    }

    /** Any sessions take any number of steps. */
    method Interfere(ghost hand: seq<nat>)
      requires Valid(hand)
      modifies this
      ensures Valid(hand) && SessionsOnly()
    {
      var steps: nat := *;
      while steps > 0
        invariant Valid(hand) && SessionsOnly()
      {
        var id: nat, raw: seq<Byte> := *, *;
        if {
          case true => HandOver(raw, hand);
          case true => ReadVerdict(id, hand);
          case true => GiveUp(id, hand);
          case true => Close(hand);
          case true => Wait(hand);
        }
        steps := steps - 1;
      }
    }

    // ---------- The consumer ----------

    lemma CommittedNotPending(hand: seq<nat>)
      requires Valid(hand)
      ensures forall id :: id in committed ==> id !in hand + Ids(queue) && id < nextId
      ensures forall id :: id in hand + Ids(queue) ==> id < nextId
      ensures Rising(committed)
    {
      RisingParts(committed + (hand + Ids(queue)), [nextId]);
      RisingParts(committed, hand + Ids(queue));
      forall id | id in committed ensures id < nextId {
        assert id in committed + (hand + Ids(queue)) && nextId in [nextId];
      }
      forall id | id in hand + Ids(queue) ensures id < nextId {
        assert id in committed + (hand + Ids(queue)) && nextId in [nextId];
      }
    }

    /** The delivery is over: its verdict is known, or its session no longer waits for one. */
    predicate Over(id: nat) reads this {
      id < nextId && (id in verdicts || id !in waiting)
    }

    predicate AllOver(ids: seq<nat>) reads this {
      forall i :: 0 <= i < |ids| ==> Over(ids[i])
    }

    predicate AllRefused(ids: seq<nat>) reads this {
      forall i :: 0 <= i < |ids| ==> ids[i] in verdicts && verdicts[ids[i]].Rejected?
    }

    lemma HandRises(hand: seq<nat>, rest: seq<nat>)
      requires Valid(hand + rest)
      ensures Rising(hand) && forall id :: id in hand ==> id < nextId
    {
      CommittedNotPending(hand + rest);
      assert forall id :: id in hand ==> id in hand + rest + Ids(queue);
      var pending := hand + rest + Ids(queue);
      RisingParts(committed + pending, [nextId]);
      RisingParts(committed, pending);
      assert pending == hand + (rest + Ids(queue));
      RisingParts(hand, rest + Ids(queue));
    }

    method AckStored(id: nat, ghost hand: seq<nat>)
      requires Valid(hand) && id in committed && id !in verdicts
      modifies `verdicts
      ensures Valid(hand) && verdicts == old(verdicts)[id := Stored]
    {
      CommittedNotPending(hand);
      verdicts := verdicts[id := Stored];
    }

    /** A delivery still in hand was not stored, and may be put down if its session is no longer waiting. */
    lemma PutDown(before: seq<nat>, id: nat, after: seq<nat>)
      requires Valid(before + [id] + after)
      ensures InOrder(before + after) && (id !in waiting ==> Valid(before + after))
      ensures forall x :: x in before + [id] + after + Ids(queue) ==> x == id || x in before + after + Ids(queue)
      ensures id !in committed && id !in verdicts && id < nextId && id !in before + after + Ids(queue)
    {
      var tail := after + Ids(queue) + [nextId];
      assert committed + (before + [id] + after + Ids(queue)) + [nextId] == (committed + before) + [id] + tail;
      RisingWithout(committed + before, id, tail);
      assert committed + (before + after + Ids(queue)) + [nextId] == (committed + before) + tail;
      CommittedNotPending(before + [id] + after);
      assert forall x :: x in before + after + Ids(queue) ==> x in before + [id] + after + Ids(queue);
      assert id in before + [id] + after + Ids(queue);
      assert forall x :: x in before + after + Ids(queue) ==> x in committed + before || x in tail;
    }

    method AckRejected(ghost before: seq<nat>, id: nat, ghost after: seq<nat>)
      requires Valid(before + [id] + after)
      modifies `verdicts
      ensures Valid(before + after) && verdicts == old(verdicts)[id := Rejected] && id !in old(verdicts) && id < nextId
    {
      PutDown(before, id, after);
      verdicts := verdicts[id := Rejected];
    }

    /** One transaction. Everything stored before it has been announced by now. */
    method InsertBatch(ids: seq<nat>, ghost rest: seq<nat>) returns (r: Insert)
      requires Valid(ids + rest) && announced == committed
      modifies `committed, `attempts
      ensures r == answers(|old(attempts)|) && attempts == old(attempts) + [Attempt(now, ids, r)]
      ensures if r.Committed? then committed == old(committed) + ids && Valid(rest) && Unanswered(ids)
              else committed == old(committed) && Valid(ids + rest)
    {
      r := answers(|attempts|);
      attempts := attempts + [Attempt(now, ids, r)];
      if r.Committed? {
        assert committed + (ids + rest + Ids(queue)) == committed + ids + (rest + Ids(queue));
        assert forall x :: x in rest + Ids(queue) ==> x in ids + rest + Ids(queue);
        assert forall x :: x in ids ==> x in ids + rest + Ids(queue);
        committed := committed + ids;
      }
    }

    method Announce(id: nat, ghost hand: seq<nat>)
      requires Valid(hand) && |announced| < |committed| && committed[|announced|] == id && id in verdicts
      modifies `announced
      ensures Valid(hand) && announced == old(announced) + [id]
    {
      announced := announced + [id];
    }

    /** Answers for `ids`, just committed. */
    method AckAll(ids: seq<nat>, ghost hand: seq<nat>)
      requires Valid(hand) && committed == announced + ids && Unanswered(ids)
      modifies this
      ensures Valid(hand) && Progress()
      ensures committed == old(committed) && announced == old(announced) && attempts == old(attempts)
      ensures Answers(ids) && forall id :: id in ids ==> id in verdicts
    {
      hide InOrder, OneReply, Truthful, Remembered, AnsweredFirst, Rising, Ids;
      CommittedNotPending(hand);
      AllDistinct(announced, ids);
      var i := 0;
      while i < |ids|
        invariant 0 <= i <= |ids|
        invariant Valid(hand) && Progress()
        invariant committed == old(committed) && announced == old(announced) && attempts == old(attempts)
        invariant Answers(ids) && forall j :: 0 <= j < i ==> ids[j] in verdicts
        invariant forall j :: i <= j < |ids| ==> ids[j] !in verdicts
      {
        Interfere(hand);
        assert committed[|announced| + i] == ids[i];
        AckStored(ids[i], hand);
        i := i + 1;
      }
    }

    /** Announces `ids`, just committed and answered for. */
    method AnnounceAll(ids: seq<nat>, ghost hand: seq<nat>)
      requires Valid(hand) && committed == announced + ids && forall id :: id in ids ==> id in verdicts
      modifies this
      ensures Valid(hand) && Progress() && Answers([])
      ensures committed == old(committed) && announced == committed && attempts == old(attempts)
    {
      var i := 0;
      while i < |ids|
        invariant 0 <= i <= |ids|
        invariant Valid(hand) && Progress() && Answers([])
        invariant committed == old(committed) && announced == old(announced) + ids[..i] && attempts == old(attempts)
      {
        Interfere(hand);
        Announce(ids[i], hand);
        i := i + 1;
      }
    }

    /** Nothing is ever taken back. */
    twostate predicate Progress() reads this {
      && old(committed) <= committed && old(announced) <= announced && nextId >= old(nextId)
      && old(attempts) <= attempts && now >= old(now)
      && (forall id :: id in old(verdicts) ==> id in verdicts && verdicts[id] == old(verdicts)[id])
      && (forall id :: id in old(replies) ==> id in replies && replies[id] == old(replies)[id])
      && (forall id :: id in waiting && id < old(nextId) ==> id in old(waiting))
    }

    /** No verdict was sent but for `ids`. */
    twostate predicate Answers(ids: seq<nat>) reads this {
      forall id :: id in verdicts ==> id in old(verdicts) || id in ids
    }

    /** What is over stays over, and what is refused stays refused. */
    twostate lemma Settled(ids: seq<nat>)
      requires Progress()
      ensures old(AllOver(ids)) ==> AllOver(ids)
      ensures old(AllRefused(ids)) ==> AllRefused(ids)
    {
    }

    lemma OverSnoc(ids: seq<nat>, i: nat)
      requires i < |ids| && AllOver(ids[..i]) && Over(ids[i])
      ensures AllOver(ids[..i + 1])
    {
      assert ids[..i + 1] == ids[..i] + [ids[i]];
    }

    lemma NothingOver(from: nat)
      ensures AllOver([]) && AllServed([], from)
    {
    }

    lemma AnsweredIsOver(ids: seq<nat>, hand: seq<nat>)
      requires Valid(hand)
      ensures (forall id :: id in ids ==> id in verdicts) ==> AllOver(ids)
      ensures AllRefused(ids) ==> AllOver(ids)
    {
      assert forall i :: 0 <= i < |ids| ==> ids[i] in ids;
    }

    lemma OverConcat(a: seq<nat>, b: seq<nat>)
      requires AllOver(a) && AllOver(b)
      ensures AllOver(a + b)
    {
    }

    /** Stores one message in its own transaction, and answers for it unless the store as a whole refused. */
    method StoreAlone(id: nat, ghost hand: seq<nat>) returns (r: Insert)
      requires Valid([id] + hand) && announced == committed
      modifies this
      ensures announced == committed == old(committed) + (if r.Committed? then [id] else []) && Progress()
      ensures attempts == old(attempts) + [Attempt(old(now), [id], r)] && Answers([id])
      ensures if r.RefusedByStore? then Valid([id] + hand) else Valid(hand)
      ensures id < nextId && (id in verdicts <==> !r.RefusedByStore?)
      ensures id in verdicts ==> (verdicts[id].Stored? <==> r.Committed?)
    {
      hide InOrder, OneReply, Remembered, AnsweredFirst, Unanswered, Rising, Ids;
      assert [] + [id] + hand == [id] + hand;
      PutDown([], id, hand);
      r := InsertBatch([id], hand);
      if r.Committed? {
        AckAll([id], hand);
        AnnounceAll([id], hand);
        assert id in [id] && id == committed[|committed| - 1];
      } else if r.RefusedMessages? {
        assert [] + [id] + hand == [id] + hand && [] + hand == hand;
        AckRejected([], id, hand);
      }
    }

    /** The turn of the next message, unless its session gave up or the time is up. */
    method StoreNext(id: nat, deadline: nat, ghost hand: seq<nat>) returns (end: Turn)
      requires Valid([id] + hand) && announced == committed
      modifies this
      ensures announced == committed == old(committed) + (if end.Commits() then [id] else [])
      ensures attempts == old(attempts) + (if end.Attempted? then [end.attempt] else [])
      ensures Progress() && Answers([id])
      ensures end.TooLate? ==> now >= deadline
      ensures end.Attempted? ==> end.attempt.ids == [id] && end.attempt.start < deadline && id in old(waiting)
      ensures if end.Stops() then Valid([id] + hand) else Valid(hand) && Over(id)
      ensures id in verdicts <==> end.Attempted? && !end.Stops()
      ensures id in verdicts ==> (verdicts[id].Stored? <==> end.Commits())
    {
      hide InOrder, OneReply, Truthful, Remembered, AnsweredFirst, Unanswered, Rising, Ids;
      assert [id] + hand == [] + [id] + hand && [] + hand == hand;
      PutDown([], id, hand);
      Interfere([id] + hand);
      PutDown([], id, hand);
      if id !in waiting {
        end := Abandoned;
      } else if now >= deadline {
        end := TooLate;
      } else {
        var start := now;
        var r := StoreAlone(id, hand);
        end := Attempted(Attempt(start, [id], r));
      }
    }

    /** A verdict on a message stored alone says how its own transaction ended. */
    ghost predicate Served(id: nat, from: nat) reads this {
      id in verdicts ==>
        exists i :: from <= i < |attempts| && attempts[i].ids == [id]
                    && attempts[i].end == if verdicts[id].Stored? then Committed else RefusedMessages
    }

    ghost predicate AllServed(ids: seq<nat>, from: nat) reads this {
      forall id :: id in ids ==> Served(id, from)
    }

    /** Who has been served stays so, unless a verdict was missing and came. */
    twostate lemma StaysServed(ids: seq<nat>)
      requires Progress() && forall id :: id in ids && id in verdicts ==> id in old(verdicts)
      ensures forall from: nat :: old(AllServed(ids, from)) ==> AllServed(ids, from)
    {
      forall from: nat | old(AllServed(ids, from)) ensures AllServed(ids, from) {
        forall id | id in ids && id in verdicts ensures Served(id, from) {
          assert old(Served(id, from));
          var i :| from <= i < |old(attempts)| && old(attempts)[i].ids == [id]
                   && old(attempts)[i].end == if old(verdicts)[id].Stored? then Committed else RefusedMessages;
          assert attempts[i] == old(attempts)[i];
        }
      }
    }

    /** These transactions stored one message each, and began in time. */
    ghost predicate Singly(from: nat, to: nat, deadline: nat) reads this {
      forall i :: from <= i < to <= |attempts| ==> attempts[i].start < deadline && |attempts[i].ids| == 1
    }

    /** None of these transactions failed for the store as a whole. */
    ghost predicate Spared(from: nat, to: int) reads this {
      forall i :: from <= i < to <= |attempts| ==> !attempts[i].end.RefusedByStore?
    }

    /**
     * Since `from`, the first `tried` messages had a transaction each or were
     * given up, and the rest were refused, because the time was up or the last
     * of these transactions failed for the store as a whole.
     */
    ghost predicate OneByOne(messages: seq<nat>, tried: nat, from: nat, deadline: nat) reads this {
      && tried <= |messages| && AllServed(messages[..tried], from) && AllRefused(messages[tried..])
      && Singly(from, |attempts|, deadline) && Spared(from, |attempts| - 1)
      && (tried < |messages| ==>
            now >= deadline || (|attempts| > from && attempts[|attempts| - 1].end.RefusedByStore?))
    }

    lemma ServedSnoc(ids: seq<nat>, i: nat, from: nat)
      requires i < |ids| && AllServed(ids[..i], from)
      requires ids[i] in verdicts ==>
        && from < |attempts| && attempts[|attempts| - 1].ids == [ids[i]]
        && attempts[|attempts| - 1].end == if verdicts[ids[i]].Stored? then Committed else RefusedMessages
      ensures AllServed(ids[..i + 1], from)
    {
      assert ids[..i + 1] == ids[..i] + [ids[i]];
    }

    /** The turn of the first message left, after those that had theirs. */
    method TakeTurn(messages: seq<nat>, tried: nat, deadline: nat, ghost rest: seq<nat>, ghost from: nat)
      returns (end: Turn)
      requires tried < |messages| && Valid(messages[tried..] + rest) && announced == committed && Rising(messages)
      requires AllOver(messages[..tried]) && AllServed(messages[..tried], from) && from <= |attempts|
      modifies this
      ensures announced == committed == old(committed) + (if end.Commits() then [messages[tried]] else [])
      ensures attempts == old(attempts) + (if end.Attempted? then [end.attempt] else [])
      ensures Progress() && Answers([messages[tried]])
      ensures end.TooLate? ==> now >= deadline
      ensures end.Attempted? ==> end.attempt.ids == [messages[tried]] && end.attempt.start < deadline
      ensures var had := if end.Stops() then tried else tried + 1;
              Valid(messages[had..] + rest) && AllOver(messages[..had]) && AllServed(messages[..had], from)
    {
      hide InOrder, OneReply, Truthful, Remembered, AnsweredFirst, Unanswered, Rising, Ids, AllOver, AllServed;
      hide Valid;
      var id := messages[tried];
      ghost var hand := messages[tried + 1..] + rest;
      assert messages[tried..] + rest == [id] + hand;
      end := StoreNext(id, deadline, hand);
      PartsApart(messages, tried);
      Settled(messages[..tried]);
      StaysServed(messages[..tried]);
      if !end.Stops() {
        OverSnoc(messages, tried);
        ServedSnoc(messages, tried, from);
      }
    }

    /**
     * A transaction for each message, so that a bad one takes none with it.
     * `tried` messages had their turn; the rest are refused untried, once the
     * time was up or the store as a whole refused.
     */
    method StoreOneByOne(messages: seq<nat>, deadline: nat, ghost rest: seq<nat>) returns (stored: seq<nat>, tried: nat)
      requires Valid(messages + rest) && announced == committed
      modifies this
      ensures Valid(rest) && announced == committed == old(committed) + stored && Progress() && Answers(messages)
      ensures tried <= |messages| && AllOver(messages[..tried])
      ensures OneByOne(messages, tried, |old(attempts)|, deadline)
      ensures forall id :: id in stored ==> id in messages[..tried]
      ensures |attempts| <= |old(attempts)| + tried + 1
      ensures |attempts| > |old(attempts)| && attempts[|attempts| - 1].end.RefusedByStore? ==> tried < |messages|
    {
      ghost var from := |attempts|;
      hide InOrder, OneReply, Truthful, Remembered, AnsweredFirst, Unanswered, Rising, Ids, AllOver, AllRefused,
           AllServed, Valid, Over;
      stored, tried := [], 0;
      assert messages[0..] == messages && messages[..0] == [];
      NothingOver(from);
      HandRises(messages, rest);
      while tried < |messages|
        invariant 0 <= tried <= |messages|
        invariant Valid(messages[tried..] + rest) && announced == committed == old(committed) + stored && Progress()
        invariant AllOver(messages[..tried]) && AllServed(messages[..tried], from)
        invariant Answers(messages)
        invariant forall id :: id in stored ==> id in messages[..tried]
        invariant |attempts| <= |old(attempts)| + tried
        invariant Singly(from, |attempts|, deadline) && Spared(from, |attempts|)
      {
        var end := TakeTurn(messages, tried, deadline, rest, from);
        if end.Stops() {
          break;
        }
        if end.Commits() {
          stored := stored + [messages[tried]];
        }
        assert messages[..tried + 1] == messages[..tried] + [messages[tried]];
        tried := tried + 1;
      }
      RejectUntried(messages, tried, rest, from);
    }

    /** Refuses the messages that had no turn. */
    method RejectUntried(messages: seq<nat>, tried: nat, ghost rest: seq<nat>, ghost from: nat)
      requires tried <= |messages| && Valid(messages[tried..] + rest) && Rising(messages)
      requires AllOver(messages[..tried]) && AllServed(messages[..tried], from)
      modifies this
      ensures Valid(rest) && AllRefused(messages[tried..]) && Progress() && Answers(messages)
      ensures AllOver(messages[..tried]) && AllServed(messages[..tried], from)
      ensures committed == old(committed) && announced == old(announced) && attempts == old(attempts)
    {
      hide InOrder, OneReply, Truthful, Remembered, AnsweredFirst, Unanswered, Rising, Ids, AllOver, AllRefused,
           AllServed, Valid, Over;
      RejectRest(messages[tried..], rest);
      PartsApart(messages, tried);
      Settled(messages[..tried]);
      StaysServed(messages[..tried]);
      assert messages == messages[..tried] + messages[tried..];
    }

    /** Refuses every delivery left. */
    method RejectRest(ids: seq<nat>, ghost rest: seq<nat>)
      requires Valid(ids + rest)
      modifies this
      ensures Valid(rest) && AllRefused(ids) && Progress() && Answers(ids)
      ensures committed == old(committed) && announced == old(announced) && attempts == old(attempts)
    {
      hide InOrder, OneReply, Truthful, Remembered, AnsweredFirst, Unanswered, Rising, Ids;
      var i := 0;
      assert ids[0..] == ids;
      while i < |ids|
        invariant 0 <= i <= |ids|
        invariant Valid(ids[i..] + rest) && AllRefused(ids[..i]) && Progress() && Answers(ids)
        invariant committed == old(committed) && announced == old(announced) && attempts == old(attempts)
      {
        Interfere(ids[i..] + rest);
        assert ids[i..] + rest == [] + [ids[i]] + (ids[i + 1..] + rest);
        assert [] + (ids[i + 1..] + rest) == ids[i + 1..] + rest;
        AckRejected([], ids[i], ids[i + 1..] + rest);
        assert ids[..i + 1] == ids[..i] + [ids[i]];
        i := i + 1;
      }
      assert ids[i..] + rest == rest && ids[..i] == ids;
    }

    /** Why a delivery was not kept for storing: its session gave up, or it was refused because it cannot be parsed. */
    ghost predicate Dropped(d: Delivery) reads this {
      && d.id < nextId
      && (d.id in verdicts ==> verdicts[d.id].Rejected? && !parses(d.raw))
      && (d.id !in verdicts ==> d.id !in waiting)
    }

    /** Of `group`, what is kept can be parsed and its session waited when it was taken up; the rest was dropped. */
    ghost predicate Sifted(group: seq<Delivery>, kept: seq<nat>, waited: set<nat>) reads this {
      forall d :: d in group ==> if d.id in kept then parses(d.raw) && d.id in waited else Dropped(d)
    }

    /** What was dropped stays dropped, if it gets no verdict after all. */
    twostate lemma StaysSifted(group: seq<Delivery>)
      requires Progress()
      ensures forall kept: seq<nat>, waited :: old(Sifted(group, kept, waited)) && Untold(group, kept) ==>
        Sifted(group, kept, waited)
    {
      forall kept: seq<nat>, waited | old(Sifted(group, kept, waited)) && Untold(group, kept)
        ensures Sifted(group, kept, waited)
      {
        forall d | d in group && d.id !in kept ensures Dropped(d) {
          assert old(Dropped(d));
        }
      }
    }

    /** No verdict was sent for what was not kept of `group`. */
    twostate predicate Untold(group: seq<Delivery>, kept: seq<nat>) reads this {
      forall d :: d in group && d.id !in kept && d.id in verdicts ==> d.id in old(verdicts)
    }

    lemma SiftedSnoc(group: seq<Delivery>, i: nat, kept: seq<nat>, waited: set<nat>, keep: bool)
      requires i < |group| && Rising(Ids(group)) && Sifted(group[..i], kept, waited) && Selected(kept, Ids(group[..i]))
      requires if keep then parses(group[i].raw) && group[i].id in waited else Dropped(group[i])
      ensures var more := if keep then kept + [group[i].id] else kept;
              Sifted(group[..i + 1], more, waited) && Selected(more, Ids(group[..i + 1]))
    {
      hide Rising, Dropped, Selected, Ids;
      GroupApart(group, i);
      SelectedIn(kept, Ids(group[..i]));
      assert group[..i + 1] == group[..i] + [group[i]];
      IdsSnoc(group[..i], group[i]);
      SelectedSnoc(kept, Ids(group[..i]), group[i].id);
      IdsHas(group[..i]);
    }

    /** Drops the next delivery of a group if nobody waits for it, and refuses it if it cannot be parsed. */
    method PrepareNext(group: seq<Delivery>, i: nat, messages: seq<nat>, ghost rest: seq<nat>, ghost waited: set<nat>)
      returns (more: seq<nat>)
      requires i < |group| && Valid(messages + Ids(group[i..]) + rest) && Rising(Ids(group))
      requires Sifted(group[..i], messages, waited) && Selected(messages, Ids(group[..i]))
      requires group[i].id in waiting ==> group[i].id in waited
      modifies this
      ensures Valid(more + Ids(group[i + 1..]) + rest) && Progress() && Answers([group[i].id])
      ensures committed == old(committed) && announced == old(announced) && attempts == old(attempts)
      ensures Sifted(group[..i + 1], more, waited) && Selected(more, Ids(group[..i + 1]))
    {
      hide InOrder, OneReply, Truthful, Remembered, AnsweredFirst, Unanswered, Rising, Ids, Selected, Sifted, Valid;
      var d := group[i];
      ghost var after := Ids(group[i + 1..]) + rest;
      IdsCons(group, i);
      assert messages + Ids(group[i..]) + rest == messages + [d.id] + after;
      assert messages + after == messages + Ids(group[i + 1..]) + rest;
      assert messages + [d.id] + after == (messages + [d.id]) + Ids(group[i + 1..]) + rest;
      PutDown(messages, d.id, after);
      Interfere(messages + [d.id] + after);
      PutDown(messages, d.id, after);
      var keep := d.id in waiting && parses(d.raw);
      more := messages;
      if keep {
        more := messages + [d.id];
      } else if d.id in waiting {
        AckRejected(messages, d.id, after);
      }
      GroupApart(group, i);
      StaysSifted(group[..i]);
      assert Untold(group[..i], messages);
      SiftedSnoc(group, i, messages, waited, keep);
    }

    /** Drops what nobody waits for, and refuses what cannot be parsed. */
    method Prepare(group: seq<Delivery>, ghost rest: seq<nat>) returns (messages: seq<nat>)
      requires Valid(Ids(group) + rest)
      modifies this
      ensures Valid(messages + rest) && Progress() && Answers(Ids(group))
      ensures committed == old(committed) && announced == old(announced) && attempts == old(attempts)
      ensures Selected(messages, Ids(group)) && Sifted(group, messages, old(waiting))
    {
      hide InOrder, OneReply, Truthful, Remembered, AnsweredFirst, Unanswered, Rising, Ids, Selected, Sifted, Valid;
      messages := [];
      var i := 0;
      HandRises(Ids(group), rest);
      IdsHas(group);
      assert Ids(group[..0]) == [] by { IdsEmpty(); }
      assert group[0..] == group && [] + Ids(group[0..]) + rest == Ids(group) + rest;
      SelectedEmpty();
      NothingSifted(old(waiting));
      while i < |group|
        invariant 0 <= i <= |group|
        invariant Valid(messages + Ids(group[i..]) + rest) && Progress() && Answers(Ids(group))
        invariant committed == old(committed) && announced == old(announced) && attempts == old(attempts)
        invariant Selected(messages, Ids(group[..i])) && Sifted(group[..i], messages, old(waiting))
      {
        assert group[i] in group;
        messages := PrepareNext(group, i, messages, rest, old(waiting));
        i := i + 1;
      }
      assert group[i..] == [] && group[..i] == group;
      IdsEmpty();
      assert messages + Ids(group[i..]) + rest == messages + rest;
    }

    lemma NothingSifted(waited: set<nat>)
      ensures Sifted([], [], waited)
    {
    }

    /** What became of a delivery: stored, refused for cause, or given up by its session. */
    ghost predicate Fate(d: Delivery, stored: seq<nat>, waited: set<nat>, from: nat) reads this {
      && d.id < nextId
      && if d.id !in verdicts then d.id !in waiting && d.id !in stored
         else if verdicts[d.id].Stored? then d.id in stored && parses(d.raw) && d.id in waited
         else d.id !in stored && (parses(d.raw) ==> Failed(d.id, from))
    }

    /** A transaction that held the message failed. */
    ghost predicate Failed(id: nat, from: nat) reads this {
      exists i :: from <= i < |attempts| && id in attempts[i].ids && !attempts[i].end.Committed?
    }

    ghost predicate AllFates(group: seq<Delivery>, stored: seq<nat>, waited: set<nat>, from: nat) reads this {
      forall d :: d in group ==> Fate(d, stored, waited, from)
    }

    lemma NoFates(waited: set<nat>, from: nat)
      ensures AllFates([], [], waited, from)
    {
    }

    /** The fates in a group, once it was stored as far as it could be. */
    lemma GroupFates(group: seq<Delivery>, messages: seq<nat>, stored: seq<nat>, before: seq<nat>, waited: set<nat>,
                     from: nat, deadline: nat, rest: seq<nat>)
      requires Valid(rest)
      requires announced == committed == before + stored && forall d :: d in group ==> d.id !in before
      requires Sifted(group, messages, waited) && AllOver(messages) && forall id :: id in stored ==> id in messages
      requires messages != [] ==> StoredWhole(messages, stored, from, deadline)
      ensures AllFates(group, stored, waited, from)
    {
      hide InOrder, OneReply, Remembered, Ids;
      forall d | d in group ensures Fate(d, stored, waited, from) {
        assert d.id in committed <==> d.id in stored;
        if d.id in messages {
          var k :| 0 <= k < |messages| && messages[k] == d.id;
          assert Over(messages[k]);
          if d.id in verdicts && verdicts[d.id].Rejected? {
            assert d.id in attempts[from].ids;
          }
        } else {
          assert Dropped(d);
        }
      }
    }

    /** What became of a delivery is not undone by storing others. */
    twostate lemma StaysFated(group: seq<Delivery>)
      requires Progress() && Untold(group, [])
      ensures forall stored, waited, from: nat :: old(AllFates(group, stored, waited, from)) ==>
        AllFates(group, stored, waited, from)
    {
      forall stored, waited, from: nat | old(AllFates(group, stored, waited, from))
        ensures AllFates(group, stored, waited, from)
      {
        forall d | d in group ensures Fate(d, stored, waited, from) {
          assert old(Fate(d, stored, waited, from));
          if d.id in verdicts && verdicts[d.id].Rejected? && parses(d.raw) {
            var i :| from <= i < |old(attempts)| && d.id in old(attempts)[i].ids && !old(attempts)[i].end.Committed?;
            assert attempts[i] == old(attempts)[i];
          }
        }
      }
    }

    /** The fates of one group after another. */
    lemma MoreFates(done: seq<Delivery>, stored: seq<nat>, waited: set<nat>, from: nat,
                    group: seq<Delivery>, more: seq<nat>, waitedThen: set<nat>, fromThen: nat)
      requires AllFates(done, stored, waited, from) && AllFates(group, more, waitedThen, fromThen) && from <= fromThen
      requires forall d, e :: d in done && e in group ==> d.id != e.id
      requires forall id :: id in stored ==> id in Ids(done)
      requires forall id :: id in more ==> id in Ids(group)
      requires forall d :: d in group && d.id in waitedThen ==> d.id in waited
      ensures AllFates(done + group, stored + more, waited, from)
    {
      IdsHas(done);
      IdsHas(group);
      hide Ids;
      forall d | d in done + group ensures Fate(d, stored + more, waited, from) {
        if d in done {
          assert Fate(d, stored, waited, from) && d.id !in more;
        } else {
          assert Fate(d, more, waitedThen, fromThen) && d.id !in stored;
        }
      }
    }

    lemma FatesOver(group: seq<Delivery>, stored: seq<nat>, waited: set<nat>, from: nat)
      requires AllFates(group, stored, waited, from)
      ensures AllOver(Ids(group))
    {
      forall i | 0 <= i < |group| ensures Over(group[i].id) {
        assert Fate(group[i], stored, waited, from);
      }
    }

    /** Stores a group in one transaction, or its messages one at a time if one of them is refused. */
    method StoreGroup(group: seq<Delivery>, deadline: nat, ghost rest: seq<nat>)
      returns (stored: seq<nat>, ghost messages: seq<nat>)
      requires Valid(Ids(group) + rest) && announced == committed
      modifies this
      ensures Valid(rest) && announced == committed == old(committed) + stored && Progress() && Answers(Ids(group))
      ensures Selected(messages, Ids(group)) && Sifted(group, messages, old(waiting)) && AllOver(Ids(group))
      ensures AllFates(group, stored, old(waiting), |old(attempts)|)
      ensures forall id :: id in stored ==> id in messages
      ensures if messages == [] then attempts == old(attempts) && stored == []
              else StoredWhole(messages, stored, |old(attempts)|, deadline)
    {
      hide InOrder, OneReply, Truthful, Remembered, AnsweredFirst, Unanswered, Rising, Ids, Selected, AllOver,
           Sifted, AllFates, StoredWhole, Valid;
      PendingUncommitted(group, rest);
      var prepared := Prepare(group, rest);
      messages := prepared;
      SelectedIn(messages, Ids(group));
      stored := [];
      if prepared == [] {
        NothingOver(0);
        assert messages + rest == rest;
      } else {
        label Prepared:
        stored := StoreWhole(prepared, deadline, rest);
        StaysSifted@Prepared(group);
      }
      GroupFates(group, messages, stored, old(committed), old(waiting), |old(attempts)|, deadline, rest);
      FatesOver(group, stored, old(waiting), |old(attempts)|);
    }

    /** What is in hand is not stored. */
    lemma PendingUncommitted(group: seq<Delivery>, rest: seq<nat>)
      requires Valid(Ids(group) + rest)
      ensures forall d :: d in group ==> d.id !in committed
    {
      CommittedNotPending(Ids(group) + rest);
      IdsHas(group);
    }

    ghost predicate StoredSingly(messages: seq<nat>, from: nat, deadline: nat) reads this {
      exists tried :: OneByOne(messages, tried, from, deadline)
    }

    /**
     * `messages` were put to the store in one transaction, the one at `from`,
     * and then one at a time if it was refused for one of several.
     */
    ghost predicate StoredWhole(messages: seq<nat>, stored: seq<nat>, from: nat, deadline: nat) reads this {
      && from < |attempts| && attempts[from].ids == messages
      && match attempts[from].end
         case Committed => stored == messages && |attempts| == from + 1
         case RefusedByStore => stored == [] && AllRefused(messages) && |attempts| == from + 1
         case RefusedMessages =>
           if |messages| == 1 then stored == [] && AllRefused(messages) && |attempts| == from + 1
           else StoredSingly(messages, from + 1, deadline)
    }

    /** Stores prepared messages in one transaction, or one at a time if one of them is refused. */
    method StoreWhole(messages: seq<nat>, deadline: nat, ghost rest: seq<nat>) returns (stored: seq<nat>)
      requires Valid(messages + rest) && announced == committed && messages != []
      modifies this
      ensures Valid(rest) && announced == committed == old(committed) + stored && Progress() && Answers(messages)
      ensures AllOver(messages) && forall id :: id in stored ==> id in messages
      ensures StoredWhole(messages, stored, |old(attempts)|, deadline)
    {
      hide InOrder, OneReply, Truthful, Remembered, AnsweredFirst, Rising, Ids, AllOver, AllRefused, OneByOne;
      stored := [];
      Interfere(messages + rest);
      var r := InsertBatch(messages, rest);
      if r.Committed? {
        AckAll(messages, rest);
        AnnounceAll(messages, rest);
        stored := messages;
        AnsweredIsOver(messages, rest);
      } else if |messages| == 1 || r.RefusedByStore? {
        RejectRest(messages, rest);
        AnsweredIsOver(messages, rest);
      } else {
        var tried;
        stored, tried := StoreOneByOne(messages, deadline, rest);
        AllTried(messages, tried, |old(attempts)| + 1, deadline, rest);
      }
    }

    lemma AllTried(messages: seq<nat>, tried: nat, from: nat, deadline: nat, hand: seq<nat>)
      requires OneByOne(messages, tried, from, deadline) && AllOver(messages[..tried]) && Valid(hand)
      ensures AllOver(messages)
    {
      AnsweredIsOver(messages[tried..], hand);
      OverConcat(messages[..tried], messages[tried..]);
      assert messages == messages[..tried] + messages[tried..];
    }

    lemma NoGroups()
      ensures Concat([]) == []
    {
    }

    lemma OneGroupMore(groups: seq<seq<Delivery>>, i: nat, stored: seq<nat>, more: seq<nat>)
      requires i < |groups| && forall id :: id in stored ==> id in Ids(Concat(groups[..i]))
      requires forall id :: id in more ==> id in Ids(groups[i])
      ensures Concat(groups[..i + 1]) == Concat(groups[..i]) + groups[i]
      ensures forall id :: id in stored + more ==> id in Ids(Concat(groups[..i + 1]))
    {
      hide Ids, Concat;
      assert groups[..i + 1] == groups[..i] + [groups[i]];
      ConcatSnoc(groups[..i], groups[i]);
      GroupsSnoc(groups, i);
    }

    /** Stores a batch group by group, announcing each group before the next is stored. */
    method StoreAndAnnounce(batch: seq<Delivery>) returns (stored: seq<nat>)
      requires Valid(Ids(batch)) && announced == committed
      modifies this
      ensures Valid([]) && announced == committed == old(committed) + stored && Progress()
      ensures forall id :: id in stored ==> id in Ids(batch)
      ensures AllOver(Ids(batch)) && AllFates(batch, stored, old(waiting), |old(attempts)|)
    {
      hide InOrder, OneReply, Truthful, Remembered, AnsweredFirst, Unanswered, Rising, Ids, Splits, Selected, AllOver,
           Valid, Over, Sifted, AllFates, Fate, StoredWhole, Concat, FitsOneTransaction, StaysAhead, RawBytes;
      var deadline := now + FALLBACK_BUDGET;
      var groups := Split(batch);
      stored := [];
      var i := 0;
      ghost var todo := batch;
      assert groups[..0] == [] && Concat(groups[..0]) == [] by { NoGroups(); }
      assert Ids(batch) + [] == Ids(batch);
      HandRises(Ids(batch), []);
      IdsHas(batch);
      NoFates(waiting, |attempts|);
      while i < |groups|
        invariant 0 <= i <= |groups|
        invariant Concat(groups[..i]) + todo == batch
        invariant Valid(Ids(todo)) && announced == committed == old(committed) + stored && Progress()
        invariant forall id :: id in stored ==> id in Ids(Concat(groups[..i]))
        invariant AllFates(Concat(groups[..i]), stored, old(waiting), |old(attempts)|)
      {
        label Turn:
        var group := groups[i];
        ghost var tail := NextGroup(groups, i, batch, todo);
        ghost var done := Concat(groups[..i]);
        ghost var messages;
        var more;
        ghost var from := |attempts|;
        ghost var waited := waiting;
        more, messages := StoreGroup(group, deadline, Ids(tail));
        SelectedIn(messages, Ids(group));
        IdsApart(done, todo);
        IdsHas(group);
        assert Untold@Turn(done, []);
        StaysFated@Turn(done);
        MoreFates(done, stored, old(waiting), |old(attempts)|, group, more, waited, from);
        OneGroupMore(groups, i, stored, more);
        stored := stored + more;
        todo := tail;
        i := i + 1;
      }
      assert groups[..i] == groups;
      AllGroups(groups, batch, todo);
      FatesOver(batch, stored, old(waiting), |old(attempts)|);
    }

    /**
     * With a store that takes every transaction, whoever is still waiting with
     * a message that parses is told it is stored.
     */
    lemma NothingRefused(batch: seq<Delivery>, stored: seq<nat>, waited: set<nat>, from: nat, hand: seq<nat>)
      requires Valid(hand) && AllFates(batch, stored, waited, from) && forall n :: answers(n).Committed?
      ensures forall d :: d in batch && parses(d.raw) && d.id in waiting ==>
        d.id in stored && d.id in verdicts && verdicts[d.id].Stored?
    {
      forall d | d in batch && parses(d.raw) && d.id in waiting
        ensures d.id in stored && d.id in verdicts && verdicts[d.id].Stored?
      {
        assert Fate(d, stored, waited, from);
      }
    }

    /**
     * Takes what is queued, up to a batch, after sessions had their say. A
     * closed queue is still drained.
     */
    method NextBatch() returns (batch: seq<Delivery>)
      requires Valid([])
      modifies this
      ensures old(queue) <= batch + queue && Valid(Ids(batch))
      ensures |batch| == if |batch + queue| <= MAX_BATCH_MESSAGES then |batch + queue| else MAX_BATCH_MESSAGES
      ensures committed == old(committed) && announced == old(announced) && Progress()
    {
      hide Rising, Ids;
      Interfere([]);
      var n := if |queue| <= MAX_BATCH_MESSAGES then |queue| else MAX_BATCH_MESSAGES;
      batch := queue[..n];
      IdsConcat(batch, queue[n..]);
      assert queue == batch + queue[n..];
      ghost var pending := [] + Ids(queue);
      queue := queue[n..];
      assert Ids(batch) + Ids(queue) == pending;
      assert Remembered(Ids(batch)) && Unanswered(pending);
    }

    /** The consumer, for any number of batches. */
    method Consume(batches: nat) returns (stored: seq<nat>)
      requires Valid([]) && announced == committed
      modifies this
      ensures Valid([]) && announced == committed == old(committed) + stored && Progress()
    {
      hide InOrder, OneReply, Truthful, Remembered, AnsweredFirst, Unanswered, Rising, Ids;
      stored := [];
      for i := 0 to batches
        invariant Valid([]) && announced == committed == old(committed) + stored && Progress()
      {
        var batch := NextBatch();
        var more := StoreAndAnnounce(batch);
        stored := stored + more;
      }
    }

    /**
     * What holds between any two steps: a message is stored once, 250 is said
     * only of a stored message, a refused message is not stored, and
     * announcements follow the order in which messages were handed over and
     * stored.
     */
    lemma WhatIsPromised(hand: seq<nat>)
      requires Valid(hand)
      ensures forall i, j :: 0 <= i < j < |committed| ==> committed[i] < committed[j]
      ensures forall id :: id in replies && replies[id].Ok250? ==> id in committed && id !in waiting
      ensures forall id :: id in verdicts && verdicts[id].Rejected? ==> id !in committed
      ensures forall i :: 0 <= i < |announced| ==>
        announced[i] == committed[i] && announced[i] in verdicts && verdicts[announced[i]].Stored?
      ensures forall id :: id in hand + Ids(queue) ==> id !in verdicts && id !in committed
    {
      CommittedNotPending(hand);
    }

    /** Once the queue is drained and everything stored is announced, nobody waits for an answer that will not come. */
    lemma NobodyForgotten(id: nat)
      requires Valid([]) && announced == committed && queue == []
      requires id in waiting
      ensures id in verdicts && (verdicts[id].Stored? <==> id in committed)
    {
      assert [] + Ids(queue) == [];
      assert id in announced <==> id in committed;
    }
  }
}
