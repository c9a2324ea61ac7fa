/** Forwarding WebSocket frames to the bounded event queue of the client without ever blocking the reader. */
module TuiPump {
  type Frame = string

  datatype Item = WsMessage(frame: Frame) | WsOverflow

  /** An attempt to queue an item, and whether it was taken. */
  datatype Attempt = Attempt(item: Item, taken: bool)

  /**
   * The event queue as its sender sees it: each attempt finds it with room or
   * without, depending on what the client has taken meanwhile, until the
   * client closes it.
   */
  class EventQueue {
    /** Whether attempt `n` finds room, and finds the client still listening. */
    const room: nat -> bool
    const open: nat -> bool
    var sent: seq<Item>
    var closed: bool
    ghost var attempts: seq<Attempt>
    var count: nat

    constructor (room: nat -> bool, open: nat -> bool)
      ensures Valid() && sent == [] && !closed && attempts == [] && this.room == room && this.open == open
    {
      this.room, this.open := room, open;
      sent, closed, attempts, count := [], false, [], 0;
    }

    ghost predicate Valid() reads this {
      && count == |attempts|
      && (closed ==> exists n: nat :: n < count && !open(n))
      && (forall n :: 0 <= n < count && !attempts[n].taken ==> closed || !room(n))
    }

    /** Queues `item` if there is room right now. */
    method TrySend(item: Item) returns (ok: bool)
      requires Valid()
      modifies this
      ensures Valid() && attempts == old(attempts) + [Attempt(item, ok)]
      ensures closed == (old(closed) || !open(|old(attempts)|)) && ok == (!closed && room(|old(attempts)|))
      ensures sent == if ok then old(sent) + [item] else old(sent)
    {
      closed := closed || !open(count);
      ok := !closed && room(count);
      Record(item, ok);
    }

    /** Waits for room and queues `item`; fails only once the client has closed the queue. */
    method Send(item: Item) returns (ok: bool)
      requires Valid()
      modifies this
      ensures Valid() && attempts == old(attempts) + [Attempt(item, ok)]
      ensures closed == (old(closed) || !open(|old(attempts)|)) && ok == !closed
      ensures sent == if ok then old(sent) + [item] else old(sent)
    {
      closed := closed || !open(count);
      ok := !closed;
      Record(item, ok);
    }

    method Record(item: Item, ok: bool)
      requires count == |attempts|
      modifies `sent, `attempts, `count
      ensures attempts == old(attempts) + [Attempt(item, ok)] && count == |attempts|
      ensures sent == if ok then old(sent) + [item] else old(sent)
    {
      attempts, count := attempts + [Attempt(item, ok)], count + 1;
      if ok {
        sent := sent + [item];
      }
    }
  }

  /** A frame the queue never got. */
  const DROPPED: int := -1
  /** A drop no overflow has been queued for yet. */
  const UNPAID: int := -1
  /** A frame there was no attempt to queue. */
  const UNTRIED: int := -1

  /**
   * What became of each frame. `at[i]` is where frame `i` went in the queue, and
   * `paid[i]` the overflow that stands for a dropped frame `i`. `cause[q]` is
   * the frame that item `q` delivers or stands for, and `tried[i]` the attempt
   * to queue frame `i`.
   */
  datatype Fate = Fate(at: seq<int>, paid: seq<int>, cause: seq<nat>, tried: seq<int>)

  /** Delivered frames keep their text and their order. */
  ghost predicate Delivered(frames: seq<Frame>, at: seq<int>, out: seq<Item>)
    requires |at| == |frames|
  {
    && (forall i :: 0 <= i < |at| && at[i] != DROPPED ==> 0 <= at[i] < |out| && out[at[i]] == WsMessage(frames[i]))
    && (forall i, j :: 0 <= i < j < |at| && at[i] != DROPPED && at[j] != DROPPED ==> at[i] < at[j])
  }

  /**
   * Every drop has an overflow after all earlier deliveries and before all
   * later ones, or is a debt with none later.
   */
  ghost predicate MadeUp(at: seq<int>, paid: seq<int>, out: seq<Item>, owed: bool)
    requires |at| == |paid|
  {
    && (forall i :: 0 <= i < |at| && at[i] == DROPPED && paid[i] != UNPAID ==>
         0 <= paid[i] < |out| && out[paid[i]] == WsOverflow)
    && (forall i, h :: 0 <= i < |at| && 0 <= h < |at| && at[i] == DROPPED && at[h] != DROPPED && paid[i] != UNPAID ==>
          (if h < i then at[h] < paid[i] else paid[i] < at[h]))
    && (forall i, h :: 0 <= i < h < |at| && at[i] == DROPPED && paid[i] == UNPAID ==> at[h] == DROPPED)
    && (forall i :: 0 <= i < |at| && at[i] == DROPPED && paid[i] == UNPAID ==> owed)
  }

  /** Nothing is queued but what a frame delivers or a drop calls for. */
  ghost predicate Caused(fate: Fate, out: seq<Item>)
    requires |fate.at| == |fate.paid| && |fate.cause| == |out|
  {
    forall q :: 0 <= q < |out| ==>
      && fate.cause[q] < |fate.at|
      && (if out[q].WsMessage? then fate.at[fate.cause[q]] == q
          else fate.at[fate.cause[q]] == DROPPED && fate.paid[fate.cause[q]] == q)
  }

  /**
   * A frame is delivered exactly if its attempt was taken. One is passed over
   * only behind a dropped frame that the same overflow stands for.
   */
  ghost predicate Attempted(frames: seq<Frame>, fate: Fate, attempts: seq<Attempt>) {
    && |fate.at| == |fate.paid| == |fate.tried| == |frames|
    && (forall i :: 0 <= i < |frames| && fate.tried[i] != UNTRIED ==>
          0 <= fate.tried[i] < |attempts|
          && attempts[fate.tried[i]] == Attempt(WsMessage(frames[i]), fate.at[i] != DROPPED))
    && (forall i :: 0 <= i < |frames| && fate.tried[i] == UNTRIED ==>
          0 < i && fate.at[i] == DROPPED && fate.at[i - 1] == DROPPED && fate.paid[i - 1] == fate.paid[i])
  }

  ghost predicate Forwarded(frames: seq<Frame>, fate: Fate, out: seq<Item>, owed: bool) {
    && |fate.at| == |frames| && |fate.paid| == |frames| && |fate.cause| == |out|
    && Delivered(frames, fate.at, out)
    && MadeUp(fate.at, fate.paid, out, owed)
    && Caused(fate, out)
    && (owed ==> frames != [] && fate.at[|frames| - 1] == DROPPED && fate.paid[|frames| - 1] == UNPAID)
  }

  function Deliver(fate: Fate, frame: nat, q: int, attempt: int): Fate {
    Fate(fate.at + [q], fate.paid + [UNPAID], fate.cause + [frame], fate.tried + [attempt])
  }

  function Drop(fate: Fate, attempt: int): Fate {
    Fate(fate.at + [DROPPED], fate.paid + [UNPAID], fate.cause, fate.tried + [attempt])
  }

  /** One overflow stands for every drop not stood for yet. */
  function Settle(fate: Fate, frame: nat, q: int): Fate
    requires |fate.at| == |fate.paid|
  {
    Fate(fate.at, seq(|fate.paid|, i requires 0 <= i < |fate.paid| =>
                        if fate.at[i] == DROPPED && fate.paid[i] == UNPAID then q else fate.paid[i]),
         fate.cause + [frame], fate.tried)
  }

  lemma Delivers(frames: seq<Frame>, fate: Fate, out: seq<Item>, text: Frame, attempt: int)
    requires Forwarded(frames, fate, out, false)
    ensures Forwarded(frames + [text], Deliver(fate, |frames|, |out|, attempt), out + [WsMessage(text)], false)
  {
    hide MadeUp, Caused, Delivered;
    DeliversInOrder(frames, fate.at, out, text);
    DeliversPaid(fate.at, fate.paid, out, WsMessage(text));
    DeliversCaused(fate, out, |frames|, attempt, text);
  }

  lemma DeliversInOrder(frames: seq<Frame>, at: seq<int>, out: seq<Item>, text: Frame)
    requires |at| == |frames| && Delivered(frames, at, out)
    ensures Delivered(frames + [text], at + [|out|], out + [WsMessage(text)])
  {
  }

  lemma DeliversPaid(at: seq<int>, paid: seq<int>, out: seq<Item>, item: Item)
    requires |at| == |paid| && MadeUp(at, paid, out, false)
    ensures MadeUp(at + [|out|], paid + [UNPAID], out + [item], false)
  {
  }

  lemma DeliversCaused(fate: Fate, out: seq<Item>, frame: nat, attempt: int, text: Frame)
    requires |fate.at| == |fate.paid| == frame && |fate.cause| == |out| && Caused(fate, out)
    ensures Caused(Deliver(fate, frame, |out|, attempt), out + [WsMessage(text)])
  {
  }

  lemma Drops(frames: seq<Frame>, fate: Fate, out: seq<Item>, owed: bool, text: Frame, attempt: int)
    requires Forwarded(frames, fate, out, owed)
    ensures Forwarded(frames + [text], Drop(fate, attempt), out, true)
  {
    var next := Drop(fate, attempt);
    assert Delivered(frames + [text], next.at, out) by {
      hide MadeUp, Caused;
    }
    assert MadeUp(next.at, next.paid, out, true) by {
      hide Caused, Delivered;
    }
    assert Caused(next, out) by {
      hide MadeUp, Delivered;
    }
  }

  lemma Pays(frames: seq<Frame>, fate: Fate, out: seq<Item>)
    requires Forwarded(frames, fate, out, true)
    ensures Forwarded(frames, Settle(fate, |frames| - 1, |out|), out + [WsOverflow], false)
  {
    var next, more := Settle(fate, |frames| - 1, |out|), out + [WsOverflow];
    assert Delivered(frames, next.at, more) by {
      hide MadeUp, Caused;
    }
    assert MadeUp(next.at, next.paid, more, false) by {
      hide Caused;
    }
    PaysCause(frames, fate, out);
  }

  lemma PaysCause(frames: seq<Frame>, fate: Fate, out: seq<Item>)
    requires Forwarded(frames, fate, out, true)
    ensures Caused(Settle(fate, |frames| - 1, |out|), out + [WsOverflow])
  {
    hide MadeUp, Delivered;
    var next, more := Settle(fate, |frames| - 1, |out|), out + [WsOverflow];
    forall q | 0 <= q < |out|
      ensures next.cause[q] == fate.cause[q] < |next.at| && more[q] == out[q]
      ensures if out[q].WsMessage? then next.at[next.cause[q]] == q
              else next.at[next.cause[q]] == DROPPED && next.paid[next.cause[q]] == q
    {
    }
  }

  lemma Starts()
    ensures Forwarded([], Fate([], [], [], []), [], false) && Attempted([], Fate([], [], [], []), [])
  {
  }

  lemma Shape(frames: seq<Frame>, fate: Fate, out: seq<Item>, owed: bool)
    requires Forwarded(frames, fate, out, owed)
    ensures |fate.at| == |fate.paid| && (owed ==> frames != [])
  {
  }

  lemma Tries(frames: seq<Frame>, fate: Fate, attempts: seq<Attempt>, text: Frame, q: nat)
    requires Attempted(frames, fate, attempts)
    ensures Attempted(frames + [text], Deliver(fate, |frames|, q, |attempts|),
                      attempts + [Attempt(WsMessage(text), true)])
  {
  }

  lemma TriesInVain(frames: seq<Frame>, fate: Fate, attempts: seq<Attempt>, text: Frame)
    requires Attempted(frames, fate, attempts)
    ensures Attempted(frames + [text], Drop(fate, |attempts|), attempts + [Attempt(WsMessage(text), false)])
  {
  }

  lemma PassesOver(frames: seq<Frame>, fate: Fate, out: seq<Item>, attempts: seq<Attempt>, text: Frame)
    requires Forwarded(frames, fate, out, true) && Attempted(frames, fate, attempts)
    ensures Attempted(frames + [text], Drop(fate, UNTRIED), attempts)
  {
    hide Delivered, MadeUp, Caused;
  }

  lemma TriesOverflow(frames: seq<Frame>, fate: Fate, attempts: seq<Attempt>, frame: nat, q: nat, ok: bool)
    requires Attempted(frames, fate, attempts)
    ensures Attempted(frames, if ok then Settle(fate, frame, q) else fate, attempts + [Attempt(WsOverflow, ok)])
  {
  }

  /** Reads the next frame, queueing it unless a resync is owed or the queue is full. */
  method ForwardFrame(ghost handled: seq<Frame>, text: Frame, overflowOwed: bool, queue: EventQueue, ghost fate: Fate)
    returns (owed: bool, ghost next: Fate)
    requires Forwarded(handled, fate, queue.sent, overflowOwed) && Attempted(handled, fate, queue.attempts)
    requires queue.Valid()
    modifies queue
    ensures queue.Valid()
    ensures Forwarded(handled + [text], next, queue.sent, owed) && Attempted(handled + [text], next, queue.attempts)
    ensures if overflowOwed then owed && queue.attempts == old(queue.attempts) && queue.sent == old(queue.sent)
            else if !queue.closed && queue.room(|old(queue.attempts)|)
              then !owed && queue.attempts == old(queue.attempts) + [Attempt(WsMessage(text), true)]
                   && queue.sent == old(queue.sent) + [WsMessage(text)]
            else queue.attempts == old(queue.attempts) + [Attempt(WsMessage(text), false), Attempt(WsOverflow, !owed)]
                 && queue.sent == old(queue.sent) + if owed then [] else [WsOverflow]
  {
    hide Forwarded, Attempted;
    ghost var out, attempts := queue.sent, queue.attempts;
    if overflowOwed {
      Drops(handled, fate, out, overflowOwed, text, UNTRIED);
      PassesOver(handled, fate, out, attempts, text);
      return true, Drop(fate, UNTRIED);
    }
    var ok := queue.TrySend(WsMessage(text));
    if ok {
      Tries(handled, fate, attempts, text, |out|);
      Delivers(handled, fate, out, text, |attempts|);
      return false, Deliver(fate, |handled|, |out|, |attempts|);
    }
    next := Drop(fate, |attempts|);
    TriesInVain(handled, fate, attempts, text);
    Drops(handled, fate, out, overflowOwed, text, |attempts|);
    Shape(handled + [text], next, out, true);
    Pays(handled + [text], next, out);
    ok := queue.TrySend(WsOverflow);
    TriesOverflow(handled + [text], next, attempts + [Attempt(WsMessage(text), false)], |handled|, |out|, ok);
    owed := !ok;
    next := if ok then Settle(next, |handled|, |out|) else next;
  }

  /** Waits for room for the overflow owed. */
  method PayDebt(ghost handled: seq<Frame>, queue: EventQueue, ghost fate: Fate)
    returns (ok: bool, ghost next: Fate)
    requires Forwarded(handled, fate, queue.sent, true) && Attempted(handled, fate, queue.attempts) && queue.Valid()
    modifies queue
    ensures queue.Valid() && (old(queue.closed) ==> queue.closed) && (ok <==> !queue.closed)
    ensures queue.sent == old(queue.sent) + if ok then [WsOverflow] else []
    ensures Forwarded(handled, next, queue.sent, !ok) && Attempted(handled, next, queue.attempts)
  {
    hide Forwarded, Attempted;
    ghost var out, attempts := queue.sent, queue.attempts;
    Pays(handled, fate, out);
    Shape(handled, fate, out, true);
    ok := queue.Send(WsOverflow);
    TriesOverflow(handled, fate, attempts, |handled| - 1, |out|, ok);
    next := if ok then Settle(fate, |handled| - 1, |out|) else fate;
  }

  /**
   * Forwards `frames` until they end or the client closes the queue, `handled`
   * of them having been read. Only a closed queue leaves a debt unpaid, and a
   * queue that has room and stays open gets every frame and nothing else.
   */
  method PumpFrames(frames: seq<Frame>, queue: EventQueue)
    returns (handled: nat, overflowOwed: bool, ghost fate: Fate)
    requires queue.Valid() && queue.sent == [] && queue.attempts == [] && !queue.closed
    modifies queue
    ensures handled <= |frames| && queue.Valid()
    ensures Forwarded(frames[..handled], fate, queue.sent, overflowOwed)
    ensures Attempted(frames[..handled], fate, queue.attempts)
    ensures !queue.closed ==> handled == |frames| && !overflowOwed
    ensures (forall n :: queue.room(n) && queue.open(n)) ==> queue.sent == Messages(frames)
  {
    hide Forwarded, Attempted;
    handled, overflowOwed, fate := 0, false, Fate([], [], [], []);
    Starts();
    while true
      invariant handled <= |frames| && queue.Valid()
      invariant Forwarded(frames[..handled], fate, queue.sent, overflowOwed)
      invariant Attempted(frames[..handled], fate, queue.attempts)
      decreases |frames| - handled, overflowOwed
    {
      var permitReady := *;
      if overflowOwed && permitReady {
        var ok;
        ok, fate := PayDebt(frames[..handled], queue, fate);
        overflowOwed := !ok;
        if !ok {
          return;
        }
      } else if handled < |frames| {
        assert frames[..handled + 1] == frames[..handled] + [frames[handled]];
        overflowOwed, fate := ForwardFrame(frames[..handled], frames[handled], overflowOwed, queue, fate);
        handled := handled + 1;
      } else {
        break;
      }
    }
    if overflowOwed {
      var ok;
      ok, fate := PayDebt(frames[..handled], queue, fate);
      overflowOwed := !ok;
    }
    assert frames[..handled] == frames;
    if forall n :: queue.room(n) && queue.open(n) {
      NothingLost(frames, fate, queue.sent, queue.attempts);
    }
  }

  function Messages(frames: seq<Frame>): seq<Item> {
    seq(|frames|, i requires 0 <= i < |frames| => WsMessage(frames[i]))
  }

  /** With every attempt taken every frame is delivered. */
  lemma {:induction false} AllDelivered(frames: seq<Frame>, fate: Fate, attempts: seq<Attempt>, i: nat)
    requires Attempted(frames, fate, attempts) && i < |frames|
    requires forall n :: 0 <= n < |attempts| && attempts[n].item.WsMessage? ==> attempts[n].taken
    ensures fate.at[i] != DROPPED
  {
    if fate.tried[i] == UNTRIED {
      AllDelivered(frames, fate, attempts, i - 1);
    }
  }

  /** With every frame delivered frame `i` is item `i`. */
  lemma {:induction false} InPlace(frames: seq<Frame>, fate: Fate, out: seq<Item>, i: nat)
    requires Forwarded(frames, fate, out, false) && i < |frames| && forall k :: 0 <= k < |frames| ==>
               fate.at[k] != DROPPED
    ensures fate.at[i] == i
  {
    if i > 0 {
      InPlace(frames, fate, out, i - 1);
    }
    assert i <= fate.at[i] < |out|;
    var c := fate.cause[i];
    assert fate.at[c] == i;
  }

  /** If no frame is ever refused, the queue gets all frames in order, and no overflow. */
  lemma NothingLost(frames: seq<Frame>, fate: Fate, out: seq<Item>, attempts: seq<Attempt>)
    requires Forwarded(frames, fate, out, false) && Attempted(frames, fate, attempts)
    requires forall n :: 0 <= n < |attempts| && attempts[n].item.WsMessage? ==> attempts[n].taken
    ensures out == Messages(frames)
  {
    forall i | 0 <= i < |frames| ensures fate.at[i] == i && out[i] == WsMessage(frames[i]) {
      forall k | 0 <= k < |frames| ensures fate.at[k] != DROPPED {
        AllDelivered(frames, fate, attempts, k);
      }
      InPlace(frames, fate, out, i);
    }
    assert frames != [] ==> fate.at[|frames| - 1] < |out|;
    assert out != [] ==> fate.at[fate.cause[|out| - 1]] == |out| - 1;
  }

  /**
   * A frame is dropped only if the queue refused it, or if a frame was dropped
   * before it that was not made up for yet.
   */
  lemma WhyDropped(frames: seq<Frame>, fate: Fate, attempts: seq<Attempt>, i: nat)
    requires Attempted(frames, fate, attempts) && i < |frames| && fate.at[i] == DROPPED
    ensures exists d, n :: 0 <= d <= i && 0 <= n < |attempts| && attempts[n] == Attempt(WsMessage(frames[d]), false)
              && forall k :: d <= k <= i ==> fate.at[k] == DROPPED && fate.paid[k] == fate.paid[i]
  {
    if fate.tried[i] == UNTRIED {
      WhyDropped(frames, fate, attempts, i - 1);
    } else {
      assert attempts[fate.tried[i]] == Attempt(WsMessage(frames[i]), false);
    }
  }

  /** A resync is queued between any two delivered frames that had one dropped between them, and only then. */
  lemma ResyncBetween(frames: seq<Frame>, fate: Fate, out: seq<Item>, owed: bool, i: nat, j: nat)
    requires Forwarded(frames, fate, out, owed)
    requires i < j < |frames| && fate.at[i] != DROPPED && fate.at[j] != DROPPED
    ensures (exists d :: i < d < j && fate.at[d] == DROPPED) <==>
            (exists q :: fate.at[i] < q < fate.at[j] && 0 <= q < |out| && out[q] == WsOverflow)
  {
    if d :| i < d < j && fate.at[d] == DROPPED {
      assert fate.paid[d] != UNPAID;
      assert fate.at[i] < fate.paid[d] < fate.at[j] && out[fate.paid[d]] == WsOverflow;
    }
    if q :| fate.at[i] < q < fate.at[j] && 0 <= q < |out| && out[q] == WsOverflow {
      var d := fate.cause[q];
      assert fate.at[d] == DROPPED && fate.paid[d] == q;
      assert i < d < j;
    }
  }

  /** With no debt left, every drop is made up for after everything delivered before it. */
  lemma EveryDropPaid(frames: seq<Frame>, fate: Fate, out: seq<Item>, d: nat)
    requires Forwarded(frames, fate, out, false) && d < |frames| && fate.at[d] == DROPPED
    ensures exists q :: 0 <= q < |out| && out[q] == WsOverflow &&
              forall h :: 0 <= h < |frames| && fate.at[h] != DROPPED ==>
                if h < d then fate.at[h] < q else q < fate.at[h]
  {
    var q := fate.paid[d];
    assert 0 <= q < |out| && out[q] == WsOverflow;
  }
}
