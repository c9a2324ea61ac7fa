/** Splitting a batch of captured mail into transactions of bounded size. */
module Transactions {
  import opened Bytes

  /** A message on its way into the store; `id` tells whose session to answer. */
  datatype Delivery = Delivery(id: nat, raw: seq<Byte>)

  /** The cap on the bytes of a group of several messages. */
  const MAX_BATCH_BYTES := 4 * 1024 * 1024

  function RawBytes(group: seq<Delivery>): nat {
    if group == [] then 0 else RawBytes(group[..|group| - 1]) + |group[|group| - 1].raw|
  }

  function Concat(groups: seq<seq<Delivery>>): seq<Delivery> {
    if groups == [] then [] else Concat(groups[..|groups| - 1]) + groups[|groups| - 1]
  }

  predicate FitsOneTransaction(group: seq<Delivery>) {
    group != [] && (RawBytes(group) <= MAX_BATCH_BYTES || |group| == 1)
  }

  /** `groups` commit `deliveries` in order, none being empty or larger than it has to be. */
  predicate Splits(groups: seq<seq<Delivery>>, deliveries: seq<Delivery>) {
    Concat(groups) == deliveries && forall i :: 0 <= i < |groups| ==> FitsOneTransaction(groups[i])
  }

  /**
   * No other split has fewer groups, and none with as many leaves its last
   * group less room.
   */
  ghost predicate StaysAhead(groups: seq<seq<Delivery>>, deliveries: seq<Delivery>) {
    forall other :: Splits(other, deliveries) ==>
      && |groups| <= |other|
      && (|groups| == |other| && groups != [] ==> |groups[|groups| - 1]| <= |other[|other| - 1]|)
  }

  lemma ConcatSnoc(groups: seq<seq<Delivery>>, group: seq<Delivery>)
    ensures Concat(groups + [group]) == Concat(groups) + group
  {
    assert (groups + [group])[..|groups|] == groups;
  }

  lemma RawBytesSnoc(group: seq<Delivery>, next: Delivery)
    ensures RawBytes(group + [next]) == RawBytes(group) + |next.raw|
  {
    assert (group + [next])[..|group|] == group;
  }

  lemma {:induction false} RawBytesSuffix(head: seq<Delivery>, tail: seq<Delivery>)
    ensures RawBytes(tail) <= RawBytes(head + tail)
  {
    if tail != [] {
      var n := |tail| - 1;
      RawBytesSuffix(head, tail[..n]);
      assert head + tail == (head + tail[..n]) + [tail[n]];
      RawBytesSnoc(head + tail[..n], tail[n]);
    }
  }

  /** A split of a longer batch, without its last delivery. */
  lemma DropLast(other: seq<seq<Delivery>>, deliveries: seq<Delivery>, next: Delivery)
    returns (shorter: seq<seq<Delivery>>)
    requires Splits(other, deliveries + [next])
    ensures other != [] && Splits(shorter, deliveries)
    ensures var last := other[|other| - 1];
            && last[|last| - 1] == next
            && (if |last| == 1 then |shorter| == |other| - 1
                else
                  && |shorter| == |other| && last == shorter[|shorter| - 1] + [next]
                  && RawBytes(last) <= MAX_BATCH_BYTES)
  {
    assert other != [];
    var n := |other| - 1;
    var init, last := other[..n], other[n];
    assert FitsOneTransaction(last);
    var m := |last| - 1;
    assert Concat(other) == Concat(init) + last;
    assert last[m] == (deliveries + [next])[|deliveries|];
    assert last == last[..m] + [next];
    assert deliveries + [next] == (Concat(init) + last[..m]) + [next];
    assert deliveries == (deliveries + [next])[..|deliveries|] == Concat(init) + last[..m];
    if m == 0 {
      shorter := init;
      assert deliveries == Concat(init);
    } else {
      shorter := init + [last[..m]];
      RawBytesSnoc(last[..m], next);
      ConcatSnoc(init, last[..m]);
      assert forall i :: 0 <= i < |shorter| ==> shorter[i] == if i < n then other[i] else last[..m];
    }
  }

  /** What is left of the batch when two splits agree on its end. */
  lemma LastIsSuffix(groups: seq<seq<Delivery>>, other: seq<seq<Delivery>>, deliveries: seq<Delivery>)
    requires Splits(groups, deliveries) && Splits(other, deliveries) && groups != [] && other != []
    requires |groups[|groups| - 1]| <= |other[|other| - 1]|
    ensures RawBytes(groups[|groups| - 1]) <= RawBytes(other[|other| - 1])
  {
    var mine, theirs := groups[|groups| - 1], other[|other| - 1];
    var a, b := Concat(groups[..|groups| - 1]), Concat(other[..|other| - 1]);
    assert a + mine == b + theirs == deliveries;
    Suffix(a, mine, b, theirs);
    RawBytesSuffix(theirs[..|theirs| - |mine|], mine);
  }

  lemma Suffix(a: seq<Delivery>, mine: seq<Delivery>, b: seq<Delivery>, theirs: seq<Delivery>)
    requires a + mine == b + theirs && |mine| <= |theirs|
    ensures theirs == theirs[..|theirs| - |mine|] + mine
  {
    var all := a + mine;
    var k := |theirs| - |mine|;
    assert mine == all[|a|..] && theirs == all[|b|..];
    assert |a| == |b| + k;
    assert theirs[k..] == all[|b|..][k..] == all[|a|..];
  }

  /** The next delivery joins the open group if it fits, and opens a new one if not. */
  function Place(groups: seq<seq<Delivery>>, next: Delivery): seq<seq<Delivery>> {
    var n := |groups| - 1;
    if groups != [] && RawBytes(groups[n]) + |next.raw| <= MAX_BATCH_BYTES then groups[..n] + [groups[n] + [next]]
    else groups + [[next]]
  }

  lemma PlaceSplits(groups: seq<seq<Delivery>>, deliveries: seq<Delivery>, next: Delivery)
    requires Splits(groups, deliveries)
    ensures Splits(Place(groups, next), deliveries + [next])
  {
    var n := |groups| - 1;
    if groups != [] && RawBytes(groups[n]) + |next.raw| <= MAX_BATCH_BYTES {
      ConcatSnoc(groups[..n], groups[n] + [next]);
      RawBytesSnoc(groups[n], next);
      assert Concat(groups) == Concat(groups[..n]) + groups[n];
    } else {
      ConcatSnoc(groups, [next]);
    }
  }

  lemma PlaceStaysAhead(groups: seq<seq<Delivery>>, deliveries: seq<Delivery>, next: Delivery)
    requires Splits(groups, deliveries) && StaysAhead(groups, deliveries)
    ensures StaysAhead(Place(groups, next), deliveries + [next])
  {
    var placed := Place(groups, next);
    forall other | Splits(other, deliveries + [next])
      ensures |placed| <= |other|
      ensures |placed| == |other| ==> |placed[|placed| - 1]| <= |other[|other| - 1]|
    {
      var shorter := DropLast(other, deliveries, next);
      assert |groups| <= |shorter|;
      if |other[|other| - 1]| > 1 && |groups| == |shorter| && groups != [] {
        LastIsSuffix(groups, shorter, deliveries);
        RawBytesSnoc(shorter[|shorter| - 1], next);
      }
    }
  }

  /**
   * Cuts a batch into groups under the cap: arrival order is kept, and no
   * other way to cut it takes fewer groups.
   */
  method Split(deliveries: seq<Delivery>) returns (groups: seq<seq<Delivery>>)
    ensures Splits(groups, deliveries)
    ensures forall other :: Splits(other, deliveries) ==> |groups| <= |other|
  {
    hide Splits, StaysAhead;
    groups := [];
    var groupBytes := 0;
    var i := 0;
    NothingToSplit();
    while i < |deliveries|
      invariant 0 <= i <= |deliveries|
      invariant Splits(groups, deliveries[..i]) && StaysAhead(groups, deliveries[..i])
      invariant groups != [] ==> groupBytes == RawBytes(groups[|groups| - 1])
    {
      var next := deliveries[i];
      assert deliveries[..i + 1] == deliveries[..i] + [next];
      PlaceSplits(groups, deliveries[..i], next);
      PlaceStaysAhead(groups, deliveries[..i], next);
      RawBytesSnoc([], next);
      assert [] + [next] == [next];
      var last := |groups| - 1;
      if groups != [] && groupBytes + |next.raw| <= MAX_BATCH_BYTES {
        RawBytesSnoc(groups[last], next);
        groupBytes := groupBytes + |next.raw|;
        groups := groups[..last] + [groups[last] + [next]];
      } else {
        groupBytes := |next.raw|;
        groups := groups + [[next]];
      }
      i := i + 1;
    }
    assert deliveries[..i] == deliveries;
    FewestGroups(groups, deliveries);
  }

  lemma NothingToSplit()
    ensures Splits([], []) && StaysAhead([], [])
  {
  }

  lemma FewestGroups(groups: seq<seq<Delivery>>, deliveries: seq<Delivery>)
    requires StaysAhead(groups, deliveries)
    ensures forall other :: Splits(other, deliveries) ==> |groups| <= |other|
  {
  }
}
