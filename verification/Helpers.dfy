/** What several modules share. */
module Helpers {
  datatype Option<+T> = None | Some(value: T)

  function Reversed<T>(items: seq<T>): (r: seq<T>)
    ensures |r| == |items| && forall i :: 0 <= i < |items| ==> r[i] == items[|items| - 1 - i]
  {
    seq(|items|, i requires 0 <= i < |items| => items[|items| - 1 - i])
  }

  lemma ReversedConcat<T>(a: seq<T>, b: seq<T>)
    ensures Reversed(a + b) == Reversed(b) + Reversed(a)
  {
  }

  lemma ReversedShort<T>(items: seq<T>)
    requires |items| <= 1
    ensures Reversed(items) == items
  {
  }
}
