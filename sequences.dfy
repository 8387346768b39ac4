/** Small sequence helpers shared by the feature builder and the forecaster. */
module Sequences {

  /** `s` in reverse order: for a chronological series, the most recent value first. */
  function Reversed<T>(s: seq<T>): (r: seq<T>)
    ensures |r| == |s|
  {
    if s == [] then [] else Reversed(s[1..]) + [s[0]]
  }

  /** Element i of the reversal is element |s|-1-i of `s`. */
  lemma {:induction false} ReversedAt<T>(s: seq<T>, i: nat)
    requires i < |s|
    ensures Reversed(s)[i] == s[|s| - 1 - i]
  {
    if i < |s| - 1 {
      ReversedAt(s[1..], i);
    }
  }

  /** Appending x at the end puts it first in the reversal. */
  lemma {:induction false} ReversedSnoc<T>(s: seq<T>, x: T)
    ensures Reversed(s + [x]) == [x] + Reversed(s)
  {
    var l, r := Reversed(s + [x]), [x] + Reversed(s);
    forall i | 0 <= i < |l|
      ensures l[i] == r[i]
    {
      ReversedAt(s + [x], i);
      if i > 0 {
        ReversedAt(s, i - 1);
      }
    }
  }

  /** A non-empty sequence is its front followed by its last element. */
  lemma SplitLast<T>(s: seq<T>)
    requires |s| > 0
    ensures s[..|s| - 1] + [s[|s| - 1]] == s
  {
  }
}
