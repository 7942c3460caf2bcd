/** Reversal of sequences. */
module Seqs {

  function Reversed<T>(s: seq<T>): (r: seq<T>)
    ensures |r| == |s|
  {
    if s == [] then [] else Reversed(s[1..]) + [s[0]]
  }

  lemma {:induction false} ReversedAt<T>(s: seq<T>, i: nat)
    requires i < |s|
    ensures Reversed(s)[i] == s[|s| - 1 - i]
  {
    if i < |s| - 1 {
      ReversedAt(s[1..], i);
    }
  }

  lemma ReversedAll<T>(s: seq<T>)
    ensures forall i :: 0 <= i < |s| ==> Reversed(s)[i] == s[|s| - 1 - i]
  {
    forall i | 0 <= i < |s| ensures Reversed(s)[i] == s[|s| - 1 - i] {
      ReversedAt(s, i);
    }
  }

  lemma ReversedSnoc<T>(s: seq<T>, x: T)
    ensures Reversed(s + [x]) == [x] + Reversed(s)
  {
    hide Reversed;
    ReversedAll(s);
    ReversedAll(s + [x]);
    assert Reversed(s + [x]) == [x] + Reversed(s);
  }
}
