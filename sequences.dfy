/** Small facts about sequences of sequences, shared by the other modules. */
module Sequences {

  /** The concatenation, in order, of every sequence in `ss`. */
  function Flatten<T>(ss: seq<seq<T>>): seq<T>
  {
    if ss == [] then [] else ss[0] + Flatten(ss[1..])
  }

  /** Flattening distributes over appending one more piece at the end. */
  lemma {:induction false} FlattenSnoc<T>(ss: seq<seq<T>>, s: seq<T>)
    ensures Flatten(ss + [s]) == Flatten(ss) + s
  {
    if ss == [] {
      assert [] + [s] == [s];
      assert Flatten([s]) == s + Flatten([]);
    } else {
      assert (ss + [s])[1..] == ss[1..] + [s];
      FlattenSnoc(ss[1..], s);
    }
  }

  /** An element of a piece is an element of the flattened sequence. */
  lemma {:induction false} InFlatten<T>(ss: seq<seq<T>>, k: nat, m: nat)
    requires k < |ss| && m < |ss[k]|
    ensures ss[k][m] in Flatten(ss)
  {
    assert Flatten(ss) == ss[0] + Flatten(ss[1..]);
    if k > 0 {
      InFlatten(ss[1..], k - 1, m);
    }
  }
}
