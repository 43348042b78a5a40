/** Sequence facts shared by the append lemmas of every stage. */
module Seqs {

  /** Concatenation is associative. */
  lemma ConcatAssoc<T>(x: seq<T>, y: seq<T>, z: seq<T>)
    ensures (x + y) + z == x + (y + z)
  {
    assert |(x + y) + z| == |x + (y + z)|;
    forall i | 0 <= i < |x| + |y| + |z|
      ensures ((x + y) + z)[i] == (x + (y + z))[i]
    {
    }
  }
}
