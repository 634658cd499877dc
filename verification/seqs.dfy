/** General facts about concatenated sequences, used by the trace proofs. */
module Seqs {

  /** The length, first part and last part of three sequences back to back. */
  lemma Parts<T>(a: seq<T>, b: seq<T>, c: seq<T>)
    ensures |a + b + c| == |a| + |b| + |c|
    ensures (a + b + c)[..|a|] == a
    ensures (a + b + c)[|a| + |b|..] == c
  {
  }

  /** The last element of a concatenation is the last of its second part. */
  lemma LastOfAppend<T>(a: seq<T>, b: seq<T>)
    requires b != []
    ensures (a + b)[|a + b| - 1] == b[|b| - 1]
  {
  }

  lemma Assoc<T>(a: seq<T>, b: seq<T>, c: seq<T>)
    ensures a + b + c == a + (b + c)
  {
  }
}
