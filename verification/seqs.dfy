/** Facts about plain sequences that the dictionary proofs lean on. */
module Seqs {

  lemma ConcatAssociative<T>(a: seq<T>, b: seq<T>, c: seq<T>)
    ensures (a + b) + c == a + (b + c)
  {
  }

  /** The first `i + 1` elements are the head followed by the first `i` of the tail. */
  lemma PrefixOfCons<T>(s: seq<T>, i: nat)
    requires i < |s|
    ensures s[..i + 1] == [s[0]] + s[1..][..i]
  {
  }
}
