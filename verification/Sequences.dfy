/** Facts about sequences that proofs would otherwise pay for again and again. */
module Sequences {

  lemma ConcatAssociative<T>(a: seq<T>, b: seq<T>, c: seq<T>)
    ensures a + (b + c) == (a + b) + c
  {
  }

  lemma SlicePrefix<T>(a: seq<T>, at: nat, n: nat, k: nat)
    requires k <= n && at + n <= |a|
    ensures a[at..at + n][..k] == a[at..at + k]
  {
  }

  lemma ConcatEmpty<T>(a: seq<T>)
    ensures a + [] == a && [] + a == a
  {
  }
}
