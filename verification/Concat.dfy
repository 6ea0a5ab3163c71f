/** Concatenation is associative; the verifier has to be told where this is used. */
module Concat {

  lemma Regroup<T>(a: seq<T>, b: seq<T>, c: seq<T>)
    ensures (a + b) + c == a + (b + c)
  {
  }
}
