/** Regrouping sequences, kept apart so that no other proof has to find it. */
module Sequences {
  lemma Regrouped<T>(a: seq<T>, b: seq<T>, c: seq<T>)
    ensures (a + b) + c == a + (b + c)
  {
  }
}
