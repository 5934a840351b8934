/** Facts about sequences that the proofs use in more than one place. */
module Sequences {

  /** Regrouping a concatenation, stated once so that proofs need not redo it element by element. */
  lemma AppendAssoc<T>(a: seq<T>, b: seq<T>, c: seq<T>)
    ensures (a + b) + c == a + (b + c)
  {
  }
}
