/** Facts about sequences shared by the stack and list models. */
module Sequences {
  /** Concatenation is associative; stated once so that proofs can cite it by name. */
  lemma AppendAssoc(a: seq<int>, b: seq<int>, c: seq<int>)
    ensures a + b + c == a + (b + c)
  {
  }
}
