/** Facts about concatenation that proofs by induction on a sequence keep needing. */
module SeqFacts {

  lemma Assoc<T>(a: seq<T>, b: seq<T>, c: seq<T>)
    ensures (a + b) + c == a + (b + c)
  {}

  lemma Nil<T>(a: seq<T>)
    ensures [] + a == a && a + [] == a
  {}

  /** Head and tail of a concatenation. */
  lemma Tail<T>(a: seq<T>, b: seq<T>)
    requires a != []
    ensures (a + b)[0] == a[0] && (a + b)[1..] == a[1..] + b
  {}

  /** Splitting off the first element. */
  lemma Cons<T>(a: seq<T>)
    requires a != []
    ensures a == [a[0]] + a[1..]
  {}
}
