/** Notions that several modules share. */
module Common {

  /** A product kept behind a name, so that arithmetic is reasoned about by lemmas. */
  function Product(a: nat, b: nat): nat { a * b }

  predicate Distinct<T(==)>(xs: seq<T>) {
    forall i, j | 0 <= i < j < |xs| :: xs[i] != xs[j]
  }
}
