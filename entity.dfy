/** The kernel's `Entity` trait and the `impl_entity!` macro: an entity is
    compared by its identity alone, whatever its other fields hold. The
    trait's `identity()` accessor is passed in as the function `identity`. */
module Entity {

  /** `Entity::eq` (and the `PartialEq` that `impl_entity!` derives from it). */
  predicate EntityEq<E, I(==)>(identity: E -> I, a: E, b: E)
  {
    identity(a) == identity(b)
  }

  ghost predicate Reflexive<E(!new)>(rel: (E, E) -> bool) {
    forall x :: rel(x, x)
  }

  ghost predicate Symmetric<E(!new)>(rel: (E, E) -> bool) {
    forall x, y :: rel(x, y) <==> rel(y, x)
  }

  ghost predicate Transitive<E(!new)>(rel: (E, E) -> bool) {
    forall x, y, z :: rel(x, y) && rel(y, z) ==> rel(x, z)
  }

  /** The trait asks for `Eq` on the entity and on its identity: the
      identity comparison is an equivalence relation on entities. */
  lemma EntityEqIsEquivalence<E(!new), I>(identity: E -> I)
    ensures Reflexive((a, b) => EntityEq(identity, a, b))
    ensures Symmetric((a, b) => EntityEq(identity, a, b))
    ensures Transitive((a, b) => EntityEq(identity, a, b))
  {
  }
}
