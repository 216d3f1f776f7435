/**
 * The ordering contract the containers place on their Compare parameter:
 * `less` is a strict weak order, so that "neither less(a, b) nor less(b, a)"
 * is an equivalence.  Both the red-black set and the priority queue are
 * parameterised by such a relation.
 */
module Orders {

  ghost predicate Irreflexive<T(!new)>(less: (T, T) -> bool)
  {
    forall x :: !less(x, x)
  }

  /**
   * Transitivity at one triple.  The quantified predicates below range over
   * these instances, so that the verifier only instantiates them for the
   * triples the lemmas of this module name.
   */
  ghost predicate TransitiveAt<T>(less: (T, T) -> bool, x: T, y: T, z: T)
  {
    less(x, y) && less(y, z) ==> less(x, z)
  }

  ghost predicate Transitive<T(!new)>(less: (T, T) -> bool)
  {
    forall x, y, z :: TransitiveAt(less, x, y, z)
  }

  ghost predicate EquivTransitiveAt<T>(less: (T, T) -> bool, x: T, y: T, z: T)
  {
    Equiv(less, x, y) && Equiv(less, y, z) ==> Equiv(less, x, z)
  }

  /** Incomparability, `Equiv`, is transitive. */
  ghost predicate EquivTransitive<T(!new)>(less: (T, T) -> bool)
  {
    forall x, y, z :: EquivTransitiveAt(less, x, y, z)
  }

  ghost predicate StrictWeakOrder<T(!new)>(less: (T, T) -> bool)
  {
    Irreflexive(less) && Transitive(less) && EquivTransitive(less)
  }

  /** Two keys are equivalent when neither is less than the other. */
  predicate Equiv<T>(less: (T, T) -> bool, x: T, y: T)
  {
    !less(x, y) && !less(y, x)
  }

  lemma Asymmetric<T(!new)>(less: (T, T) -> bool, x: T, y: T)
    requires StrictWeakOrder(less)
    ensures less(x, y) ==> !less(y, x)
  {
    assert TransitiveAt(less, x, y, x);
  }

  /** "not less" is transitive: the consequence of a strict weak order the heap relies on. */
  lemma NotLessTransitive<T(!new)>(less: (T, T) -> bool, x: T, y: T, z: T)
    requires StrictWeakOrder(less)
    requires !less(x, y) && !less(y, z)
    ensures !less(x, z)
  {
    assert TransitiveAt(less, x, z, y) && TransitiveAt(less, y, x, z);
    assert EquivTransitiveAt(less, x, y, z);
  }

  /** If x < y but not x < z, then not y < z: transitivity read backwards. */
  lemma LessThenNotLess<T(!new)>(less: (T, T) -> bool, x: T, y: T, z: T)
    requires StrictWeakOrder(less)
    requires less(x, y) && !less(x, z)
    ensures !less(y, z)
  {
    assert TransitiveAt(less, x, y, z);
  }
}
