/** Comparison functions, and equality functions. */
module Ordering {
  type Less = (int, int) -> bool
  type Eq = (int, int) -> bool

  ghost predicate StrictWeakOrder(lt: Less) {
    && (forall a {:trigger lt(a, a)} :: !lt(a, a))
    && (forall a, b, c {:trigger lt(a, b), lt(b, c)} :: lt(a, b) && lt(b, c) ==> lt(a, c))
    && (forall a, b, c {:trigger lt(a, b), lt(b, c)} :: lt(a, c) ==> lt(a, b) || lt(b, c))
  }

  lemma NotBoth(lt: Less, x: int, y: int, z: int)
    requires StrictWeakOrder(lt)
    ensures lt(x, z) ==> lt(x, y) || lt(y, z)
  {
  }

  ghost predicate Equivalence(eq: Eq) {
    && (forall a {:trigger eq(a, a)} :: eq(a, a))
    && (forall a, b {:trigger eq(a, b)} :: eq(a, b) ==> eq(b, a))
    && (forall a, b, c {:trigger eq(a, b), eq(b, c)} :: eq(a, b) && eq(b, c) ==> eq(a, c))
  }
}
