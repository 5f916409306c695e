// What the pattern models assume about node equality.
//
// The pattern models are generic over the node type: a node is compared with
// another only through its `__eq__`, which each model receives as a function
// `equiv`. Python sets and dictionaries additionally rely on `__hash__` being
// coarser than `__eq__`; the models stand a node for any element it is
// equivalent to, which is what membership means under that assumption.

module PatternNodes {

  /** Every node equals itself. */
  ghost predicate IsReflexive<N(!new)>(equiv: (N, N) -> bool)
  {
    forall x :: equiv(x, x)
  }

  /** `__eq__` is reflexive, symmetric and transitive. */
  ghost predicate IsEquivalence<N(!new)>(equiv: (N, N) -> bool)
  {
    && IsReflexive(equiv)
    && (forall x, y :: equiv(x, y) ==> equiv(y, x))
    && (forall x, y, z :: equiv(x, y) && equiv(y, z) ==> equiv(x, z))
  }

  /** Among nodes that are pairwise not equivalent, at most one matches a node. */
  lemma MatchIsUnique<N(!new)>(equiv: (N, N) -> bool, x: N, a: N, b: N)
    requires IsEquivalence(equiv)
    requires equiv(x, a) && equiv(x, b)
    ensures equiv(a, b)
  {
    assert equiv(a, x);
  }
}
