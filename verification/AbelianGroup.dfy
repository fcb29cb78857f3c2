// A commutative group given by its operations, and integer multiples in it.
// The points of edwards25519 are such a group; that they are is not part of
// this model.
module AbelianGroup {

  datatype Group<!G(!new)> = Group(zero: G, add: (G, G) -> G, neg: G -> G)

  function Add<G(!new)>(g: Group<G>, x: G, y: G): G {
    g.add(x, y)
  }

  function Neg<G(!new)>(g: Group<G>, x: G): G {
    g.neg(x)
  }

  ghost predicate Lawful<G(!new)>(g: Group<G>) {
    && (forall x, y :: Add(g, x, y) == Add(g, y, x))
    && (forall x, y, z :: Add(g, Add(g, x, y), z) == Add(g, x, Add(g, y, z)))
    && (forall x :: Add(g, g.zero, x) == x)
    && (forall x :: Add(g, x, Neg(g, x)) == g.zero)
  }

  lemma Laws<G(!new)>(g: Group<G>, x: G, y: G, z: G)
    requires Lawful(g)
    ensures Add(g, x, y) == Add(g, y, x)
    ensures Add(g, Add(g, x, y), z) == Add(g, x, Add(g, y, z))
    ensures Add(g, g.zero, x) == x && Add(g, x, g.zero) == x
    ensures Add(g, x, Neg(g, x)) == g.zero && Add(g, Neg(g, x), x) == g.zero
  {
  }

  // n x
  function Multiple<G(!new)>(g: Group<G>, n: int, x: G): G
    decreases if n < 0 then -n else n
  {
    if n == 0 then g.zero
    else if n > 0 then Add(g, Multiple(g, n - 1, x), x)
    else Add(g, Multiple(g, n + 1, x), Neg(g, x))
  }

  // (n + 1) x == n x + x, for every n.
  lemma MultipleNext<G(!new)>(g: Group<G>, n: int, x: G)
    requires Lawful(g)
    ensures Multiple(g, n + 1, x) == Add(g, Multiple(g, n, x), x)
  {
    hide Lawful, Add, Neg;
    if n < 0 {
      Laws(g, Multiple(g, n + 1, x), Neg(g, x), x);
      Laws(g, x, x, x);
      Laws(g, Multiple(g, n + 1, x), x, x);
    }
  }

  lemma {:induction false} MultipleAdds<G(!new)>(g: Group<G>, m: int, n: int, x: G)
    requires Lawful(g)
    ensures Multiple(g, m + n, x) == Add(g, Multiple(g, m, x), Multiple(g, n, x))
    decreases if n < 0 then -n else n
  {
    hide Lawful, Add, Neg, Multiple;
    if n == 0 {
      MultipleOfNothing(g, x);
      Laws(g, Multiple(g, m, x), x, x);
    } else if n > 0 {
      MultipleAdds(g, m, n - 1, x);
      MultipleNext(g, m + n - 1, x);
      MultipleNext(g, n - 1, x);
      Laws(g, Multiple(g, m, x), Multiple(g, n - 1, x), x);
    } else {
      MultipleAdds(g, m, n + 1, x);
      MultipleNext(g, m + n, x);
      MultipleNext(g, n, x);
      Laws(g, Multiple(g, m, x), Multiple(g, n, x), x);
      CancelRight(g, Multiple(g, m + n, x), Add(g, Multiple(g, m, x), Multiple(g, n, x)), x);
    }
  }

  lemma MultipleOfNothing<G(!new)>(g: Group<G>, x: G)
    ensures Multiple(g, 0, x) == g.zero
  {
  }

  lemma CancelRight<G(!new)>(g: Group<G>, x: G, y: G, z: G)
    requires Lawful(g) && Add(g, x, z) == Add(g, y, z)
    ensures x == y
  {
    hide Lawful, Add, Neg;
    Laws(g, x, z, Neg(g, z));
    Laws(g, y, z, Neg(g, z));
    Laws(g, z, z, z);
  }

  lemma MultipleOnce<G(!new)>(g: Group<G>, x: G)
    requires Lawful(g)
    ensures Multiple(g, 1, x) == x && Multiple(g, 0, x) == g.zero && Multiple(g, 2, x) == Add(g, x, x)
  {
    hide Lawful, Add, Neg;
    Laws(g, x, x, x);
    MultipleNext(g, 0, x);
    MultipleNext(g, 1, x);
  }

  lemma MultipleNegates<G(!new)>(g: Group<G>, n: int, x: G)
    requires Lawful(g)
    ensures Multiple(g, -n, x) == Neg(g, Multiple(g, n, x))
  {
    hide Lawful, Add, Neg, Multiple;
    MultipleAdds(g, -n, n, x);
    MultipleOfNothing(g, x);
    Laws(g, Multiple(g, n, x), x, x);
    CancelRight(g, Multiple(g, -n, x), Neg(g, Multiple(g, n, x)), Multiple(g, n, x));
  }

  // x + y and z + w, the other way round
  lemma Exchange<G(!new)>(g: Group<G>, x: G, y: G, z: G, w: G)
    requires Lawful(g)
    ensures Add(g, Add(g, x, y), Add(g, z, w)) == Add(g, Add(g, x, z), Add(g, y, w))
  {
    hide Lawful, Add, Neg;
    Laws(g, Add(g, x, y), z, w);
    Laws(g, x, y, z);
    Laws(g, y, z, x);
    Laws(g, x, z, y);
    Laws(g, Add(g, x, z), y, w);
  }
}
