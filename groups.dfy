/**
 * Rigid transforms as an abstract group. Composition is `@`, the inverse is
 * `.inv` and the identity is `Transform()`. Nothing about the path algebra
 * depends on the numerics, only on these group laws, which are taken as a
 * hypothesis (`IsGroup`) by every lemma that needs them.
 */
module Groups {

  datatype Group<!T> = Group(compose: (T, T) -> T, inv: T -> T, identity: T)

  // Each law is stated for one tuple of elements, so that the solver only
  // instantiates it where a proof asks for it.
  ghost predicate AssociativeAt<T>(g: Group<T>, x: T, y: T, z: T) {
    g.compose(g.compose(x, y), z) == g.compose(x, g.compose(y, z))
  }

  ghost predicate NeutralAt<T>(g: Group<T>, x: T) {
    g.compose(g.identity, x) == x && g.compose(x, g.identity) == x
  }

  ghost predicate InverseAt<T>(g: Group<T>, x: T) {
    g.compose(g.inv(x), x) == g.identity && g.compose(x, g.inv(x)) == g.identity
  }

  /** The group laws: associativity, identity and inverse. */
  ghost predicate IsGroup<T(!new)>(g: Group<T>) {
    && (forall x, y, z :: AssociativeAt(g, x, y, z))
    && (forall x :: NeutralAt(g, x))
    && (forall x :: InverseAt(g, x))
  }

  lemma Associative<T(!new)>(g: Group<T>, x: T, y: T, z: T)
    requires IsGroup(g)
    ensures g.compose(g.compose(x, y), z) == g.compose(x, g.compose(y, z))
  {
    assert AssociativeAt(g, x, y, z);
  }

  lemma Identity<T(!new)>(g: Group<T>, x: T)
    requires IsGroup(g)
    ensures g.compose(g.identity, x) == x
    ensures g.compose(x, g.identity) == x
  {
    assert NeutralAt(g, x);
  }

  lemma Inverse<T(!new)>(g: Group<T>, x: T)
    requires IsGroup(g)
    ensures g.compose(g.inv(x), x) == g.identity
    ensures g.compose(x, g.inv(x)) == g.identity
  {
    assert InverseAt(g, x);
  }

  /** `inv(x) @ (x @ y) == y`. */
  lemma CancelLeft<T(!new)>(g: Group<T>, x: T, y: T)
    requires IsGroup(g)
    ensures g.compose(g.inv(x), g.compose(x, y)) == y
    ensures g.compose(x, g.compose(g.inv(x), y)) == y
  {
    Associative(g, g.inv(x), x, y);
    Associative(g, x, g.inv(x), y);
    Inverse(g, x);
    Identity(g, y);
  }

  /** `(y @ inv(x)) @ x == y`. */
  lemma CancelRight<T(!new)>(g: Group<T>, x: T, y: T)
    requires IsGroup(g)
    ensures g.compose(g.compose(y, g.inv(x)), x) == y
    ensures g.compose(g.compose(y, x), g.inv(x)) == y
  {
    Associative(g, y, g.inv(x), x);
    Associative(g, y, x, g.inv(x));
    Inverse(g, x);
    Identity(g, y);
  }

  /** A right inverse is the inverse. */
  lemma InverseUnique<T(!new)>(g: Group<T>, x: T, y: T)
    requires IsGroup(g)
    requires g.compose(x, y) == g.identity
    ensures y == g.inv(x)
  {
    CancelLeft(g, x, y);
    Identity(g, g.inv(x));
  }

  /** `x.inv.inv == x`. */
  lemma InverseInverse<T(!new)>(g: Group<T>, x: T)
    requires IsGroup(g)
    ensures g.inv(g.inv(x)) == x
  {
    Inverse(g, x);
    InverseUnique(g, g.inv(x), x);
  }

  /** `Transform().inv == Transform()`. */
  lemma InverseOfIdentity<T(!new)>(g: Group<T>)
    requires IsGroup(g)
    ensures g.inv(g.identity) == g.identity
  {
    Identity(g, g.identity);
    InverseUnique(g, g.identity, g.identity);
  }

  /** `(x @ y).inv == y.inv @ x.inv`. */
  lemma InverseOfCompose<T(!new)>(g: Group<T>, x: T, y: T)
    requires IsGroup(g)
    ensures g.inv(g.compose(x, y)) == g.compose(g.inv(y), g.inv(x))
  {
    calc {
      g.compose(g.compose(x, y), g.compose(g.inv(y), g.inv(x)));
      { Associative(g, x, y, g.compose(g.inv(y), g.inv(x))); }
      g.compose(x, g.compose(y, g.compose(g.inv(y), g.inv(x))));
      { CancelLeft(g, y, g.inv(x)); }
      g.compose(x, g.inv(x));
      { Inverse(g, x); }
      g.identity;
    }
    InverseUnique(g, g.compose(x, y), g.compose(g.inv(y), g.inv(x)));
  }

  /** `(p @ a).inv @ (p @ b) == a.inv @ b`: a common first factor cancels. */
  lemma CancelCommonPrefix<T(!new)>(g: Group<T>, p: T, a: T, b: T)
    requires IsGroup(g)
    ensures g.compose(g.inv(g.compose(p, a)), g.compose(p, b)) == g.compose(g.inv(a), b)
  {
    InverseOfCompose(g, p, a);
    Associative(g, g.inv(a), g.inv(p), g.compose(p, b));
    CancelLeft(g, p, b);
  }

  /** `(a.inv @ b).inv == b.inv @ a`. */
  lemma InverseOfQuotient<T(!new)>(g: Group<T>, a: T, b: T)
    requires IsGroup(g)
    ensures g.inv(g.compose(g.inv(a), b)) == g.compose(g.inv(b), a)
  {
    InverseOfCompose(g, g.inv(a), b);
    InverseInverse(g, a);
  }

  /** With `s == p.inv @ a @ v @ r.inv`, the product `a.inv @ (p @ s @ r)` is `v`. */
  lemma Isolate<T(!new)>(g: Group<T>, a: T, p: T, r: T, v: T)
    requires IsGroup(g)
    ensures var s := g.compose(g.compose(g.compose(g.inv(p), a), v), g.inv(r));
      g.compose(g.inv(a), g.compose(g.compose(p, s), r)) == v
  {
    var x := g.compose(g.compose(g.inv(p), a), v);
    calc {
      g.compose(g.compose(p, g.compose(x, g.inv(r))), r);
      { Associative(g, p, x, g.inv(r)); }
      g.compose(g.compose(g.compose(p, x), g.inv(r)), r);
      { CancelRight(g, r, g.compose(p, x)); }
      g.compose(p, x);
      { Associative(g, p, g.compose(g.inv(p), a), v); }
      g.compose(g.compose(p, g.compose(g.inv(p), a)), v);
      { CancelLeft(g, p, a); }
      g.compose(a, v);
    }
    CancelLeft(g, a, v);
  }

  /** `(a.inv @ b) @ (b.inv @ c) == a.inv @ c`. */
  lemma Telescope<T(!new)>(g: Group<T>, a: T, b: T, c: T)
    requires IsGroup(g)
    ensures g.compose(g.compose(g.inv(a), b), g.compose(g.inv(b), c)) == g.compose(g.inv(a), c)
  {
    Associative(g, g.inv(a), b, g.compose(g.inv(b), c));
    CancelLeft(g, b, c);
  }

  /**
   * A witness that the hypothesis is consistent and that composition need
   * not commute: the isometries of the integer line, `x |-> s*x + t` with
   * `s` in {+1, -1}, encoded as (flip, t).
   */
  function LineIsometries(): Group<(bool, int)> {
    Group(
      (a: (bool, int), b: (bool, int)) => (a.0 != b.0, (if a.0 then -b.1 else b.1) + a.1),
      (a: (bool, int)) => (a.0, if a.0 then a.1 else -a.1),
      (false, 0))
  }

  lemma LineIsometriesFormNonCommutativeGroup()
    ensures IsGroup(LineIsometries())
    ensures var g := LineIsometries();
      g.compose((true, 0), (false, 1)) != g.compose((false, 1), (true, 0))
  {
    var g := LineIsometries();
    forall x, y, z ensures AssociativeAt(g, x, y, z) { }
    forall x ensures NeutralAt(g, x) { }
    forall x ensures InverseAt(g, x) { }
  }
}
