/** Groups given by their operations, and integer multiples in them.
    The laws are wrapped in one predicate each, so that the verifier uses an instance only
    where a lemma names it. */
module Groups {

  datatype Group<!T> = Group(id: T, add: (T, T) -> T, inv: T -> T)

  ghost predicate AssocAt<T>(g: Group<T>, x: T, y: T, z: T) {
    g.add(g.add(x, y), z) == g.add(x, g.add(y, z))
  }

  ghost predicate UnitAt<T>(g: Group<T>, x: T) {
    g.add(g.id, x) == x && g.add(x, g.id) == x
  }

  ghost predicate InverseAt<T>(g: Group<T>, x: T) {
    g.add(x, g.inv(x)) == g.id && g.add(g.inv(x), x) == g.id
  }

  ghost predicate CommAt<T>(g: Group<T>, x: T, y: T) {
    g.add(x, y) == g.add(y, x)
  }

  ghost predicate IsGroup<T(!new)>(g: Group<T>) {
    && (forall x, y, z :: AssocAt(g, x, y, z))
    && (forall x :: UnitAt(g, x))
    && (forall x :: InverseAt(g, x))
  }

  ghost predicate IsAbelian<T(!new)>(g: Group<T>) {
    && IsGroup(g)
    && forall x, y :: CommAt(g, x, y)
  }

  /** The n-fold multiple of x for any integer n: the specification of scalar multiplication. */
  ghost function Mul<T>(g: Group<T>, n: int, x: T): T
    decreases if n < 0 then -n else n
  {
    if n == 0 then g.id
    else if n > 0 then g.add(Mul(g, n - 1, x), x)
    else g.add(Mul(g, n + 1, x), g.inv(x))
  }

  lemma Assoc<T(!new)>(g: Group<T>, x: T, y: T, z: T)
    requires IsGroup(g)
    ensures g.add(g.add(x, y), z) == g.add(x, g.add(y, z))
  {
    assert AssocAt(g, x, y, z);
  }

  lemma Unit<T(!new)>(g: Group<T>, x: T)
    requires IsGroup(g)
    ensures g.add(g.id, x) == x && g.add(x, g.id) == x
  {
    assert UnitAt(g, x);
  }

  lemma Inverse<T(!new)>(g: Group<T>, x: T)
    requires IsGroup(g)
    ensures g.add(x, g.inv(x)) == g.id && g.add(g.inv(x), x) == g.id
  {
    assert InverseAt(g, x);
  }

  lemma Comm<T(!new)>(g: Group<T>, x: T, y: T)
    requires IsAbelian(g)
    ensures g.add(x, y) == g.add(y, x)
  {
    assert CommAt(g, x, y);
  }

  lemma InverseUnique<T(!new)>(g: Group<T>, x: T, y: T)
    requires IsGroup(g) && g.add(x, y) == g.id
    ensures y == g.inv(x)
  {
    Inverse(g, x);
    Assoc(g, g.inv(x), x, y);
    Unit(g, y);
    Unit(g, g.inv(x));
  }

  lemma MulOne<T(!new)>(g: Group<T>, x: T)
    requires IsGroup(g)
    ensures Mul(g, 1, x) == x
  {
    Unit(g, x);
  }

  lemma MulSucc<T(!new)>(g: Group<T>, n: int, x: T)
    requires IsGroup(g)
    ensures Mul(g, n + 1, x) == g.add(Mul(g, n, x), x)
  {
    if n < 0 {
      Assoc(g, Mul(g, n + 1, x), g.inv(x), x);
      Inverse(g, x);
      Unit(g, Mul(g, n + 1, x));
    }
  }

  lemma MulPred<T(!new)>(g: Group<T>, n: int, x: T)
    requires IsGroup(g)
    ensures Mul(g, n - 1, x) == g.add(Mul(g, n, x), g.inv(x))
  {
    if n > 0 {
      Assoc(g, Mul(g, n - 1, x), x, g.inv(x));
      Inverse(g, x);
      Unit(g, Mul(g, n - 1, x));
    }
  }

  /** (m + n)x == mx + nx for all integers, in any group. */
  lemma {:induction false} MulAdd<T(!new)>(g: Group<T>, m: int, n: int, x: T)
    requires IsGroup(g)
    ensures Mul(g, m + n, x) == g.add(Mul(g, m, x), Mul(g, n, x))
    decreases if n < 0 then -n else n
  {
    if n == 0 {
      Unit(g, Mul(g, m, x));
    } else if n > 0 {
      MulAdd(g, m, n - 1, x);
      MulSucc(g, m + n - 1, x);
      Assoc(g, Mul(g, m, x), Mul(g, n - 1, x), x);
    } else {
      MulAdd(g, m, n + 1, x);
      MulPred(g, m + n + 1, x);
      Assoc(g, Mul(g, m, x), Mul(g, n + 1, x), g.inv(x));
    }
  }

  lemma MulNeg<T(!new)>(g: Group<T>, n: int, x: T)
    requires IsGroup(g)
    ensures Mul(g, -n, x) == g.inv(Mul(g, n, x))
  {
    MulAdd(g, n, -n, x);
    InverseUnique(g, Mul(g, n, x), Mul(g, -n, x));
  }

  lemma MulDouble<T(!new)>(g: Group<T>, n: int, x: T)
    requires IsGroup(g)
    ensures Mul(g, 2 * n, x) == g.add(Mul(g, n, x), Mul(g, n, x))
  {
    MulAdd(g, n, n, x);
  }

  /** m(nx) == (mn)x. */
  lemma {:induction false} MulMul<T(!new)>(g: Group<T>, m: nat, n: int, x: T)
    requires IsGroup(g)
    ensures Mul(g, m, Mul(g, n, x)) == Mul(g, m * n, x)
  {
    if m == 0 {
    } else {
      MulMul(g, m - 1, n, x);
      MulAdd(g, (m - 1) * n, n, x);
      assert (m - 1) * n + n == m * n;
    }
  }

  /** (a + b) + (c + d) == (a + c) + (b + d) in an abelian group. */
  lemma Interchange<T(!new)>(g: Group<T>, a: T, b: T, c: T, d: T)
    requires IsAbelian(g)
    ensures g.add(g.add(a, b), g.add(c, d)) == g.add(g.add(a, c), g.add(b, d))
  {
    Assoc(g, a, b, g.add(c, d));
    Assoc(g, b, c, d);
    Comm(g, b, c);
    Assoc(g, c, b, d);
    Assoc(g, a, c, g.add(b, d));
  }

  /** n(x + y) == nx + ny in an abelian group. */
  lemma {:induction false} MulDistributes<T(!new)>(g: Group<T>, n: nat, x: T, y: T)
    requires IsAbelian(g)
    ensures Mul(g, n, g.add(x, y)) == g.add(Mul(g, n, x), Mul(g, n, y))
  {
    if n == 0 {
      Unit(g, g.id);
    } else {
      MulDistributes(g, n - 1, x, y);
      Interchange(g, Mul(g, n - 1, x), Mul(g, n - 1, y), x, y);
    }
  }
}
