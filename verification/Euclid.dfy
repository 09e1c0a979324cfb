/** The Euclidean algorithms of algebra.cpp over the integers: Gcd, and the inverse in Z/m with the
    quotient ring's own test for zero. Integer::Divide leaves a remainder in [0, |divisor|), which
    is what / and % mean here. */
module Euclid {
  import opened Powers

  ghost predicate Divides(d: int, n: int) {
    d > 0 && n % d == 0
  }

  ghost predicate CommonDivisor(d: int, a: int, b: int) {
    Divides(d, a) && Divides(d, b)
  }

  ghost predicate Coprime(a: int, b: int) {
    forall d :: CommonDivisor(d, a, b) ==> d == 1
  }

  /** The two pairs have the same common divisors. */
  ghost predicate SameDivisors(a: int, b: int, c: int, d: int) {
    forall k :: CommonDivisor(k, a, b) <==> CommonDivisor(k, c, d)
  }

  function Abs(n: int): nat {
    if n < 0 then -n else n
  }

  lemma DividesMeans(d: int, n: int)
    requires d > 0
    ensures Divides(d, n) <==> n == d * (n / d)
  {
  }

  lemma MultipleDivides(d: int, k: int)
    requires d > 0
    ensures Divides(d, d * k)
  {
    DivModUnique(d * k, d, k, 0);
  }

  /** A divisor of a and b divides a - q * b, and back. */
  lemma DividesStep(d: int, a: int, b: int, q: int)
    requires Divides(d, b)
    ensures Divides(d, a) <==> Divides(d, a - q * b)
  {
    DividesMeans(d, b);
    DividesMeans(d, a);
    DividesMeans(d, a - q * b);
    var k := b / d;
    assert q * b == d * (q * k) by {
      assert q * (d * k) == d * (q * k);
    }
    if Divides(d, a) {
      assert d * (a / d) - d * (q * k) == d * (a / d - q * k);
      MultipleDivides(d, a / d - q * k);
    }
    if Divides(d, a - q * b) {
      var e := (a - q * b) / d;
      assert d * e + d * (q * k) == d * (e + q * k);
      MultipleDivides(d, e + q * k);
    }
  }

  /** One division keeps the common divisors. */
  lemma StepKeepsDivisors(a: int, b: int)
    requires b != 0
    ensures SameDivisors(a, b, b, a % b)
  {
    hide Divides;
    forall d
      ensures CommonDivisor(d, a, b) <==> CommonDivisor(d, b, a % b)
    {
      Remainder(a, b);
      if Divides(d, b) { DividesStep(d, a, b, a / b); }
    }
  }

  lemma Remainder(a: int, b: int)
    requires b != 0
    ensures a % b == a - a / b * b && 0 <= a % b < Abs(b)
  {
  }

  lemma SelfDivides(n: int)
    requires n != 0
    ensures Divides(Abs(n), n)
  {
    MultipleDivides(Abs(n), if n < 0 then -1 else 1);
  }

  lemma DivisorBound(d: int, n: int)
    requires Divides(d, n) && n != 0
    ensures d <= Abs(n)
  {
    DividesMeans(d, n);
    var k := n / d;
    if k > 0 { MulMonotone(d, 1, k); } else if k < 0 { MulMonotone(d, k, -1); }
  }

  lemma ZeroDivisible(d: int)
    requires d > 0
    ensures Divides(d, 0)
  {
  }

  lemma DivisorsTransitive(a: int, b: int, c: int, d: int, e: int, f: int)
    requires SameDivisors(a, b, c, d) && SameDivisors(c, d, e, f)
    ensures SameDivisors(a, b, e, f)
  {
    hide CommonDivisor;
  }

  /** d is a greatest common divisor up to sign: its divisors are exactly the common ones. */
  ghost predicate IsGcd(r: int, a: int, b: int) {
    forall d :: CommonDivisor(d, a, b) <==> Divides(d, r)
  }

  /** AbstractEuclideanDomain::Gcd: three cells with rotating roles. */
  method Gcd(a: int, b: int) returns (result: int)
    ensures IsGcd(result, a, b)
  {
    hide Divides, SameDivisors;
    var g := new int[3](i => if i == 0 then b else if i == 1 then a else 0);
    var i0, i1, i2 := 0, 1, 2;
    DivisorsSwap(a, b);
    while g[i1] != 0
      invariant {i0, i1, i2} == {0, 1, 2}
      invariant SameDivisors(a, b, g[i0], g[i1])
      decreases Abs(g[i1])
    {
      StepKeepsDivisors(g[i0], g[i1]);
      DivisorsTransitive(a, b, g[i0], g[i1], g[i1], g[i0] % g[i1]);
      Remainder(g[i0], g[i1]);
      g[i2] := g[i0] % g[i1];
      i0, i1, i2 := i1, i2, i0;
    }
    WithZero(a, b, g[i0]);
    result := g[i0];
  }

  lemma DivisorsSwap(a: int, b: int)
    ensures SameDivisors(a, b, b, a)
  {
  }

  lemma WithZero(a: int, b: int, r: int)
    requires SameDivisors(a, b, r, 0)
    ensures IsGcd(r, a, b)
  {
    forall d
      ensures CommonDivisor(d, a, b) <==> Divides(d, r)
    {
      if d > 0 { ZeroDivisible(d); }
      assert CommonDivisor(d, a, b) <==> CommonDivisor(d, r, 0);
    }
  }

  /** What MultiplicativeInverse promises: an inverse modulo m of a unit, and zero otherwise. */
  ghost predicate Correct(a: int, m: int, r: int)
    requires m > 0
  {
    if Coprime(a, m) then (a * r) % m == 1 % m else r == 0
  }

  /** Integer::IsUnit. */
  predicate IsUnit(n: int) {
    n == 1 || n == -1
  }

  /** QuotientRing::Equal(n, 0): congruence, not equality. */
  predicate EqualsZero(n: int, m: int)
    requires m > 0
  {
    n % m == 0
  }

  /** A pair (a, m) reduced to (g, 0) is coprime exactly when g is a unit. */
  lemma UnitMeansCoprime(a: int, m: int, g: int)
    requires m > 0 && SameDivisors(a, m, g, 0)
    ensures IsUnit(g) <==> Coprime(a, m)
  {
    hide Divides;
    WithZero(a, m, g);
    if IsUnit(g) {
      forall d | CommonDivisor(d, a, m)
        ensures d == 1
      {
        assert Divides(d, g);
        DivisorBound(d, g);
        DivisorPositive(d, g);
      }
    } else if g == 0 {
      ZeroDivisible(m + 1);
      assert CommonDivisor(m + 1, a, m);
      DivisorBound(m + 1, m);
    } else {
      SelfDivides(g);
      assert CommonDivisor(Abs(g), a, m);
    }
  }

  lemma DivisorPositive(d: int, n: int)
    requires Divides(d, n)
    ensures d > 0
  {
  }

  /** g == v*a + c*m with g a unit makes v/g an inverse of a modulo m. */
  lemma CofactorInverts(a: int, m: int, v: int, c: int, g: int)
    requires m > 0 && g == v * a + c * m && IsUnit(g)
    ensures (a * (v / g)) % m == 1 % m
  {
    var r := v / g;
    assert r == v * g && g * g == 1;
    assert a * r == g * (v * a) by {
      assert a * (v * g) == g * (v * a);
    }
    assert g * (v * a) == g * g - g * (c * m) by {
      assert g * (v * a + c * m) == g * (v * a) + g * (c * m);
    }
    assert g * (c * m) == m * (g * c);
    SameRemainder(a * r, 1, m, -(g * c));
  }

  lemma SameRemainder(x: int, y: int, m: int, k: int)
    requires m > 0 && x == y + m * k
    ensures x % m == y % m
  {
    DivModIdentity(y, m);
    assert m * (y / m) + m * k == m * (y / m + k);
    DivModUnique(x, m, y / m + k, y % m);
  }

  lemma SmallIsZero(n: int, m: int)
    requires m > 0 && Abs(n) < m && EqualsZero(n, m)
    ensures n == 0
  {
    DivModIdentity(n, m);
    if n / m >= 1 { MulMonotone(m, 1, n / m); } else if n / m <= -1 { MulMonotone(m, n / m, -1); }
  }

  lemma CofactorStep(a: int, m: int, g0: int, v0: int, c0: int, g1: int, v1: int, c1: int, y: int)
    requires g0 == v0 * a + c0 * m && g1 == v1 * a + c1 * m
    ensures g0 - y * g1 == (v0 - v1 * y) * a + (c0 - c1 * y) * m
  {
    assert y * (v1 * a + c1 * m) == y * (v1 * a) + y * (c1 * m);
    assert y * (v1 * a) == v1 * y * a && y * (c1 * m) == c1 * y * m;
  }

  /** An operand at least as large as the modulus stops the loop before it has computed anything. */
  lemma LargeOperandStops(a: int, m: int)
    requires m > 0 && Abs(a) >= m && !EqualsZero(a, m)
    ensures a != 0 && m / a == 0 && m % a == m && Abs(a) > m && !IsUnit(a)
  {
    if Abs(a) == m {
      MultipleDivides(m, if a < 0 then -1 else 1);
    }
    DivModUnique(m, Abs(a), 0, m);
  }

  /** The loop invariant on the two live columns: same common divisors, the congruences
      g == v*a (mod m) with explicit cofactors, and how far an oversized operand gets. */
  ghost predicate Live(a: int, m: int, g0: int, v0: int, c0: int, g1: int, v1: int, c1: int, first: bool) {
    && SameDivisors(a, m, g0, g1)
    && g0 == v0 * a + c0 * m && g1 == v1 * a + c1 * m
    && (Abs(a) < m ==> Abs(g1) < m)
    && (first ==> g0 == m && g1 == a && v0 == 0)
    && (!first && Abs(a) >= m ==> g0 == a && g1 == m && !IsUnit(a))
  }

  lemma LiveStart(a: int, m: int)
    requires m > 0
    ensures Live(a, m, m, 0, 1, a, 1, 0, true)
  {
    DivisorsSwap(a, m);
  }

  lemma LiveStep(a: int, m: int, g0: int, v0: int, c0: int, g1: int, v1: int, c1: int, first: bool)
    requires m > 0 && Live(a, m, g0, v0, c0, g1, v1, c1, first) && !EqualsZero(g1, m)
    ensures g1 != 0 && 0 <= g0 % g1 < Abs(g1)
    ensures var y := g0 / g1; Live(a, m, g1, v1, c1, g0 % g1, v0 - v1 * y, c0 - c1 * y, false)
  {
    hide SameDivisors;
    NonzeroOperand(g1, m);
    StepKeepsDivisors(g0, g1);
    DivisorsTransitive(a, m, g0, g1, g1, g0 % g1);
    Remainder(g0, g1);
    CofactorStep(a, m, g0, v0, c0, g1, v1, c1, g0 / g1);
    if Abs(a) >= m {
      if first {
        LargeOperandStops(a, m);
      } else {
        MultipleDivides(m, 1);
      }
    }
  }

  /** The value returned once the loop test succeeds. */
  lemma LiveEnd(a: int, m: int, g0: int, v0: int, c0: int, g1: int, v1: int, c1: int, first: bool)
    requires m > 0 && Live(a, m, g0, v0, c0, g1, v1, c1, first) && EqualsZero(g1, m)
    ensures var r := if IsUnit(g0) then v0 / g0 else 0;
            && (Correct(a, m, r) <==> Abs(a) < m || m == 1 || !Coprime(a, m))
            && (Abs(a) >= m ==> r == 0)
  {
    hide SameDivisors, Coprime;
    if Abs(a) < m {
      SmallIsZero(g1, m);
      UnitMeansCoprime(a, m, g0);
      if IsUnit(g0) { CofactorInverts(a, m, v0, c0, g0); }
    } else {
      assert (if IsUnit(g0) then v0 / g0 else 0) == 0;
      ZeroIsNoInverse(m);
    }
  }

  lemma ZeroIsNoInverse(m: int)
    requires m > 0
    ensures 0 % m == 1 % m <==> m == 1
  {
  }

  /** QuotientRing::MultiplicativeInverse. It keeps its promise for exactly the operands below the
      modulus in magnitude and those that have no inverse anyway. */
  method MultiplicativeInverse(a: int, m: int) returns (r: int)
    requires m > 0
    ensures Correct(a, m, r) <==> Abs(a) < m || m == 1 || !Coprime(a, m)
    ensures Abs(a) >= m ==> r == 0
  {
    hide Live, Correct, Coprime;
    var g := new int[3](i => if i == 0 then m else if i == 1 then a else 0);
    var v := new int[3](i => if i == 1 then 1 else 0);
    var i0, i1, i2 := 0, 1, 2;
    ghost var c0, c1 := 1, 0;
    LiveStart(a, m);
    ghost var first := true;
    while !EqualsZero(g[i1], m)
      invariant {i0, i1, i2} == {0, 1, 2}
      invariant Live(a, m, g[i0], v[i0], c0, g[i1], v[i1], c1, first)
      decreases Abs(g[i1])
    {
      LiveStep(a, m, g[i0], v[i0], c0, g[i1], v[i1], c1, first);
      var y := g[i0] / g[i1];
      g[i2] := g[i0] % g[i1];
      v[i2] := v[i0] - v[i1] * y;
      c0, c1 := c1, c0 - c1 * y;
      i0, i1, i2 := i1, i2, i0;
      first := false;
    }
    LiveEnd(a, m, g[i0], v[i0], c0, g[i1], v[i1], c1, first);
    r := if IsUnit(g[i0]) then v[i0] / g[i0] else 0;
  }

  lemma NonzeroOperand(n: int, m: int)
    requires m > 0 && !EqualsZero(n, m)
    ensures n != 0
  {
  }

  /** Reducedness is needed: 5 is invertible modulo 3, yet the zero the method returns for it is wrong. */
  lemma UnreducedOperandFails()
    ensures Coprime(5, 3) && !Correct(5, 3, 0)
  {
    forall d | CommonDivisor(d, 5, 3)
      ensures d == 1
    {
      DivisorBound(d, 3);
    }
  }
}
