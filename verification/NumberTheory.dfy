/** Primes and powers modulo a product of two primes: what seeking in Blum-Blum-Shub rests on. */
module NumberTheory {
  import opened Powers
  import opened Euclid

  ghost predicate Prime(p: int) {
    p >= 2 && forall d :: Divides(d, p) ==> d == 1 || d == p
  }

  lemma Bezout(a: nat, b: nat) returns (u: int, v: int, g: nat)
    requires a > 0 || b > 0
    ensures g > 0 && g == u * a + v * b && Divides(g, a) && Divides(g, b)
    decreases b
  {
    if b == 0 {
      u, v, g := 1, 0, a;
      SelfDivides(a);
      ZeroDivisible(a);
    } else {
      Remainder(a, b);
      var q := a / b;
      u, v, g := Bezout(b, a % b);
      BezoutStep(a, b, q, u, v, g);
      DividesStep(g, a, b, q);
      u, v := v, u - v * q;
    }
  }

  lemma BezoutStep(a: int, b: int, q: int, u: int, v: int, g: int)
    requires g == u * b + v * (a - q * b)
    ensures g == v * a + (u - v * q) * b
  {
    assert v * (a - q * b) == v * a - v * (q * b);
    assert (u - v * q) * b == u * b - v * q * b;
    MulAssoc(v, q, b);
  }

  lemma DividesProduct(d: int, a: int, k: int)
    requires Divides(d, a)
    ensures Divides(d, a * k)
  {
    DividesMeans(d, a);
    MulAssoc(d, a / d, k);
    MultipleDivides(d, a / d * k);
  }

  lemma DividesSum(d: int, a: int, b: int)
    requires Divides(d, a) && Divides(d, b)
    ensures Divides(d, a + b)
  {
    DividesStep(d, a, b, -1);
  }

  /** Euclid's lemma. */
  lemma PrimeDivides(p: int, a: nat, b: int)
    requires Prime(p) && Divides(p, a * b)
    ensures Divides(p, a) || Divides(p, b)
  {
    hide Divides;
    if !Divides(p, a) {
      var u, v, g := Bezout(a, p);
      assert g == 1;
      // b == u*a*b + v*p*b
      var s, t := a * b * u, p * (v * b);
      assert b == s + t by {
        assert (u * a + v * p) * b == u * a * b + v * p * b;
        assert u * a * b == a * b * u;
        assert v * p * b == p * (v * b);
      }
      DividesProduct(p, a * b, u);
      MultipleDivides(p, v * b);
      DividesSum(p, s, t);
    }
  }

  // ----- congruence

  ghost predicate Cong(x: int, y: int, m: int) {
    Divides(m, x - y)
  }

  lemma CongRefl(x: int, m: int)
    requires m > 0
    ensures Cong(x, x, m)
  {
    ZeroDivisible(m);
  }

  lemma CongSym(x: int, y: int, m: int)
    requires Cong(x, y, m)
    ensures Cong(y, x, m)
  {
    DividesProduct(m, x - y, -1);
    assert (x - y) * -1 == y - x;
  }

  lemma CongMul(a: int, b: int, c: int, d: int, m: int)
    requires Cong(a, b, m) && Cong(c, d, m)
    ensures Cong(a * c, b * d, m)
  {
    DividesProduct(m, a - b, c);
    DividesProduct(m, c - d, b);
    assert (a - b) * c + (c - d) * b == a * c - b * d;
    DividesSum(m, (a - b) * c, (c - d) * b);
  }

  lemma {:induction false} CongPow(a: nat, b: nat, e: nat, m: int)
    requires Cong(a, b, m)
    ensures Cong(Pow(a, e), Pow(b, e), m)
  {
    if e == 0 {
      CongRefl(1, m);
    } else {
      CongPow(a, b, e - 1, m);
      CongMul(a, b, Pow(a, e - 1), Pow(b, e - 1), m);
    }
  }

  lemma CongMod(x: int, m: int)
    requires m > 0
    ensures Cong(x, x % m, m)
  {
    DivModIdentity(x, m);
    MultipleDivides(m, x / m);
  }

  /** Congruence is equality of remainders. */
  lemma CongIsEqualRemainder(x: int, y: int, m: int)
    requires m > 0
    ensures Cong(x, y, m) <==> x % m == y % m
  {
    if Cong(x, y, m) {
      DividesMeans(m, x - y);
      SameRemainder(x, y, m, (x - y) / m);
    }
    if x % m == y % m {
      DivModIdentity(x, m);
      DivModIdentity(y, m);
      assert m * (x / m) - m * (y / m) == m * (x / m - y / m);
      MultipleDivides(m, x / m - y / m);
    }
  }

  // ----- Fermat's little theorem, by permuting the residues

  ghost function Prod(s: set<nat>): nat {
    if s == {} then 1 else var e :| e in s; e * Prod(s - {e})
  }

  lemma ProdPick(s: set<nat>) returns (e: nat)
    requires s != {}
    ensures e in s && Prod(s) == e * Prod(s - {e})
  {
    e :| e in s && Prod(s) == e * Prod(s - {e});
  }

  lemma Exchange(e: int, y: int, rest: int)
    ensures e * (y * rest) == y * (e * rest)
  {
  }

  /** The product does not depend on which factor is taken out first. */
  lemma {:induction false} ProdRemove(s: set<nat>, y: nat)
    requires y in s
    ensures Prod(s) == y * Prod(s - {y})
  {
    hide Prod;
    var e := ProdPick(s);
    if e != y {
      ProdRemove(s - {e}, y);
      ProdRemove(s - {y}, e);
      assert s - {e} - {y} == s - {y} - {e};
      Exchange(e, y, Prod(s - {e} - {y}));
    }
  }

  ghost function Image(s: set<nat>, x: nat, p: nat): set<nat>
    requires p > 0
  {
    set i | i in s :: Times(x, i, p)
  }

  function Times(x: nat, i: nat, p: nat): nat
    requires p > 0
  {
    (x * i) % p
  }

  ghost function Residues(p: nat): (r: set<nat>)
    ensures forall i :: i in r <==> 1 <= i < p
    ensures p > 0 ==> |r| == p - 1
  {
    if p <= 1 then {} else Residues(p - 1) + {p - 1}
  }

  /** Multiplication by x permutes the nonzero residues modulo p. */
  lemma Injective(x: nat, p: nat, i: nat, j: nat)
    requires Prime(p) && !Divides(p, x) && i < p && j < p && Times(x, i, p) == Times(x, j, p)
    ensures i == j
  {
    hide Divides;
    CongIsEqualRemainder(x * i, x * j, p);
    assert x * i - x * j == x * (i - j);
    PrimeDivides(p, x, i - j);
    if i != j { DivisorBound(p, i - j); }
  }

  lemma {:induction false} ImageProduct(s: set<nat>, x: nat, p: nat)
    requires Prime(p) && !Divides(p, x) && s <= Residues(p)
    ensures |Image(s, x, p)| == |s| && Cong(Prod(Image(s, x, p)), Pow(x, |s|) * Prod(s), p)
  {
    hide Divides, Cong, Prime, Prod, Image;
    PrimePositive(p);
    if s == {} {
      EmptyProducts(x, p);
      CongRefl(1, p);
    } else {
      var y :| y in s;
      var rest := s - {y};
      ImageProduct(rest, x, p);
      var fy := Times(x, y, p);
      ImageSplits(s, x, p, y);
      assert fy in Image(s, x, p);
      ProdRemove(Image(s, x, p), fy);
      assert Image(s, x, p) - {fy} == Image(rest, x, p);
      ProdRemove(s, y);
      CongMod(x * y, p);
      CongSym(x * y, fy, p);
      CongMul(fy, x * y, Prod(Image(rest, x, p)), Pow(x, |rest|) * Prod(rest), p);
      Regroup(x, y, Pow(x, |rest|), Prod(rest));
    }
  }

  lemma EmptyProducts(x: nat, p: nat)
    requires p > 0
    ensures Image({}, x, p) == {} && Prod({}) == 1
  {
  }

  lemma PrimePositive(p: nat)
    requires Prime(p)
    ensures p >= 2
  {
  }

  lemma Regroup(x: int, y: int, a: int, b: int)
    ensures x * y * (a * b) == x * a * (y * b)
  {
    MulAssoc(x * y, a, b);
    MulAssoc(x, y, a);
    MulAssoc(x, a, y);
    MulAssoc(x * a, y, b);
  }

  lemma ImageSplits(s: set<nat>, x: nat, p: nat, y: nat)
    requires Prime(p) && !Divides(p, x) && s <= Residues(p) && y in s
    ensures Times(x, y, p) !in Image(s - {y}, x, p)
    ensures Image(s, x, p) == Image(s - {y}, x, p) + {Times(x, y, p)}
  {
    PrimePositive(p);
    forall i: nat | i in s && Times(x, i, p) == Times(x, y, p)
      ensures i == y
    {
      Injective(x, p, i, y);
    }
    hide Divides, Prime, Times;
  }

  lemma SubsetOfSameSize(a: set<nat>, b: set<nat>)
    requires a <= b && |a| == |b|
    ensures a == b
  {
    if a != b {
      var e :| e in b && e !in a;
      Smaller(a, b - {e});
    }
  }

  lemma {:induction false} Smaller(a: set<nat>, b: set<nat>)
    requires a <= b
    ensures |a| <= |b|
    decreases a
  {
    if a != {} {
      var e :| e in a;
      Smaller(a - {e}, b - {e});
    }
  }

  lemma {:induction false} PrimeToProduct(s: set<nat>, p: nat)
    requires Prime(p) && s <= Residues(p)
    ensures !Divides(p, Prod(s))
  {
    hide Divides;
    if s == {} {
      NotDividesOne(p);
    } else {
      var y :| y in s;
      ProdRemove(s, y);
      PrimeToProduct(s - {y}, p);
      if Divides(p, Prod(s)) {
        PrimeDivides(p, y, Prod(s - {y}));
        DivisorBound(p, y);
      }
    }
  }

  lemma NotDividesOne(p: nat)
    requires p >= 2
    ensures !Divides(p, 1)
  {
    if Divides(p, 1) { DivisorBound(p, 1); }
  }

  lemma Fermat(p: nat, x: nat)
    requires Prime(p) && !Divides(p, x)
    ensures Cong(Pow(x, p - 1), 1, p)
  {
    hide Divides, Pow, Prod, Image, Cong, Times;
    var all := Residues(p);
    ImageProduct(all, x, p);
    ImageWithin(x, p);
    SubsetOfSameSize(Image(all, x, p), all);
    var m := Prod(all);
    CongSym(m, Pow(x, p - 1) * m, p);
    PrimeToProduct(all, p);
    CancelFactor(p, Pow(x, p - 1), m);
  }

  lemma CancelFactor(p: nat, a: nat, m: nat)
    requires Prime(p) && !Divides(p, m) && Cong(a * m, m, p)
    ensures Cong(a, 1, p)
  {
    hide Divides;
    assert a * m - m == m * (a - 1);
    PrimeDivides(p, m, a - 1);
  }

  lemma ImageWithin(x: nat, p: nat)
    requires Prime(p) && !Divides(p, x)
    ensures Image(Residues(p), x, p) <= Residues(p)
  {
    forall i: nat | i in Residues(p)
      ensures Times(x, i, p) in Residues(p)
    {
      DivModIdentity(x * i, p);
      if (x * i) % p == 0 {
        PrimeDivides(p, x, i);
        DivisorBound(p, i);
      }
    }
  }

  // ----- exponents modulo (p-1)(q-1)

  lemma {:induction false} PowOfOne(k: nat)
    ensures Pow(1, k) == 1
  {
    if k > 0 { PowOfOne(k - 1); }
  }

  lemma FermatPower(p: nat, x: nat, k: nat)
    requires Prime(p) && !Divides(p, x)
    ensures Cong(Pow(x, (p - 1) * k), 1, p)
  {
    Fermat(p, x);
    CongPow(Pow(x, p - 1), 1, k, p);
    PowMul(x, p - 1, k);
    PowOfOne(k);
  }

  lemma DividesPow(p: nat, x: nat, e: nat)
    requires p > 0 && Divides(p, x) && e >= 1
    ensures Divides(p, Pow(x, e))
  {
    DividesProduct(p, x, Pow(x, e - 1));
  }

  /** Modulo one prime, exponents may be lowered by multiples of p - 1 unless that reaches zero on a multiple of p. */
  lemma PrimeReduces(p: nat, x: nat, e: nat, k: nat)
    requires Prime(p) && (e >= 1 || !Divides(p, x))
    ensures Cong(Pow(x, e + (p - 1) * k), Pow(x, e), p)
  {
    hide Divides, Prime, Pow;
    PrimePositive(p);
    if Divides(p, x) {
      DividesPow(p, x, e);
      DividesPow(p, x, e + (p - 1) * k);
      DividesStep(p, Pow(x, e + (p - 1) * k), Pow(x, e), 1);
    } else {
      FermatPower(p, x, k);
      PowAdd(x, e, (p - 1) * k);
      CongRefl(Pow(x, e), p);
      CongMul(Pow(x, e), Pow(x, e), Pow(x, (p - 1) * k), 1, p);
    }
  }

  lemma TwoPrimesDivide(p: nat, q: nat, n: int)
    requires Prime(p) && Prime(q) && p != q && Divides(p, n) && Divides(q, n)
    ensures p * q > 0 && Divides(p * q, n)
  {
    DividesMeans(p, n);
    var t := n / p;
    PrimeDivides(q, p, t);
    DividesMeans(q, t);
    MulAssoc(p, q, t / q);
    assert p * q > 0;
    MultipleDivides(p * q, t / q);
  }

  lemma ProductDividesBoth(p: nat, q: nat, n: int)
    requires p > 0 && q > 0 && p * q > 0 && Divides(p * q, n)
    ensures Divides(p, n) && Divides(q, n)
  {
    DividesMeans(p * q, n);
    var t := n / (p * q);
    MulAssoc(p, q, t);
    MultipleDivides(p, q * t);
    assert p * q * t == q * (p * t) by { MulAssoc(q, p, t); }
    MultipleDivides(q, p * t);
  }

  /** The order of the group of units modulo pq. */
  function Totient(p: nat, q: nat): int {
    (p - 1) * (q - 1)
  }

  lemma TotientPositive(p: nat, q: nat)
    requires p >= 2 && q >= 2
    ensures Totient(p, q) > 0 && p * q > 0 && p * q >= 2 * q
  {
    MulMonotone(q, 2, p);
    MulMonotone(p - 1, 1, q - 1);
  }

  lemma ReduceExponent(p: nat, q: nat, x: nat, e: nat, k: nat)
    requires Prime(p) && Prime(q) && p != q
    requires e >= 1 || (!Divides(p, x) && !Divides(q, x))
    ensures p * q > 0 && Totient(p, q) * k >= 0 && Cong(Pow(x, e + Totient(p, q) * k), Pow(x, e), p * q)
  {
    hide Divides, Pow, Prime;
    PrimePositive(p);
    PrimePositive(q);
    TotientPositive(p, q);
    var a, b := p - 1, q - 1;
    MulAssoc(a, b, k);
    MulAssoc(b, a, k);
    PrimeReduces(p, x, e, b * k);
    PrimeReduces(q, x, e, a * k);
    TwoPrimesDivide(p, q, Pow(x, e + Totient(p, q) * k) - Pow(x, e));
  }

  /** Reducing the exponent modulo (p-1)(q-1) keeps the power modulo pq exactly when the reduced
      exponent is not zero or the base is prime to pq. */
  lemma ReduceExactly(p: nat, q: nat, x: nat, e: nat)
    requires Prime(p) && Prime(q) && p != q && e >= 1
    ensures p * q > 0 && Totient(p, q) > 0
    ensures Cong(Pow(x, e % Totient(p, q)), Pow(x, e), p * q)
       <==> e % Totient(p, q) != 0 || (!Divides(p, x) && !Divides(q, x))
  {
    hide Divides, Pow, Prime, Cong, Totient;
    PrimePositive(p);
    PrimePositive(q);
    TotientPositive(p, q);
    var phi := Totient(p, q);
    DivModIdentity(e, phi);
    var r := e % phi;
    if r != 0 || (!Divides(p, x) && !Divides(q, x)) {
      ReduceExponent(p, q, x, r, e / phi);
      CongSym(Pow(x, e), Pow(x, r), p * q);
    } else {
      ZeroPowerFails(p, q, x, e);
    }
  }

  lemma ZeroPowerFails(p: nat, q: nat, x: nat, e: nat)
    requires Prime(p) && Prime(q) && p * q > 0 && e >= 1 && (Divides(p, x) || Divides(q, x))
    ensures !Cong(Pow(x, 0), Pow(x, e), p * q)
  {
    hide Divides;
    if Cong(1, Pow(x, e), p * q) {
      ProductDividesBoth(p, q, 1 - Pow(x, e));
      var d := if Divides(p, x) then p else q;
      DividesPow(d, x, e);
      DividesSum(d, 1 - Pow(x, e), Pow(x, e));
      NotDividesOne(d);
    }
  }

  /** An odd divisor of a power of two is one. */
  lemma {:induction false} OddDivisorOfPow2(u: nat, k: nat)
    requires u % 2 == 1 && Divides(u, Pow2(k))
    ensures u == 1
  {
    if k == 0 {
      DivisorBound(u, 1);
    } else {
      DividesMeans(u, Pow2(k));
      var t := Pow2(k) / u;
      OddTimes(u, t);
      assert u * t == 2 * (u * (t / 2)) by { MulAssoc(u, 2, t / 2); assert t == 2 * (t / 2); }
      MultipleDivides(u, t / 2);
      OddDivisorOfPow2(u, k - 1);
    }
  }

  lemma OddTimes(u: nat, t: nat)
    requires u % 2 == 1 && (u * t) % 2 == 0
    ensures t % 2 == 0
  {
    var a := u / 2;
    assert u * t == 2 * (a * t) + t by { assert (2 * a + 1) * t == 2 * a * t + t; MulAssoc(2, a, t); }
  }

  /** For two distinct primes congruent to 3 modulo 4, (p-1)(q-1) divides no power of two. */
  lemma BlumTotient(p: nat, q: nat, k: nat)
    requires Prime(p) && Prime(q) && p != q && p % 4 == 3 && q % 4 == 3
    ensures Totient(p, q) > 0 && Pow2(k) % Totient(p, q) != 0
  {
    if p > q { LargerBlumPrime(p, q, k); } else { LargerBlumPrime(q, p, k); }
  }

  lemma LargerBlumPrime(p: nat, q: nat, k: nat)
    requires p > q >= 2 && p % 4 == 3 && q % 4 == 3
    ensures Totient(p, q) > 0 && Totient(q, p) == Totient(p, q) && Pow2(k) % Totient(p, q) != 0
  {
    hide Divides, Pow2;
    TotientPositive(p, q);
    var u := p / 2;
    assert p - 1 == 2 * u && u % 2 == 1 && u > 1;
    var phi := Totient(p, q);
    assert phi == u * (2 * (q - 1)) by { MulAssoc(u, 2, q - 1); }
    hide Totient;
    var t := Pow2(k) / phi;
    DividesMeans(phi, Pow2(k));
    MulAssoc(u, 2 * (q - 1), t);
    MultipleDivides(u, 2 * (q - 1) * t);
    if Divides(u, Pow2(k)) { OddDivisorOfPow2(u, k); }
    NotDivides(phi, Pow2(k));
  }

  lemma NotDivides(d: int, n: int)
    requires d > 0
    ensures Divides(d, n) <==> n % d == 0
  {
  }
}
