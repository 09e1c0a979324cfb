/** Powers, bit counts and the few division facts the other modules share. */
module Powers {

  function Pow(b: nat, e: nat): (r: nat)
    ensures b > 0 ==> r > 0
  {
    if e == 0 then 1 else b * Pow(b, e - 1)
  }

  function Pow2(e: nat): (r: nat)
    ensures r > 0
  {
    if e == 0 then 1 else 2 * Pow2(e - 1)
  }

  /** Integer::BitCount: the number of bits of n, 0 for zero. */
  function BitCount(n: nat): nat
  {
    if n == 0 then 0 else 1 + BitCount(n / 2)
  }

  /** Right shift: n / 2^i, one bit at a time. */
  function Shr(n: nat, i: nat): nat
  {
    if i == 0 then n else Shr(n / 2, i - 1)
  }

  /** The low w bits: n % 2^w. */
  function Low(n: nat, w: nat): (r: nat)
    ensures r < Pow2(w)
  {
    if w == 0 then 0 else 2 * Low(n / 2, w - 1) + n % 2
  }

  /** Left shift of any integer: x * 2^k. */
  function Shl(x: int, k: nat): (r: int)
    ensures x >= 0 ==> r >= 0
    ensures x > 0 ==> r > 0
  {
    if k == 0 then x else 2 * Shl(x, k - 1)
  }

  /** Integer::GetBit: bit i of n, zero beyond the top. */
  function GetBit(n: nat, i: nat): (b: nat)
    ensures b == 0 || b == 1
  {
    Shr(n, i) % 2
  }

  lemma {:induction false} PowAdd(b: nat, m: nat, n: nat)
    ensures Pow(b, m + n) == Pow(b, m) * Pow(b, n)
  {
    if m == 0 {
    } else {
      PowAdd(b, m - 1, n);
      MulAssoc(b, Pow(b, m - 1), Pow(b, n));
    }
  }

  lemma {:induction false} PowMul(b: nat, m: nat, n: nat)
    ensures Pow(Pow(b, m), n) == Pow(b, m * n)
  {
    if n == 0 {
    } else {
      PowMul(b, m, n - 1);
      PowAdd(b, m, m * (n - 1));
      assert m + m * (n - 1) == m * n;
    }
  }

  lemma {:induction false} Pow2Add(m: nat, n: nat)
    ensures Pow2(m + n) == Pow2(m) * Pow2(n)
  {
    if m == 0 {
    } else {
      Pow2Add(m - 1, n);
      MulAssoc(2, Pow2(m - 1), Pow2(n));
    }
  }

  lemma {:induction false} Pow2Monotone(m: nat, n: nat)
    requires m <= n
    ensures Pow2(m) <= Pow2(n)
    decreases n
  {
    if m < n { Pow2Monotone(m, n - 1); }
  }

  lemma {:induction false} Pow2Exceeds(m: nat, n: nat)
    requires Pow2(m) <= Pow2(n)
    ensures m <= n
  {
    if n < m {
      Pow2Monotone(n + 1, m);
    }
  }

  /** A number sits strictly below the power of two given by its bit count. */
  lemma {:induction false} BitCountBounds(n: nat)
    ensures n < Pow2(BitCount(n))
    ensures n > 0 ==> Pow2(BitCount(n) - 1) <= n
  {
    if n > 0 {
      BitCountBounds(n / 2);
    }
  }

  lemma MulAssoc(a: int, b: int, c: int)
    ensures a * b * c == a * (b * c)
  {
  }

  lemma MulMonotone(a: nat, x: int, y: int)
    requires x <= y
    ensures a * x <= a * y
  {
  }

  lemma DivModIdentity(n: int, d: int)
    requires d > 0
    ensures n == d * (n / d) + n % d && n == n / d * d + n % d && 0 <= n % d < d
  {
  }

  /** Quotient and remainder are the only pair with n == d * q + r and 0 <= r < d. */
  lemma DivModUnique(n: int, d: int, q: int, r: int)
    requires d > 0 && 0 <= r < d && n == d * q + r
    ensures n / d == q && n % d == r
  {
    var q', r' := n / d, n % d;
    assert n == d * q' + r';
    assert d * (q - q') == r' - r by { assert d * (q - q') == d * q - d * q'; }
    if q - q' >= 1 {
      MulMonotone(d, 1, q - q');
      assert false;
    } else if q - q' <= -1 {
      MulMonotone(d, q - q', -1);
      assert false;
    }
  }

  /** Dividing twice is dividing by the product. */
  lemma DivDiv(n: nat, a: nat, b: nat)
    requires a > 0 && b > 0
    ensures a * b > 0 && n / a / b == n / (a * b)
  {
    var q := n / a;
    var q', r' := q / b, q % b;
    assert n == a * q + n % a;
    assert q == b * q' + r';
    assert a * q == a * b * q' + a * r' by {
      assert a * (b * q' + r') == a * (b * q') + a * r';
      MulAssoc(a, b, q');
    }
    MulMonotone(a, r', b - 1);
    assert a * (b - 1) == a * b - a;
    DivModUnique(n, a * b, q', a * r' + n % a);
  }

  lemma {:induction false} ShrIsDiv(n: nat, i: nat)
    ensures Shr(n, i) == n / Pow2(i)
  {
    if i == 0 {
    } else {
      ShrIsDiv(n / 2, i - 1);
      DivDiv(n, 2, Pow2(i - 1));
    }
  }

  lemma {:induction false} ShlIsTimes(x: int, k: nat)
    ensures Shl(x, k) == x * Pow2(k)
  {
    if k == 0 {
    } else {
      ShlIsTimes(x, k - 1);
      MulAssoc(x, 2, Pow2(k - 1));
    }
  }

  /** One more bit shifted out. */
  lemma {:induction false} ShrStep(n: nat, i: nat)
    ensures Shr(n, i + 1) == Shr(n, i) / 2
    ensures Shr(n, i) == 2 * Shr(n, i + 1) + GetBit(n, i)
  {
    if i == 0 {
      assert Shr(n, 1) == Shr(n / 2, 0);
    } else {
      ShrStep(n / 2, i - 1);
    }
  }

  lemma {:induction false} ShrShr(n: nat, i: nat, j: nat)
    ensures Shr(Shr(n, i), j) == Shr(n, i + j)
  {
    if i > 0 { ShrShr(n / 2, i - 1, j); }
  }

  lemma {:induction false} ShiftedOut(n: nat, i: nat)
    requires i >= BitCount(n)
    ensures Shr(n, i) == 0
  {
    if i > 0 { ShiftedOut(n / 2, i - 1); }
  }

  /** The top bit of a nonzero number is set. */
  lemma {:induction false} TopBit(n: nat)
    requires n > 0
    ensures Shr(n, BitCount(n) - 1) == 1
  {
    if n > 1 { TopBit(n / 2); }
  }

  lemma {:induction false} ShlAdd(x: int, y: int, k: nat)
    ensures Shl(x + y, k) == Shl(x, k) + Shl(y, k)
  {
    if k > 0 { ShlAdd(x, y, k - 1); }
  }

  lemma {:induction false} ShlShl(x: int, i: nat, j: nat)
    ensures Shl(Shl(x, i), j) == Shl(x, i + j)
  {
    if j > 0 { ShlShl(x, i, j - 1); }
  }

  lemma {:induction false} ShlMonotone(x: int, y: int, k: nat)
    ensures x <= y <==> Shl(x, k) <= Shl(y, k)
  {
    if k > 0 { ShlMonotone(x, y, k - 1); }
  }

  lemma {:induction false} ShlOne(k: nat)
    ensures Shl(1, k) == Pow2(k)
  {
    if k > 0 { ShlOne(k - 1); }
  }

  /** n is its high part shifted back plus its low bits. */
  lemma {:induction false} Split(n: nat, w: nat)
    ensures n == Shl(Shr(n, w), w) + Low(n, w)
  {
    if w > 0 {
      Split(n / 2, w - 1);
    }
  }

  /** High and low parts are determined by the value. */
  lemma {:induction false} SplitUnique(n: nat, w: nat, high: nat, low: nat)
    requires low < Pow2(w) && n == Shl(high, w) + low
    ensures Shr(n, w) == high && Low(n, w) == low
  {
    if w > 0 {
      assert n / 2 == Shl(high, w - 1) + low / 2 && n % 2 == low % 2;
      SplitUnique(n / 2, w - 1, high, low / 2);
    }
  }

  lemma Pow2OfEight()
    ensures Pow2(8) == 256
  {
    assert Pow2(4) == 16;
    Pow2Add(4, 4);
  }

  lemma {:induction false} ShlOfZero(k: nat)
    ensures Shl(0, k) == 0
  {
    if k > 0 { ShlOfZero(k - 1); }
  }

  lemma {:induction false} ShrOfZero(k: nat)
    ensures Shr(0, k) == 0
  {
    if k > 0 { ShrOfZero(k - 1); }
  }

  lemma ShlByZero(x: int)
    ensures Shl(x, 0) == x
  {
  }

  lemma ShrByZero(n: nat)
    ensures Shr(n, 0) == n
  {
  }
}
