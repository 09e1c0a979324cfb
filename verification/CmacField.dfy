/** When the doubling of cmac.cpp is multiplication by x in a field of 2^(8n) elements, and what that
    means for the subkeys and the tag of section 6 of NIST SP 800-38B. */
module CmacField {
  import opened Powers
  import opened Bytes
  import opened BlockChaining
  import opened Cmac

  // ----- polynomials over GF(2), written as numbers

  /** The product of two polynomials: shifted copies of b, one for each term of a. */
  function Product(a: nat, b: nat): nat {
    if a == 0 then 0 else Xor(if a % 2 == 1 then b else 0, 2 * Product(a / 2, b))
  }

  /** Only the trivial factors; modulo such a polynomial the polynomials form a field. */
  ghost predicate Irreducible(p: nat) {
    p > 1 && forall a, b :: Product(a, b) == p ==> a == 1 || b == 1
  }

  /** Low-order terms of field polynomials: R_64 and R_128 of SP 800-38B section 5.3, and for 256 bits
      x^256 + x^10 + x^5 + x^2 + 1. */
  function FieldTerms(n: nat): nat {
    if n == 8 then 0x1b else if n == 16 then 0x87 else 0x425
  }

  /** The polynomials by their exponents: those of the field, and the one in the program for 32 bytes. */
  lemma TermsByExponent()
    ensures FieldTerms(8) == Reduction(8) && FieldTerms(8) == Pow2(4) + Pow2(3) + Pow2(1) + Pow2(0)
    ensures FieldTerms(16) == Reduction(16) && FieldTerms(16) == Pow2(7) + Pow2(2) + Pow2(1) + Pow2(0)
    ensures FieldTerms(32) == Pow2(10) + Pow2(5) + Pow2(2) + Pow2(0)
    ensures Reduction(32) == Pow2(10) + Pow2(5) + Pow2(1) + Pow2(0)
  {
    assert Pow2(3) == 8;
    assert Pow2(5) == 4 * Pow2(3);
    assert Pow2(7) == 4 * Pow2(5);
    assert Pow2(10) == 8 * Pow2(7);
  }

  // ----- the polynomial for 32-byte blocks has a factor

  /** k copies of a 24-bit pattern. */
  function Copies(c: nat, k: nat): nat {
    if k == 0 then 0 else Shl(Copies(c, k - 1), 24) + c
  }

  lemma {:induction false} XorCopies(c: nat, d: nat, k: nat)
    requires c < Pow2(24) && d < Pow2(24)
    ensures Xor(Copies(c, k), Copies(d, k)) == Copies(Xor(c, d), k)
  {
    hide Xor, Shl, Pow2;
    if k == 0 {
      XorZero(0);
    } else {
      XorCopies(c, d, k - 1);
      XorShifted(Copies(c, k - 1), Copies(d, k - 1), c, d, 24);
    }
  }

  /** Doubling a pattern whose top bit is set: a carry out, and one coming in below. */
  lemma {:induction false} DoubleCopies(c: nat, d: nat, k: nat)
    requires 2 * c + 1 == Pow2(24) + d
    ensures 2 * Copies(c, k) + 1 == Pow2(24 * k) + Copies(d, k)
  {
    hide Shl, Pow2;
    if k > 0 {
      DoubleCopies(c, d, k - 1);
      DoubleOneMore(Copies(c, k - 1), Copies(d, k - 1), c, d, 24 * (k - 1));
    } else {
      PowerZero();
    }
  }

  lemma PowerZero()
    ensures Pow2(0) == 1
  {
  }

  lemma DoubleOneMore(a: nat, b: nat, c: nat, d: nat, k: nat)
    requires 2 * c + 1 == Pow2(24) + d && 2 * a + 1 == Pow2(k) + b
    ensures 2 * (Shl(a, 24) + c) + 1 == Pow2(k + 24) + (Shl(b, 24) + d)
  {
    hide Shl, Pow2;
    ShlIsTimes(a, 24);
    ShlIsTimes(b, 24);
    Pow2Add(24, k);
    DoubleStep(a, b, c, d, Pow2(24), Pow2(k));
  }

  lemma DoubleStep(a: nat, b: nat, c: nat, d: nat, s: nat, p: nat)
    requires 2 * c + 1 == s + d && 2 * a + 1 == p + b
    ensures 2 * (a * s + c) + 1 == s * p + (b * s + d)
  {
    assert (2 * a + 1) * s == (p + b) * s;
    assert (2 * a + 1) * s == 2 * (a * s) + s && (p + b) * s == s * p + b * s;
  }

  lemma {:induction false} DoubleSmallCopies(c: nat, k: nat)
    ensures 2 * Copies(c, k) == Copies(2 * c, k)
  {
    hide Shl;
    if k > 0 {
      DoubleSmallCopies(c, k - 1);
      ShlAdd(Copies(c, k - 1), Copies(c, k - 1), 24);
    }
  }

  lemma {:induction false} CopiesBound(c: nat, k: nat)
    requires c < Pow2(24)
    ensures Copies(c, k) < Pow2(24 * k)
  {
    hide Shl;
    if k > 0 {
      CopiesBound(c, k - 1);
      OneMoreCopy(Copies(c, k - 1), c, 24 * (k - 1));
    }
  }

  lemma OneMoreCopy(a: nat, c: nat, k: nat)
    requires a < Pow2(k) && c < Pow2(24)
    ensures Shl(a, 24) + c < Pow2(k + 24)
  {
    hide Shl, Pow2;
    ShlMonotone(a + 1, Pow2(k), 24);
    ShlAdd(a, 1, 24);
    ShlOne(24);
    ShlIsTimes(Pow2(k), 24);
    Pow2Add(k, 24);
  }

  const A: nat := 0x6db6db
  const C: nat := 0xb6db6d

  /** The cofactor of x^2 + x + 1: 6db6db ten times, then 6c0d. */
  function Cofactor(): nat {
    Shl(Copies(A, 10), 16) + 0x6c0d
  }

  /** Numbers combine hexadecimal digit by digit. */
  lemma XorHex(a: nat, b: nat, x: nat, y: nat)
    requires x < 16 && y < 16
    ensures Xor(16 * a + x, 16 * b + y) == 16 * Xor(a, b) + Xor(x, y)
  {
    assert Pow2(4) == 16;
    XorShifted(a, b, x, y, 4);
    ShlIsTimes(a, 4);
    ShlIsTimes(b, 4);
    ShlIsTimes(Xor(a, b), 4);
  }

  lemma XorsOfTwoBits()
    ensures Xor(1, 3) == 2 && Xor(2, 1) == 3 && Xor(3, 2) == 1 && Xor(1, 1) == 0
  {
    hide Xor;
    XorStep(1, 3);
    XorStep(2, 1);
    XorStep(3, 2);
    XorSelf(1);
    XorZero(1);
  }

  lemma HexXors()
    ensures Xor(0x6, 0xd) == 0xb && Xor(0xd, 0xb) == 0x6 && Xor(0xb, 0x6) == 0xd
  {
    hide Xor;
    XorsOfTwoBits();
    XorStep(0x6, 0xd);
    XorStep(0x3, 0x6);
    XorStep(0xd, 0xb);
    XorStep(0x6, 0x5);
    XorStep(0xb, 0x6);
    XorStep(0x5, 0x3);
  }

  lemma TailHexXors()
    ensures Xor(0xc, 0x8) == 0x4 && Xor(0xd, 0xa) == 0x7 && Xor(0xd, 0xe) == 0x3
  {
    hide Xor;
    XorsOfTwoBits();
    XorStep(0xc, 0x8);
    XorStep(0x6, 0x4);
    XorStep(0xd, 0xa);
    XorStep(0x6, 0x5);
    XorStep(0xd, 0xe);
    XorStep(0x6, 0x7);
    XorSelf(0x3);
  }

  lemma ByteXors()
    ensures Xor(0x6d, 0xdb) == 0xb6 && Xor(0xb6, 0x6d) == 0xdb && Xor(0xdb, 0xb6) == 0x6d
  {
    hide Xor;
    HexXors();
    XorHex(0x6, 0xd, 0xd, 0xb);
    XorHex(0xb, 0x6, 0x6, 0xd);
    XorHex(0xd, 0xb, 0xb, 0x6);
  }

  lemma TailXors()
    ensures Xor(0x6c, 0xd8) == 0xb4 && Xor(0x0d, 0x1a) == 0x17 && Xor(0x6c, 0x68) == 0x04 && Xor(0x0d, 0x2e) == 0x23
  {
    hide Xor;
    HexXors();
    TailHexXors();
    XorZero(1);
    XorZero(2);
    XorSelf(0x6);
    XorHex(0x6, 0xd, 0xc, 0x8);
    XorHex(0x0, 0x1, 0xd, 0xa);
    XorHex(0x6, 0x6, 0xc, 0x8);
    XorHex(0x0, 0x2, 0xd, 0xe);
  }

  lemma Patterns()
    ensures Xor(A, 2 * A) == C && Xor(0x6c0d, 0xd81a) == 0xb417 && Xor(0x6c0d, 0x682e) == 0x423
    ensures Pow2(16) == 0x10000 && Pow2(24) == 0x1000000
  {
    hide Xor;
    ByteXors();
    TailXors();
    XorAligned(0x6db6, 0xdb6d, 0xdb, 0xb6);
    XorAligned(0x6d, 0xdb, 0xb6, 0x6d);
    XorAligned(0x6c, 0xd8, 0x0d, 0x1a);
    XorAligned(0x6c, 0x68, 0x0d, 0x2e);
    Pow2OfEight();
    Pow2Add(8, 8);
    Pow2Add(16, 8);
  }

  lemma ProductThree(b: nat)
    ensures Product(3, b) == Xor(b, 2 * b) && Product(7, b) == Xor(b, 2 * Product(3, b))
  {
    XorZero(b);
    hide Xor;
    assert Product(1, b) == Xor(b, 2 * Product(0, b));
  }

  /** (x + 1) times the cofactor. */
  lemma CofactorPlusDouble()
    ensures Xor(Cofactor(), 2 * Cofactor()) == Shl(Copies(C, 10), 16) + 0xb417
  {
    hide Xor, Shl, Pow2, Copies;
    Patterns();
    var a := Copies(A, 10);
    DoubleSmallCopies(A, 10);
    ShlAdd(a, a, 16);
    XorShifted(a, 2 * a, 0x6c0d, 0xd81a, 16);
    XorCopies(A, 2 * A, 10);
  }

  lemma TopTerm(a: nat, k: nat)
    requires a < Pow2(k)
    ensures Xor(a, Pow2(k) + a) == Pow2(k)
  {
    XorShifted(0, 1, a, a, k);
    XorSelf(a);
    XorZero(1);
    hide Xor;
    ShlOne(k);
    ShlOfZero(k);
  }

  lemma DoubleShifted(c: nat, d: nat)
    requires 2 * c + 1 == d && Pow2(16) == 0x10000
    ensures 2 * (Shl(c, 16) + 0xb417) == Shl(d, 16) + 0x682e
  {
    hide Shl, Pow2;
    ShlAdd(c, c, 16);
    ShlAdd(2 * c, 1, 16);
    ShlOne(16);
  }

  /** Twice that, by its carry into the 257th bit. */
  lemma DoubleAgain()
    ensures 2 * (Shl(Copies(C, 10), 16) + 0xb417) == Shl(Pow2(240) + Copies(A, 10), 16) + 0x682e
  {
    hide Xor, Shl, Pow2, Copies;
    Patterns();
    DoubleCopies(C, A, 10);
    DoubleShifted(Copies(C, 10), Pow2(240) + Copies(A, 10));
  }

  /** The polynomial MulU reduces 32-byte blocks by is (x^2 + x + 1) times the cofactor. */
  lemma ReductionFactors()
    ensures Product(7, Cofactor()) == Pow256(32) + Reduction(32)
  {
    hide Xor, Shl, Pow2, Copies, Pow256, Product;
    var a := Copies(A, 10);
    ProductThree(Cofactor());
    CofactorPlusDouble();
    DoubleAgain();
    Patterns();
    XorShifted(a, Pow2(240) + a, 0x6c0d, 0x682e, 16);
    CopiesBound(A, 10);
    TopTerm(a, 240);
    ShlIsTimes(Pow2(240), 16);
    Pow2Add(240, 16);
    Pow256IsShift(32);
  }

  /** So there is no field of polynomials modulo it. */
  lemma ReductionIsReducible()
    ensures !Irreducible(Pow256(32) + Reduction(32))
  {
    hide Product, Shl, Pow256, Copies;
    ReductionFactors();
  }

  // ----- when the doubling is the one of a field

  lemma TermsFit(n: nat)
    requires Supported(n)
    ensures Reduction(n) < Pow256(n) && FieldTerms(n) < Pow256(n)
    ensures n != 32 ==> Reduction(n) == FieldTerms(n)
  {
    ReductionFits(n);
    assert Pow256(2) == 256 * Pow256(1) && Pow256(1) == 256 * Pow256(0);
    Pow256Monotone(2, n);
  }

  /** Adding the same polynomial keeps different ones apart. */
  lemma XorKeepsApart(a: nat, b: nat, c: nat)
    requires Xor(a, b) == Xor(a, c)
    ensures b == c
  {
    hide Xor;
    XorAssoc(a, a, b);
    XorAssoc(a, a, c);
    XorSelf(a);
    XorZero(b);
    XorZero(c);
  }

  /** Two doublings agree on a block exactly when nothing is carried out of it or the polynomials are
      the same. */
  lemma DoublingsAgree(v: nat, n: nat, terms: nat, terms': nat)
    ensures TimesX(v, n, terms) == TimesX(v, n, terms') <==> 2 * v < Pow256(n) || terms == terms'
  {
    hide Xor;
    if 2 * v >= Pow256(n) && TimesX(v, n, terms) == TimesX(v, n, terms') {
      XorKeepsApart(2 * v, Pow256(n) + terms, Pow256(n) + terms');
    }
  }

  /** MulU is doubling modulo the field polynomial for every block of 8 and of 16 bytes, and for exactly
      the blocks of 32 bytes whose top bit is clear. */
  lemma DoublesInField(block: seq<byte>)
    requires Supported(|block|)
    ensures var v, n := FromBigEndian(block), |block|;
      TimesX(v, n, Reduction(n)) == TimesX(v, n, FieldTerms(n)) <==> n != 32 || block[0] < 128
  {
    hide FromBigEndian, TimesX;
    TermsFit(|block|);
    TopByte(block);
    DoublingsAgree(FromBigEndian(block), |block|, Reduction(|block|), FieldTerms(|block|));
  }

  /** Whatever irreducible polynomial of degree 256 is chosen, MulU is doubling modulo it for no 32-byte
      block with its top bit set, and for every other. */
  lemma NoFieldDoublesLike(block: seq<byte>, terms: nat)
    requires |block| == 32 && terms < Pow256(32) && Irreducible(Pow256(32) + terms)
    ensures TimesX(FromBigEndian(block), 32, Reduction(32)) == TimesX(FromBigEndian(block), 32, terms) <==> block[0] < 128
  {
    hide FromBigEndian, TimesX, Irreducible, Pow256;
    ReductionIsReducible();
    TopByte(block);
    DoublingsAgree(FromBigEndian(block), 32, Reduction(32), terms);
  }

  /** The top bits of a block decide whether doubling it, once or twice, carries. */
  lemma TopByte(block: seq<byte>)
    requires block != []
    ensures 2 * FromBigEndian(block) < Pow256(|block|) <==> block[0] < 128
    ensures 4 * FromBigEndian(block) < Pow256(|block|) <==> block[0] < 64
  {
    hide Pow256, FromBigEndian;
    SplitFront(block, 0);
    assert block[0..] == block;
    FromBigEndianBound(block[1..]);
    var p := Pow256(|block| - 1);
    Pow256Step(|block|);
    TopByteDecides(block[0], FromBigEndian(block[1..]), p, 64);
    TopByteDecides(block[0], FromBigEndian(block[1..]), p, 128);
  }

  lemma Pow256Step(n: nat)
    requires n > 0
    ensures Pow256(n) == 256 * Pow256(n - 1)
  {
  }

  lemma TopByteDecides(b: nat, low: nat, p: nat, bound: nat)
    requires low < p
    ensures b * p + low < bound * p <==> b < bound
  {
    if b < bound { MulMonotone(p, b + 1, bound); } else { MulMonotone(p, bound, b); }
  }

  /** It does fail: the block that is just the top bit. */
  lemma TopBitFails()
    ensures var block := [0x80] + Zeros(31);
      TimesX(FromBigEndian(block), 32, Reduction(32)) != TimesX(FromBigEndian(block), 32, FieldTerms(32))
  {
    hide FromBigEndian, TimesX;
    var block: seq<byte> := [0x80] + Zeros(31);
    assert |block| == 32;
    DoublesInField(block);
  }

  // ----- the subkeys

  lemma {:induction false} BigEndianApart(a: nat, b: nat, n: nat)
    requires a < Pow256(n) && b < Pow256(n)
    ensures BigEndian(a, n) == BigEndian(b, n) <==> a == b
  {
    hide BigEndian, FromBigEndian;
    BigEndianReads(a, n);
    BigEndianReads(b, n);
  }

  /** TimesX is the remainder of the product with x: below the polynomial's degree, and away from the
      product by the polynomial times the bit carried out. */
  lemma TimesXIsRemainder(v: nat, n: nat, terms: nat)
    requires v < Pow256(n) && terms < Pow256(n)
    ensures TimesX(v, n, terms) < Pow256(n)
    ensures var quotient := if 2 * v < Pow256(n) then 0 else 1;
      Xor(TimesX(v, n, terms), Product(quotient, Pow256(n) + terms)) == Product(2, v)
  {
    var p := Pow256(n) + terms;
    TimesXFits(v, n, terms);
    SmallProducts(v);
    SmallProducts(p);
    hide Pow256, Product, Xor;
    XorZero(2 * v);
    XorCancel(2 * v, p);
  }

  lemma SmallProducts(b: nat)
    ensures Product(0, b) == 0 && Product(1, b) == b && Product(2, b) == 2 * b
  {
    XorZero(b);
    XorZero(2 * b);
    hide Xor;
    assert Product(1, b) == Xor(b, 2 * Product(0, b));
    assert Product(2, b) == Xor(0, 2 * Product(1, b));
  }

  /** The first subkey is 2L of the field for every key at 8 and 16 bytes, and for exactly the keys
      whose L starts with a zero bit at 32 bytes. */
  lemma Subkey1InField(E: Cipher, n: nat)
    requires Supported(n) && IsCipher(E, n)
    ensures |E(Zeros(n))| == n && (Subkey1(E, n, Reduction(n)) == Subkey1(E, n, FieldTerms(n)) <==> n != 32 || E(Zeros(n))[0] < 128)
  {
    hide FromBigEndian, TimesX, BigEndian;
    var l := E(Zeros(n));
    CipherLength(E, n, Zeros(n));
    TermsFit(n);
    FromBigEndianBound(l);
    TimesXFits(FromBigEndian(l), n, Reduction(n));
    TimesXFits(FromBigEndian(l), n, FieldTerms(n));
    BigEndianApart(TimesX(FromBigEndian(l), n, Reduction(n)), TimesX(FromBigEndian(l), n, FieldTerms(n)), n);
    DoublesInField(l);
  }

  lemma XorHalf(a: nat, b: nat)
    ensures Xor(a, b) % 2 == (a + b) % 2 && Xor(a, b) / 2 == Xor(a / 2, b / 2)
  {
    hide Xor;
    XorStep(a, b);
    LowBitOff(Xor(a, b), Xor(a / 2, b / 2), (a + b) % 2);
  }

  lemma LowBitOff(n: nat, half: nat, bit: nat)
    requires n == 2 * half + bit && bit < 2
    ensures n % 2 == bit && n / 2 == half
  {
  }

  lemma XorLowBits(a: nat, b: nat)
    ensures Xor(a, b) % 2 == (a + b) % 2 && Xor(a, b) / 2 % 2 == (a / 2 + b / 2) % 2
  {
    hide Xor;
    XorHalf(a, b);
    XorHalf(a / 2, b / 2);
  }

  /** The lowest two bits of a doubling that carries. */
  lemma CarryBits(v: nat, terms: nat)
    requires 2 * v >= Pow256(32)
    ensures TimesX(v, 32, terms) % 2 == terms % 2
    ensures TimesX(v, 32, terms) / 2 % 2 == (v + terms / 2) % 2
  {
    hide Xor, Pow256;
    Pow256Step(32);
    XorLowBits(2 * v, Pow256(32) + terms);
    HalfSums(v, Pow256(31), terms);
  }

  lemma HalfSums(v: nat, q: nat, terms: nat)
    ensures (2 * v + (256 * q + terms)) % 2 == terms % 2
    ensures (2 * v / 2 + (256 * q + terms) / 2) % 2 == (v + terms / 2) % 2
  {
    assert (256 * q + terms) / 2 == 128 * q + terms / 2;
    assert v + (128 * q + terms / 2) == 2 * (64 * q) + (v + terms / 2);
  }

  /** After a first doubling that carried, the second ones differ in any case. */
  lemma SecondDiffers(v: nat)
    requires 2 * v >= Pow256(32)
    ensures var r, f := Reduction(32), FieldTerms(32);
      TimesX(TimesX(v, 32, r), 32, r) != TimesX(TimesX(v, 32, f), 32, f)
  {
    hide TimesX, Pow256;
    var r, f := Reduction(32), FieldTerms(32);
    CarryBits(v, r);
    CarryBits(v, f);
    Odds(v);
    var k, k' := TimesX(v, 32, r), TimesX(v, 32, f);
    SecondBits(k, r);
    SecondBits(k', f);
    SecondCases(k, k', TimesX(k, 32, r), TimesX(k', 32, f), 2 * k >= Pow256(32), 2 * k' >= Pow256(32));
  }

  lemma SecondBits(k: nat, terms: nat)
    ensures var m := TimesX(k, 32, terms);
      if 2 * k >= Pow256(32) then m % 2 == terms % 2 && m / 2 % 2 == (k + terms / 2) % 2 else m == 2 * k
  {
    hide TimesX, Pow256;
    if 2 * k >= Pow256(32) { CarryBits(k, terms); } else { Uncarried(k, terms); }
  }

  lemma Odds(v: nat)
    ensures 0x423 % 2 == 1 == 0x425 % 2 && (v + 0x423 / 2) % 2 != (v + 0x425 / 2) % 2
  {
  }

  lemma SecondCases(k: nat, k': nat, m: nat, m': nat, carried: bool, carried': bool)
    requires k != k' && k % 2 == 1 && k' % 2 == 1
    requires if carried then m % 2 == 1 && m / 2 % 2 == (k + 0x423 / 2) % 2 else m == 2 * k
    requires if carried' then m' % 2 == 1 && m' / 2 % 2 == (k' + 0x425 / 2) % 2 else m' == 2 * k'
    ensures m != m'
  {
  }

  /** Doubling twice agrees exactly when neither carries. */
  lemma DoublingsTwice(block: seq<byte>)
    requires Supported(|block|)
    ensures var v, n, r, f := FromBigEndian(block), |block|, Reduction(|block|), FieldTerms(|block|);
      TimesX(TimesX(v, n, r), n, r) == TimesX(TimesX(v, n, f), n, f) <==> n != 32 || block[0] < 64
  {
    hide FromBigEndian, TimesX, Pow256;
    var v := FromBigEndian(block);
    TermsFit(|block|);
    TopByte(block);
    if |block| == 32 {
      if 2 * v >= Pow256(32) {
        SecondDiffers(v);
      } else {
        DoublingsAgree(v, 32, Reduction(32), FieldTerms(32));
        Uncarried(v, Reduction(32));
        DoublingsAgree(2 * v, 32, Reduction(32), FieldTerms(32));
      }
    }
  }

  lemma Uncarried(v: nat, terms: nat)
    requires 2 * v < Pow256(32)
    ensures TimesX(v, 32, terms) == 2 * v
  {
  }

  /** The second subkey is 4L of the field for every key at 8 and 16 bytes, and for exactly the keys
      whose L starts with two zero bits at 32 bytes. */
  lemma Subkey2InField(E: Cipher, n: nat)
    requires Supported(n) && IsCipher(E, n)
    ensures |E(Zeros(n))| == n && (Subkey2(E, n, Reduction(n)) == Subkey2(E, n, FieldTerms(n)) <==> n != 32 || E(Zeros(n))[0] < 64)
  {
    hide FromBigEndian, TimesX, BigEndian, Pow256;
    var l := E(Zeros(n));
    CipherLength(E, n, Zeros(n));
    TermsFit(n);
    FromBigEndianBound(l);
    var v := FromBigEndian(l);
    Subkey2Value(E, n, Reduction(n), v);
    Subkey2Value(E, n, FieldTerms(n), v);
    BigEndianApart(TimesX(TimesX(v, n, Reduction(n)), n, Reduction(n)), TimesX(TimesX(v, n, FieldTerms(n)), n, FieldTerms(n)), n);
    DoublingsTwice(l);
  }

  lemma Subkey2Value(E: Cipher, n: nat, terms: nat, v: nat)
    requires IsCipher(E, n) && v == FromBigEndian(E(Zeros(n))) < Pow256(n) && terms < Pow256(n)
    ensures TimesX(TimesX(v, n, terms), n, terms) < Pow256(n)
    ensures Subkey2(E, n, terms) == BigEndian(TimesX(TimesX(v, n, terms), n, terms), n)
  {
    hide FromBigEndian, TimesX, BigEndian, Pow256;
    TimesXFits(v, n, terms);
    TimesXFits(TimesX(v, n, terms), n, terms);
    BigEndianReads(TimesX(v, n, terms), n);
  }

  // ----- the tag

  /** A block cipher maps different blocks to different blocks. */
  ghost predicate Injective(E: Cipher, n: nat) {
    forall s, t :: |s| == n && |t| == n && E(s) == E(t) ==> s == t
  }

  lemma XorBytesApart(x: seq<byte>, a: seq<byte>, b: seq<byte>)
    requires |x| == |a| == |b|
    ensures XorBytes(x, a) == XorBytes(x, b) <==> a == b
  {
    if XorBytes(x, a) == XorBytes(x, b) {
      forall i | 0 <= i < |a|
        ensures a[i] == b[i]
      {
        assert XorBytes(x, a)[i] == XorBytes(x, b)[i];
        XorKeepsApart(x[i], a[i], b[i]);
      }
    }
  }

  lemma EncipheredApart(E: Cipher, n: nat, x: seq<byte>, a: seq<byte>, b: seq<byte>)
    requires Injective(E, n) && |x| == |a| == |b| == n
    ensures E(XorBytes(x, a)) == E(XorBytes(x, b)) <==> a == b
  {
    XorBytesApart(x, a, b);
    hide XorBytes;
  }

  /** What the last block, complete or not, asks of the first byte of L. */
  function CarryFree(n: nat, last: seq<byte>): nat {
    if |last| == n then 128 else 64
  }

  lemma FinalBlockInField(E: Cipher, n: nat, last: seq<byte>)
    requires Supported(n) && IsCipher(E, n) && |last| <= n
    ensures |E(Zeros(n))| == n
    ensures FinalBlock(E, n, Reduction(n), last) == FinalBlock(E, n, FieldTerms(n), last)
      <==> n != 32 || E(Zeros(n))[0] < CarryFree(n, last)
  {
    hide Subkey1, Subkey2, XorBytes, Reduction, FieldTerms, IsCipher;
    if |last| == n {
      Subkey1InField(E, n);
      XorBytesApart(last, Subkey1(E, n, Reduction(n)), Subkey1(E, n, FieldTerms(n)));
    } else {
      Subkey2InField(E, n);
      XorBytesApart(last + [0x80] + Zeros(n - |last| - 1), Subkey2(E, n, Reduction(n)), Subkey2(E, n, FieldTerms(n)));
    }
  }

  /** The tag is the one of SP 800-38B over the field, for every message and key at 8 and 16 bytes. At
      32 bytes it is for exactly the keys whose L starts with a zero bit when the last block is
      complete, with two zero bits when it is not. */
  lemma MacInField(E: Cipher, n: nat, message: seq<byte>)
    requires Supported(n) && IsCipher(E, n) && Injective(E, n)
    ensures |E(Zeros(n))| == n
    ensures Mac(E, n, Reduction(n), message) == Mac(E, n, FieldTerms(n), message)
      <==> n != 32 || E(Zeros(n))[0] < CarryFree(n, LastBlock(n, message))
  {
    hide FinalBlock, ChainAllButLast, LastBlock, XorBytes, Reduction, FieldTerms, Supported, Injective, CarryFree;
    var last := LastBlock(n, message);
    FinalBlockInField(E, n, last);
    EncipheredApart(E, n, ChainAllButLast(E, n, Zeros(n), message), FinalBlock(E, n, Reduction(n), last), FinalBlock(E, n, FieldTerms(n), last));
  }
}
