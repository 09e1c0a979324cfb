/** The Blum-Blum-Shub generators of blumshub.cpp: sequential generation and random access. */
module BlumBlumShubGenerator {
  import opened Powers
  import opened Euclid
  import opened NumberTheory

  /** The modulus state after j squarings of the initial state x0^2. */
  ghost function StateAt(x0: nat, n: nat, j: nat): nat
    requires n > 0
  {
    Pow(x0, Pow2(j + 1)) % n
  }

  /** Bit t of the output stream: each state gives maxBits bits, highest first. */
  ghost function StreamBit(x0: nat, n: nat, maxBits: nat, t: nat): nat
    requires n > 0 && maxBits > 0
  {
    GetBit(StateAt(x0, n, t / maxBits), maxBits - 1 - t % maxBits)
  }

  /** count bits of the stream from position t, as a big-endian number. */
  ghost function StreamBits(x0: nat, n: nat, maxBits: nat, t: nat, count: nat): nat
    requires n > 0 && maxBits > 0
  {
    if count == 0 then 0
    else 2 * StreamBits(x0, n, maxBits, t, count - 1) + StreamBit(x0, n, maxBits, t + count - 1)
  }

  /** Squaring a state gives the next one. */
  lemma SquareAdvances(x0: nat, n: nat, j: nat)
    requires n > 0
    ensures (StateAt(x0, n, j) * StateAt(x0, n, j)) % n == StateAt(x0, n, j + 1)
  {
    hide Cong, Pow;
    var e := Pow2(j + 1);
    var a := Pow(x0, e);
    CongMod(a, n);
    CongSym(a, a % n, n);
    CongMul(a % n, a, a % n, a, n);
    PowAdd(x0, e, e);
    CongIsEqualRemainder(a % n * (a % n), a * a, n);
  }

  lemma FirstState(x0: nat, n: nat)
    requires n > 0
    ensures (x0 * x0) % n == StateAt(x0, n, 0)
  {
    assert Pow2(1) == 2 * Pow2(0);
    assert Pow(x0, 2) == x0 * Pow(x0, 1) && Pow(x0, 1) == x0 * Pow(x0, 0);
  }

  /** Position t is where block j's bits end. */
  ghost predicate EndsBlock(maxBits: nat, t: nat, j: nat) {
    t == (j + 1) * maxBits
  }

  /** A position inside block j, offset bits from its end. */
  lemma BlockPosition(maxBits: nat, t: nat, j: nat, left: nat)
    requires 0 < left <= maxBits && t + left == (j + 1) * maxBits
    ensures t / maxBits == j && maxBits - 1 - t % maxBits == left - 1
  {
    assert (j + 1) * maxBits == maxBits * j + maxBits;
    DivModUnique(t, maxBits, j, maxBits - left);
  }

  /** BitPrecision(n.BitCount()) - 1. */
  function MaxBits(n: nat): (b: nat)
    requires n >= 2
    ensures b >= 1
  {
    assert BitCount(n) == 1 + BitCount(n / 2) && BitCount(n / 2) == 1 + BitCount(n / 4);
    assert BitCount(BitCount(n)) == 1 + BitCount(BitCount(n) / 2);
    BitCount(BitCount(n)) - 1
  }

  /** The largest number of bits b with 2^b at most the modulus's bit length. */
  lemma MaxBitsMeans(n: nat)
    requires n >= 2
    ensures Pow2(MaxBits(n)) <= BitCount(n) < Pow2(MaxBits(n) + 1)
  {
    BitCountBounds(BitCount(n));
    assert BitCount(n) > 0;
  }

  /** A state gives its lowest maxBits bits, the highest of them first. */
  lemma StateGivesLowBits(x0: nat, n: nat, maxBits: nat, j: nat)
    requires n > 0 && 0 < maxBits
    ensures StreamBits(x0, n, maxBits, j * maxBits, maxBits) == Low(StateAt(x0, n, j), maxBits)
  {
    hide StateAt;
    LowBitsSoFar(x0, n, maxBits, j, maxBits);
    ShrByZero(StateAt(x0, n, j));
  }

  lemma {:induction false} LowBitsSoFar(x0: nat, n: nat, maxBits: nat, j: nat, count: nat)
    requires n > 0 && 0 < maxBits && count <= maxBits
    ensures StreamBits(x0, n, maxBits, j * maxBits, count) == Low(Shr(StateAt(x0, n, j), maxBits - count), count)
  {
    hide StateAt, Low, Shr, GetBit;
    if count > 0 {
      LowBitsSoFar(x0, n, maxBits, j, count - 1);
      OneMoreLowBit(StateAt(x0, n, j), maxBits - count, count - 1);
      BlockBegins(j, maxBits);
      BlockPosition(maxBits, j * maxBits + count - 1, j, maxBits - count + 1);
    } else {
      NoLowBits(Shr(StateAt(x0, n, j), maxBits));
    }
  }

  lemma NoLowBits(n: nat)
    ensures Low(n, 0) == 0
  {
  }

  lemma BlockBegins(j: nat, maxBits: nat)
    ensures (j + 1) * maxBits == j * maxBits + maxBits && j * maxBits >= 0
  {
  }

  lemma OneMoreLowBit(state: nat, m: nat, c: nat)
    ensures Low(Shr(state, m), c + 1) == 2 * Low(Shr(state, m + 1), c) + GetBit(state, m)
  {
    ShrStep(state, m);
    hide Shr;
  }

  class PublicBlumBlumShub {
    const n: nat
    var current: nat
    const maxBits: nat
    var bitsLeft: nat
    ghost const x0: nat

    ghost predicate Valid()
      reads this
    {
      n >= 2 && maxBits == MaxBits(n) && bitsLeft <= maxBits
    }

    /** The generator's next output is bit t of the stream. An exhausted state (bitsLeft == 0) and
        the squared one with all its bits left are at the same position. */
    ghost predicate At(t: nat)
      reads this
    {
      && Valid()
      && exists j: nat :: EndsBlock(maxBits, t + bitsLeft, j) && current == StateAt(x0, n, j)
    }

    constructor (n: nat, seed: nat)
      requires n >= 2
      ensures At(0) && this.n == n && x0 == (seed * seed) % n && maxBits == MaxBits(n)
    {
      this.n := n;
      ghost var square := (seed * seed) % n;
      x0 := square;
      current := ((seed * seed) % n * ((seed * seed) % n)) % n;
      maxBits := MaxBits(n);
      bitsLeft := MaxBits(n);
      FirstState(square, n);
      assert EndsBlock(MaxBits(n), 0 + MaxBits(n), 0);
    }

    method GenerateBit(ghost t: nat) returns (bit: nat)
      requires At(t)
      modifies this
      ensures bit == StreamBit(x0, n, maxBits, t) && At(t + 1)
    {
      hide StateAt, GetBit, MaxBits;
      ghost var j: nat :| EndsBlock(maxBits, t + bitsLeft, j) && current == StateAt(x0, n, j);
      if bitsLeft == 0 {
        SquareAdvances(x0, n, j);
        current := (current * current) % n;
        bitsLeft := maxBits;
        j := j + 1;
        assert (j + 1) * maxBits == j * maxBits + maxBits;
        assert EndsBlock(maxBits, t + bitsLeft, j);
      }
      BlockPosition(maxBits, t, j, bitsLeft);
      bitsLeft := bitsLeft - 1;
      bit := GetBit(current, bitsLeft);
      assert EndsBlock(maxBits, t + 1 + bitsLeft, j);
    }

    method GenerateByte(ghost t: nat) returns (b: nat)
      requires At(t)
      modifies this
      ensures b == StreamBits(x0, n, maxBits, t, 8) && b < 256 && At(t + 8)
    {
      hide StreamBit, StateAt, MaxBits;
      b := 0;
      var i := 0;
      while i < 8
        invariant 0 <= i <= 8 && At(t + i) && b == StreamBits(x0, n, maxBits, t, i)
      {
        var bit := GenerateBit(t + i);
        b := 2 * b + bit;
        i := i + 1;
      }
      ByteBound(x0, n, maxBits, t);
    }

    method GenerateBlock(size: nat, ghost t: nat) returns (output: seq<nat>)
      requires At(t)
      modifies this
      ensures |output| == size && At(t + 8 * size)
      ensures forall k :: 0 <= k < size ==> output[k] == StreamBits(x0, n, maxBits, t + 8 * k, 8)
    {
      hide StreamBits, StateAt, MaxBits;
      output := [];
      while |output| < size
        invariant |output| <= size && At(t + 8 * |output|)
        invariant forall k :: 0 <= k < |output| ==> output[k] == StreamBits(x0, n, maxBits, t + 8 * k, 8)
      {
        var b := GenerateByte(t + 8 * |output|);
        output := output + [b];
      }
    }
  }

  lemma {:induction false} StreamBitsBound(x0: nat, n: nat, maxBits: nat, t: nat, count: nat)
    requires n > 0 && maxBits > 0
    ensures StreamBits(x0, n, maxBits, t, count) < Pow2(count)
  {
    hide StreamBit;
    if count > 0 {
      StreamBitsBound(x0, n, maxBits, t, count - 1);
      BitIsBinary(x0, n, maxBits, t + count - 1);
    }
  }

  lemma BitIsBinary(x0: nat, n: nat, maxBits: nat, t: nat)
    requires n > 0 && maxBits > 0
    ensures StreamBit(x0, n, maxBits, t) <= 1
  {
  }

  lemma ByteBound(x0: nat, n: nat, maxBits: nat, t: nat)
    requires n > 0 && maxBits > 0
    ensures StreamBits(x0, n, maxBits, t, 8) < 256
  {
    hide StreamBits;
    StreamBitsBound(x0, n, maxBits, t, 8);
    Pow2OfEight();
  }

  /** The state Seek computes for block j is the sequential one under exactly this condition. */
  lemma SeekExponent(p: nat, q: nat, x0: nat, j: nat)
    requires Prime(p) && Prime(q) && p != q
    ensures p * q > 0 && Totient(p, q) > 0
    ensures var e := Pow2(j + 1) % Totient(p, q);
            Pow(x0, e) % (p * q) == StateAt(x0, p * q, j) <==> e != 0 || (!Divides(p, x0) && !Divides(q, x0))
  {
    hide Pow, Pow2, Divides, Prime, Totient;
    var e := Pow2(j + 1);
    ReduceExactly(p, q, x0, e);
    CongIsEqualRemainder(Pow(x0, e % Totient(p, q)), Pow(x0, e), p * q);
  }

  /** The exponent Seek computes for block j is nonzero, or its base is a unit. */
  ghost predicate Usable(p: nat, q: nat, x0: nat, j: nat) {
    Totient(p, q) > 0 && (Pow2(j + 1) % Totient(p, q) != 0 || (!Divides(p, x0) && !Divides(q, x0)))
  }

  /** With the primes the class asks for, both congruent to 3 modulo 4, every position is seekable
      whatever the seed. */
  lemma BlumPrimesSeekEverywhere(p: nat, q: nat, x0: nat, j: nat)
    requires Prime(p) && Prime(q) && p != q && p % 4 == 3 && q % 4 == 3
    ensures Usable(p, q, x0, j)
  {
    hide Divides, Pow2;
    BlumTotient(p, q, j + 1);
  }

  /** With other primes a seed that shares a factor can break it: p = 3, q = 5 and seed 3, where the
      block of byte 1 has exponent zero. */
  lemma SharedFactorFails()
    ensures MaxBits(15) == 2 && (3 * 3) % 15 == 9
    ensures var j := 8 * 1 / MaxBits(15);
      !Usable(3, 5, 9, j) && Pow(9, Pow2(j + 1) % Totient(3, 5)) % 15 != StateAt(9, 15, j)
  {
    ThreeAndFivePrime();
    FifteenBits();
    assert Pow2(5) == 32;
    hide MaxBits, Pow2;
    MultipleDivides(3, 3);
    SeekExponent(3, 5, 9, 4);
  }

  lemma FifteenBits()
    ensures MaxBits(15) == 2
  {
    assert BitCount(15) == 4 && BitCount(4) == 3;
  }

  /** The same call made: the generator does not stand where eight bits would have left it. */
  method SeekGoesWrong() returns (generator: BlumBlumShub)
    ensures generator.p == 3 && generator.q == 5 && generator.x0 == (3 * 3) % 15
    ensures !generator.generator.At(8)
  {
    hide Usable, MaxBits, Totient, Pow, Pow2, StateAt, Prime;
    ThreeAndFivePrime();
    SharedFactorFails();
    generator := new BlumBlumShub(3, 5, 3);
    generator.Seek(1);
  }

  lemma ThreeAndFivePrime()
    ensures Prime(3) && Prime(5)
  {
    forall d | Divides(d, 3) ensures d == 1 || d == 3 { DivisorBound(d, 3); }
    forall d | Divides(d, 5) ensures d == 1 || d == 5 { DivisorBound(d, 5); }
  }

  lemma BlockUnique(maxBits: nat, i: nat, j: nat)
    requires maxBits > 0
    ensures var left := maxBits - i % maxBits;
            0 < left <= maxBits && EndsBlock(maxBits, i + left, i / maxBits)
            && (EndsBlock(maxBits, i + left, j) ==> j == i / maxBits)
  {
    DivModIdentity(i, maxBits);
    var k := i / maxBits;
    assert (k + 1) * maxBits == k * maxBits + maxBits;
    if j > k { MulMonotone(maxBits, k + 2, j + 1); } else if j < k { MulMonotone(maxBits, j + 2, k + 1); }
  }

  /** The private-key generator: the public one plus the factorization. */
  class BlumBlumShub {
    const p: nat
    const q: nat
    const generator: PublicBlumBlumShub
    const x0: nat

    ghost predicate Valid()
      reads this, generator
    {
      && Prime(p) && Prime(q) && p != q && p * q >= 2 && generator.n == p * q
      && x0 == generator.x0 && generator.Valid()
    }

    constructor (p: nat, q: nat, seed: nat)
      requires Prime(p) && Prime(q) && p != q
      ensures Valid() && generator.At(0) && fresh(generator) && this.p == p && this.q == q
      ensures p * q > 0 && x0 == (seed * seed) % (p * q)
    {
      PrimePositive(p);
      PrimePositive(q);
      TotientPositive(p, q);
      this.p := p;
      this.q := q;
      generator := new PublicBlumBlumShub(p * q, seed);
      x0 := (seed * seed) % (p * q);
    }

    /** When the exponent Seek computes for a position is usable: nonzero, or the base a unit. */
    ghost predicate Seekable(index: nat)
      reads this, generator
      requires Valid()
    {
      Usable(p, q, x0, 8 * index / generator.maxBits)
    }

    /** Seek: jumps to byte index. It lands where sequential generation would be for exactly the
        seekable positions; for Blum primes those are all of them. From the same state every later bit
        is the same; another state may still happen to give the same bits. */
    method Seek(index: nat)
      requires Valid()
      modifies generator
      ensures Valid() && generator.bitsLeft > 0
      ensures generator.At(8 * index) <==> Seekable(index)
    {
      hide StateAt, MaxBits, Pow, Pow2, Divides, Prime, Totient;
      var i := 8 * index;
      var phi := Totient(p, q);
      ghost var j := i / generator.maxBits;
      SeekExponent(p, q, x0, j);
      ghost var end := i + (generator.maxBits - i % generator.maxBits);
      forall k: nat
        ensures EndsBlock(generator.maxBits, end, k) ==> k == j
      {
        BlockUnique(generator.maxBits, i, k);
      }
      BlockUnique(generator.maxBits, i, j);
      var e := Pow2(i / generator.maxBits + 1) % phi;
      generator.current := Pow(x0, e) % (p * q);
      generator.bitsLeft := generator.maxBits - i % generator.maxBits;
    }
  }
}
