/** 32-bit words: sums and differences modulo 2^32, exclusive or, rotation and bytes. */
module Words32 {
  import opened Powers
  import opened Bytes
  import opened BitStrings

  const WORD32 := 0x1_0000_0000

  type word32 = x: nat | x < WORD32

  lemma Pow2OfThirtyTwo()
    ensures Pow2(32) == WORD32
  {
    Pow2OfEight();
    Pow2Add(8, 8);
    Pow2Add(16, 16);
  }

  function Add32(x: word32, y: word32): word32 {
    (x + y) % WORD32
  }

  function Sub32(x: word32, y: word32): word32 {
    (x - y) % WORD32
  }

  function Xor32(x: word32, y: word32): word32 {
    Pow2OfThirtyTwo();
    XorBound(x, y, 32);
    Xor(x, y)
  }

  lemma XorTwice(x: word32, f: word32)
    ensures Xor32(Xor32(x, f), f) == x
  {
    XorCancel(x, f);
  }

  lemma Xor32Assoc(x: word32, y: word32, z: word32)
    ensures Xor32(Xor32(x, y), z) == Xor32(x, Xor32(y, z))
  {
    XorAssoc(x, y, z);
  }

  lemma Xor32Zero(x: word32)
    ensures Xor32(x, 0) == x == Xor32(0, x)
  {
    XorZero(x);
  }

  lemma Xor32Comm(x: word32, y: word32)
    ensures Xor32(x, y) == Xor32(y, x)
  {
    XorComm(x, y);
  }

  /** At most one wrap. */
  lemma Wraps(x: word32, y: word32)
    ensures Add32(x, y) == if x + y < WORD32 then x + y else x + y - WORD32
    ensures Sub32(x, y) == if x >= y then x - y else x - y + WORD32
  {
  }

  lemma AddAssoc(x: word32, y: word32, z: word32)
    ensures Add32(Add32(x, y), z) == Add32(x, Add32(y, z))
  {
    hide Add32, Sub32;
    Wraps(x, y);
    Wraps(Add32(x, y), z);
    Wraps(y, z);
    Wraps(x, Add32(y, z));
  }

  lemma AddComm(x: word32, y: word32)
    ensures Add32(x, y) == Add32(y, x)
  {
  }

  lemma SubSum(x: word32, y: word32, z: word32)
    ensures Sub32(x, Add32(y, z)) == Sub32(Sub32(x, y), z)
  {
    hide Add32, Sub32;
    Wraps(y, z);
    Wraps(x, Add32(y, z));
    Wraps(x, y);
    Wraps(Sub32(x, y), z);
  }

  lemma SumOfDifference(x: word32, y: word32, z: word32)
    ensures Add32(Sub32(x, z), y) == Sub32(Add32(x, y), z)
  {
    hide Add32, Sub32;
    Wraps(x, z);
    Wraps(Sub32(x, z), y);
    Wraps(x, y);
    Wraps(Add32(x, y), z);
  }

  lemma DifferenceShifts(x: word32, y: word32, z: word32)
    ensures Sub32(Add32(x, z), Add32(y, z)) == Sub32(x, y)
  {
    hide Add32, Sub32;
    Wraps(x, z);
    Wraps(y, z);
    Wraps(Add32(x, z), Add32(y, z));
    Wraps(x, y);
  }

  lemma SumShifts(x: word32, y: word32, z: word32)
    ensures Add32(Add32(x, z), Sub32(y, z)) == Add32(x, y)
  {
    hide Add32, Sub32;
    Wraps(x, z);
    Wraps(y, z);
    Wraps(Add32(x, z), Sub32(y, z));
    Wraps(x, y);
  }

  lemma WithZero(x: word32)
    ensures Add32(x, 0) == x == Add32(0, x) && Sub32(x, 0) == x
  {
  }

  // ----- rotation

  /** rotlVariable: two shifts or-ed together. The count is below 32 where it is used. */
  function Rotate(x: word32, count: nat): word32 {
    var c := count % 32;
    var high, low := Low(Shl(x, c), 32), Shr(x, (32 - c) % 32);
    Pow2OfThirtyTwo();
    ShrAtMost(x, (32 - c) % 32);
    OrBound(high, low, 32);
    Or(high, low)
  }

  lemma {:induction false} ShrAtMost(x: nat, i: nat)
    ensures Shr(x, i) <= x
  {
    if i > 0 { ShrAtMost(x / 2, i - 1); }
  }

  /** The top bits come in at the bottom. */
  lemma RotatedBits(x: word32, c: nat)
    requires c < 32
    ensures BitsOf(Rotate(x, c), 32) == BitsOf(x, 32)[c..] + BitsOf(x, 32)[..c]
  {
    hide BitsOf, Shl, Shr, Low, Or, Pow2;
    Pow2OfThirtyTwo();
    HighPart(x, c);
    if c == 0 {
      ShrByZero(x);
      OrSame(Low(Shl(x, 0), 32), x, 32);
    } else {
      LowPart(x, c);
      OrIntoFree(Low(Shl(x, c), 32), Shr(x, 32 - c), 32, 32 - c, BitsOf(x, 32)[c..], BitsOf(x, 32)[..c]);
    }
  }

  lemma HighPart(x: word32, c: nat)
    requires c < 32
    ensures BitsOf(Low(Shl(x, c), 32), 32) == BitsOf(x, 32)[c..] + Falses(c)
  {
    hide BitsOf, Shl, Low;
    LowBits(Shl(x, c), 32);
    ShlBits(x, c, 32);
    NarrowBits(Shl(x, c), 32 + c, 32);
    assert (BitsOf(x, 32) + Falses(c))[c..] == BitsOf(x, 32)[c..] + Falses(c);
  }

  lemma LowPart(x: word32, c: nat)
    requires 0 < c < 32
    ensures BitsOf(Shr(x, 32 - c), 32) == Falses(32 - c) + BitsOf(x, 32)[..c]
  {
    hide BitsOf, Shr, Pow2;
    Pow2OfThirtyTwo();
    ShrSmall(x, 32 - c, 32);
    ShrBits(x, 32 - c, 32);
    SmallBits(Shr(x, 32 - c), 32, c);
  }

  lemma OrSame(a: nat, b: nat, n: nat)
    requires BitsOf(a, n) == BitsOf(b, n)
    ensures BitsOf(Or(a, b), n) == BitsOf(b, n)
  {
    hide BitsOf;
    forall i | 0 <= i < n
      ensures BitsOf(Or(a, b), n)[i] == BitsOf(b, n)[i]
    {
      OrBits(a, b, n, i);
    }
  }

  lemma SameBits(x: word32, y: word32)
    requires BitsOf(x, 32) == BitsOf(y, 32)
    ensures x == y
  {
    hide BitsOf, Pow2;
    Pow2OfThirtyTwo();
    ValueOfBits(x, 32);
    ValueOfBits(y, 32);
  }

  // ----- bytes

  /** GETBYTE: byte 0 is the least significant one. */
  function Byte(x: word32, i: nat): byte
    requires i < 4
  {
    Shr(x, 8 * i) % 256
  }

  /** Byte 3 is the most significant one. */
  lemma BytesOfWord(x: word32)
    ensures FromBigEndian([Byte(x, 3), Byte(x, 2), Byte(x, 1), Byte(x, 0)]) == x
  {
    hide BigEndian, FromBigEndian, Shr;
    assert Pow256(4) == WORD32 by { assert Pow256(2) == 0x10000; }
    BigEndianReads(x, 4);
    BigEndianAt(x, 4, 0);
    BigEndianAt(x, 4, 1);
    BigEndianAt(x, 4, 2);
    BigEndianAt(x, 4, 3);
    assert BigEndian(x, 4) == [Byte(x, 3), Byte(x, 2), Byte(x, 1), Byte(x, 0)];
  }
}
