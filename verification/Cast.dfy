/** CAST-128 and CAST-256 (cast.cpp) over any S-boxes and any key schedule. */
module Cast {
  import opened Bytes
  import opened Words32
  import opened Feistel

  /** S[0] to S[3]. */
  datatype Boxes = Boxes(s0: byte -> word32, s1: byte -> word32, s2: byte -> word32, s3: byte -> word32)

  function CombineOne(a: word32, b: word32, c: word32, d: word32): word32 {
    Add32(Sub32(Xor32(a, b), c), d)
  }

  function CombineTwo(a: word32, b: word32, c: word32, d: word32): word32 {
    Xor32(Add32(Sub32(a, b), c), d)
  }

  function CombineThree(a: word32, b: word32, c: word32, d: word32): word32 {
    Sub32(Xor32(Add32(a, b), c), d)
  }

  function TypeOne(S: Boxes, r: word32, km: word32, kr: word32): word32 {
    var t := Rotate(Add32(km, r), kr);
    CombineOne(S.s0(Byte(t, 3)), S.s1(Byte(t, 2)), S.s2(Byte(t, 1)), S.s3(Byte(t, 0)))
  }

  function TypeTwo(S: Boxes, r: word32, km: word32, kr: word32): word32 {
    var t := Rotate(Xor32(km, r), kr);
    CombineTwo(S.s0(Byte(t, 3)), S.s1(Byte(t, 2)), S.s2(Byte(t, 1)), S.s3(Byte(t, 0)))
  }

  function TypeThree(S: Boxes, r: word32, km: word32, kr: word32): word32 {
    var t := Rotate(Sub32(km, r), kr);
    CombineThree(S.s0(Byte(t, 3)), S.s1(Byte(t, 2)), S.s2(Byte(t, 1)), S.s3(Byte(t, 0)))
  }

  // ----- CAST-128

  /** Round i of CAST-128: the three round functions in turn, masking key K[i], rotation key K[i+16]. */
  function Mix(S: Boxes, K: seq<word32>, i: nat, x: word32): word32
    requires |K| == 32 && i < 16
  {
    if i % 3 == 0 then TypeOne(S, x, K[i], K[i + 16])
    else if i % 3 == 1 then TypeTwo(S, x, K[i], K[i + 16])
    else TypeThree(S, x, K[i], K[i + 16])
  }

  /** The sixteen rounds of CAST-128. */
  ghost function Rounds(S: Boxes, K: seq<word32>): (r: seq<Round>)
    requires |K| == 32
    ensures |r| == 16
  {
    seq(16, i requires 0 <= i < 16 => (x: word32) => Mix(S, K, i, x))
  }

  /** Twelve rounds for keys of at most 80 bits, otherwise sixteen. */
  function RoundCount(reduced: bool): nat {
    if reduced then 12 else 16
  }

  ghost function BackRounds(S: Boxes, K: seq<word32>, n: nat): (r: seq<Round>)
    requires |K| == 32 && n <= 16
    ensures |r| == n && Backwards(r, Rounds(S, K), n)
  {
    seq(n, i requires 0 <= i < n => Rounds(S, K)[n - 1 - i])
  }

  // ----- the round functions, by what changes in them

  /** A box that holds only zeros. */
  function Zero(b: byte): word32 {
    0
  }

  /** One operand and zeros. */
  lemma CombineAlone(a: word32)
    ensures CombineOne(a, 0, 0, 0) == a == CombineOne(0, a, 0, 0) && CombineOne(0, 0, a, 0) == Sub32(0, a) && CombineOne(0, 0, 0, a) == a
    ensures CombineTwo(a, 0, 0, 0) == a == CombineTwo(0, 0, a, 0) && CombineTwo(0, a, 0, 0) == Sub32(0, a) && CombineTwo(0, 0, 0, a) == a
    ensures CombineThree(a, 0, 0, 0) == a == CombineThree(0, a, 0, 0) && CombineThree(0, 0, a, 0) == a && CombineThree(0, 0, 0, a) == Sub32(0, a)
  {
    hide Add32, Sub32, Xor32;
    Xor32Zero(a);
    Xor32Zero(0);
    Xor32Zero(Sub32(0, a));
    WithZero(a);
    WithZero(0);
    WithZero(Sub32(0, a));
  }

  lemma CombineOneShifts(a: word32, b: word32, c: word32, d: word32, k: word32)
    ensures CombineOne(a, b, c, Add32(d, k)) == Add32(CombineOne(a, b, c, d), k)
    ensures CombineOne(a, b, Add32(c, k), d) == Sub32(CombineOne(a, b, c, d), k)
    ensures CombineOne(Xor32(a, k), Xor32(b, k), c, d) == CombineOne(a, b, c, d)
  {
    hide Add32, Sub32, Xor32;
    var x := Sub32(Xor32(a, b), c);
    AddAssoc(x, d, k);
    SubSum(Xor32(a, b), c, k);
    SumOfDifference(x, d, k);
    XorShifts(a, b, k);
  }

  lemma XorShifts(a: word32, b: word32, k: word32)
    ensures Xor32(Xor32(a, k), Xor32(b, k)) == Xor32(a, b)
  {
    hide Xor32;
    Xor32Comm(b, k);
    Xor32Assoc(a, k, Xor32(k, b));
    Xor32Assoc(k, k, b);
    XorTwice(0, k);
    Xor32Zero(k);
    Xor32Zero(b);
  }

  lemma CombineTwoShifts(a: word32, b: word32, c: word32, d: word32, k: word32)
    ensures CombineTwo(a, b, c, Xor32(d, k)) == Xor32(CombineTwo(a, b, c, d), k)
    ensures CombineTwo(a, b, Add32(c, k), 0) == Add32(CombineTwo(a, b, c, 0), k)
    ensures CombineTwo(Add32(a, k), Add32(b, k), c, d) == CombineTwo(a, b, c, d)
  {
    hide Add32, Sub32, Xor32;
    var x := Add32(Sub32(a, b), c);
    Xor32Assoc(x, d, k);
    AddAssoc(Sub32(a, b), c, k);
    Xor32Zero(x);
    Xor32Zero(Add32(x, k));
    DifferenceShifts(a, b, k);
  }

  lemma CombineThreeShifts(a: word32, b: word32, c: word32, d: word32, k: word32)
    ensures CombineThree(a, b, c, Add32(d, k)) == Sub32(CombineThree(a, b, c, d), k)
    ensures CombineThree(a, b, Xor32(c, k), 0) == Xor32(CombineThree(a, b, c, 0), k)
    ensures CombineThree(Add32(a, k), Sub32(b, k), c, d) == CombineThree(a, b, c, d)
  {
    hide Add32, Sub32, Xor32;
    var x := Xor32(Add32(a, b), c);
    SubSum(x, d, k);
    Xor32Assoc(Add32(a, b), c, k);
    WithZero(x);
    WithZero(Xor32(x, k));
    SumShifts(a, b, k);
  }

  lemma SameMasked(km: word32, r: word32, k: word32)
    ensures Add32(Sub32(km, k), Add32(r, k)) == Add32(km, r)
    ensures Xor32(Xor32(km, k), Xor32(r, k)) == Xor32(km, r)
    ensures Sub32(Add32(km, k), Add32(r, k)) == Sub32(km, r)
  {
    hide Add32, Sub32, Xor32;
    AddComm(Sub32(km, k), Add32(r, k));
    SumShifts(r, km, k);
    AddComm(km, r);
    XorShifts(km, r, k);
    DifferenceShifts(km, r, k);
  }

  /** Only the sum of the masking key and r counts, and each box reads its byte of that, rotated. */
  lemma TypeOneReads(S: Boxes, r: word32, km: word32, kr: word32, k: word32)
    ensures TypeOne(S, Add32(r, k), Sub32(km, k), kr) == TypeOne(S, r, km, kr)
    ensures var t := Rotate(Add32(km, r), kr);
      && TypeOne(Boxes(S.s0, Zero, Zero, Zero), r, km, kr) == S.s0(Byte(t, 3))
      && TypeOne(Boxes(Zero, S.s1, Zero, Zero), r, km, kr) == S.s1(Byte(t, 2))
      && TypeOne(Boxes(Zero, Zero, S.s2, Zero), r, km, kr) == Sub32(0, S.s2(Byte(t, 1)))
      && TypeOne(Boxes(Zero, Zero, Zero, S.s3), r, km, kr) == S.s3(Byte(t, 0))
  {
    hide Add32, Sub32, Xor32, Rotate, Byte, CombineOne;
    SameMasked(km, r, k);
    var t := Rotate(Add32(km, r), kr);
    CombineAlone(S.s0(Byte(t, 3)));
    CombineAlone(S.s1(Byte(t, 2)));
    CombineAlone(S.s2(Byte(t, 1)));
    CombineAlone(S.s3(Byte(t, 0)));
  }

  /** The fourth box is added, the third subtracted, and the first two are xored before that. */
  lemma TypeOneCombines(S: Boxes, r: word32, km: word32, kr: word32, k: word32)
    ensures TypeOne(S.(s3 := (b: byte) => Add32(S.s3(b), k)), r, km, kr) == Add32(TypeOne(S, r, km, kr), k)
    ensures TypeOne(S.(s2 := (b: byte) => Add32(S.s2(b), k)), r, km, kr) == Sub32(TypeOne(S, r, km, kr), k)
    ensures TypeOne(S.(s0 := (b: byte) => Xor32(S.s0(b), k), s1 := (b: byte) => Xor32(S.s1(b), k)), r, km, kr) == TypeOne(S, r, km, kr)
  {
    hide Add32, Sub32, Xor32, Rotate, Byte, CombineOne;
    var t := Rotate(Add32(km, r), kr);
    CombineOneShifts(S.s0(Byte(t, 3)), S.s1(Byte(t, 2)), S.s2(Byte(t, 1)), S.s3(Byte(t, 0)), k);
  }

  /** Only the masking key xored with r counts, and each box reads its byte of that, rotated. */
  lemma TypeTwoReads(S: Boxes, r: word32, km: word32, kr: word32, k: word32)
    ensures TypeTwo(S, Xor32(r, k), Xor32(km, k), kr) == TypeTwo(S, r, km, kr)
    ensures var t := Rotate(Xor32(km, r), kr);
      && TypeTwo(Boxes(S.s0, Zero, Zero, Zero), r, km, kr) == S.s0(Byte(t, 3))
      && TypeTwo(Boxes(Zero, S.s1, Zero, Zero), r, km, kr) == Sub32(0, S.s1(Byte(t, 2)))
      && TypeTwo(Boxes(Zero, Zero, S.s2, Zero), r, km, kr) == S.s2(Byte(t, 1))
      && TypeTwo(Boxes(Zero, Zero, Zero, S.s3), r, km, kr) == S.s3(Byte(t, 0))
  {
    hide Add32, Sub32, Xor32, Rotate, Byte, CombineTwo;
    SameMasked(km, r, k);
    var t := Rotate(Xor32(km, r), kr);
    CombineAlone(S.s0(Byte(t, 3)));
    CombineAlone(S.s1(Byte(t, 2)));
    CombineAlone(S.s2(Byte(t, 1)));
    CombineAlone(S.s3(Byte(t, 0)));
  }

  /** The fourth box is xored last, the third added before that, and the second subtracted from the
      first. */
  lemma TypeTwoCombines(S: Boxes, r: word32, km: word32, kr: word32, k: word32)
    ensures TypeTwo(S.(s3 := (b: byte) => Xor32(S.s3(b), k)), r, km, kr) == Xor32(TypeTwo(S, r, km, kr), k)
    ensures TypeTwo(S.(s2 := (b: byte) => Add32(S.s2(b), k), s3 := Zero), r, km, kr) == Add32(TypeTwo(S.(s3 := Zero), r, km, kr), k)
    ensures TypeTwo(S.(s0 := (b: byte) => Add32(S.s0(b), k), s1 := (b: byte) => Add32(S.s1(b), k)), r, km, kr) == TypeTwo(S, r, km, kr)
  {
    hide Add32, Sub32, Xor32, Rotate, Byte, CombineTwo;
    var t := Rotate(Xor32(km, r), kr);
    CombineTwoShifts(S.s0(Byte(t, 3)), S.s1(Byte(t, 2)), S.s2(Byte(t, 1)), S.s3(Byte(t, 0)), k);
  }

  /** Only the masking key less r counts, and each box reads its byte of that, rotated. */
  lemma TypeThreeReads(S: Boxes, r: word32, km: word32, kr: word32, k: word32)
    ensures TypeThree(S, Add32(r, k), Add32(km, k), kr) == TypeThree(S, r, km, kr)
    ensures var t := Rotate(Sub32(km, r), kr);
      && TypeThree(Boxes(S.s0, Zero, Zero, Zero), r, km, kr) == S.s0(Byte(t, 3))
      && TypeThree(Boxes(Zero, S.s1, Zero, Zero), r, km, kr) == S.s1(Byte(t, 2))
      && TypeThree(Boxes(Zero, Zero, S.s2, Zero), r, km, kr) == S.s2(Byte(t, 1))
      && TypeThree(Boxes(Zero, Zero, Zero, S.s3), r, km, kr) == Sub32(0, S.s3(Byte(t, 0)))
  {
    hide Add32, Sub32, Xor32, Rotate, Byte, CombineThree;
    SameMasked(km, r, k);
    var t := Rotate(Sub32(km, r), kr);
    CombineAlone(S.s0(Byte(t, 3)));
    CombineAlone(S.s1(Byte(t, 2)));
    CombineAlone(S.s2(Byte(t, 1)));
    CombineAlone(S.s3(Byte(t, 0)));
  }

  /** The fourth box is subtracted last, the third xored before that, and the first two are added. */
  lemma TypeThreeCombines(S: Boxes, r: word32, km: word32, kr: word32, k: word32)
    ensures TypeThree(S.(s3 := (b: byte) => Add32(S.s3(b), k)), r, km, kr) == Sub32(TypeThree(S, r, km, kr), k)
    ensures TypeThree(S.(s2 := (b: byte) => Xor32(S.s2(b), k), s3 := Zero), r, km, kr) == Xor32(TypeThree(S.(s3 := Zero), r, km, kr), k)
    ensures TypeThree(S.(s0 := (b: byte) => Add32(S.s0(b), k), s1 := (b: byte) => Sub32(S.s1(b), k)), r, km, kr) == TypeThree(S, r, km, kr)
  {
    hide Add32, Sub32, Xor32, Rotate, Byte, CombineThree;
    var t := Rotate(Sub32(km, r), kr);
    CombineThreeShifts(S.s0(Byte(t, 3)), S.s1(Byte(t, 2)), S.s2(Byte(t, 1)), S.s3(Byte(t, 0)), k);
  }

  /** One byte of the word put through: the first box the identity, no masking, no rotation. */
  lemma KnownRound()
    ensures var S := Boxes((b: byte) => b, Zero, Zero, Zero);
      TypeOne(S, 0x0100_0000, 0, 0) == 1 && TypeTwo(S, 0x0100_0000, 0, 0) == 1 && TypeThree(S, 0x0100_0000, 0, 0) == 0xff
  {
    var S := Boxes((b: byte) => b, Zero, Zero, Zero);
    TypeOneReads(S, 0x0100_0000, 0, 0, 0);
    TypeTwoReads(S, 0x0100_0000, 0, 0, 0);
    TypeThreeReads(S, 0x0100_0000, 0, 0, 0);
    Xor32Zero(0x0100_0000);
    Unrotated(0x0100_0000);
    Unrotated(0xff00_0000);
    TopByteOf(1, 0x0100_0000);
    TopByteOf(0xff, 0xff00_0000);
    hide TypeOne, TypeTwo, TypeThree, Rotate, Byte, Xor32;
  }

  lemma Unrotated(x: word32)
    ensures Rotate(x, 0) == x
  {
    hide Rotate;
    RotatedBits(x, 0);
    SameBits(Rotate(x, 0), x);
  }

  lemma TopByteOf(b: byte, x: word32)
    requires x == b * 0x100_0000
    ensures Byte(x, 3) == b
  {
    BytesOfWord(x);
    TopOfFour(Byte(x, 3), Byte(x, 2), Byte(x, 1), Byte(x, 0));
    hide Byte, FromBigEndian;
  }

  lemma TopOfFour(a: byte, b: byte, c: byte, d: byte)
    ensures FromBigEndian([a, b, c, d]) == 0x100_0000 * a + 0x1_0000 * b + 0x100 * c + d
  {
    ReadOneMore([], a);
    ReadOneMore([a], b);
    ReadOneMore([a, b], c);
    ReadOneMore([a, b, c], d);
    assert FromBigEndian([]) == 0;
    hide FromBigEndian;
    assert [] + [a] == [a] && [a] + [b] == [a, b] && [a, b] + [c] == [a, b, c] && [a, b, c] + [d] == [a, b, c, d];
  }

  /** Section 2.2 of RFC 2144: rounds 1, 4, 7, 10, 13 and 16 are of type 1, rounds 2, 5, 8, 11 and 14 of
      type 2, the others of type 3, each under its own pair of keys. */
  lemma RoundTypes(S: Boxes, K: seq<word32>, x: word32)
    requires |K| == 32
    ensures forall i :: i in [0, 3, 6, 9, 12, 15] ==> Mix(S, K, i, x) == TypeOne(S, x, K[i], K[i + 16])
    ensures forall i :: i in [1, 4, 7, 10, 13] ==> Mix(S, K, i, x) == TypeTwo(S, x, K[i], K[i + 16])
    ensures forall i :: i in [2, 5, 8, 11, 14] ==> Mix(S, K, i, x) == TypeThree(S, x, K[i], K[i + 16])
  {
    hide TypeOne, TypeTwo, TypeThree;
  }

  /** Section 2.5 of RFC 2144: twelve rounds for keys of up to 80 bits and sixteen for longer ones. */
  lemma RoundCounts(reduced: bool)
    ensures reduced <==> RoundCount(reduced) == 12
    ensures !reduced <==> RoundCount(reduced) == 16
  {
  }

  /** The halves of section 2.2: each L is the R before it, each R the L before it xored with the round
      function of the R before it. */
  ghost function Halves(S: Boxes, K: seq<word32>, n: nat, left: word32, right: word32): (word32, word32)
    requires |K| == 32 && n <= 16
  {
    if n == 0 then (left, right)
    else
      var (l, r) := Halves(S, K, n - 1, left, right);
      (r, Xor32(l, Mix(S, K, n - 1, r)))
  }

  lemma {:induction false} AfterIsHalves(S: Boxes, K: seq<word32>, n: nat, left: word32, right: word32)
    requires |K| == 32 && n <= 16
    ensures After(Rounds(S, K), n, right, left) == (Halves(S, K, n, left, right).1, Halves(S, K, n, left, right).0)
  {
    hide Mix;
    if n > 0 {
      AfterIsHalves(S, K, n - 1, left, right);
    }
  }

  class CAST128 {
    const S: Boxes
    const K: seq<word32>
    const reduced: bool

    constructor (S: Boxes, K: seq<word32>, reduced: bool)
      requires |K| == 32
      ensures this.S == S && this.K == K && this.reduced == reduced
    {
      this.S, this.K, this.reduced := S, K, reduced;
    }

    /** The macro F1(l, r, i, 16), as round m of a list of rounds begun from start. */
    method F1(l: word32, r: word32, i: nat, ghost rounds: seq<Round>, ghost m: nat, ghost start: (word32, word32)) returns (mixed: word32)
      requires |K| == 32 && i < 16 && i % 3 == 0 && IsMix(rounds, m, S, K, i) && After(rounds, m, start.0, start.1) == (r, l)
      ensures After(rounds, m + 1, start.0, start.1) == (mixed, r)
    {
      hide TypeOne, TypeTwo, TypeThree, After, Xor32;
      NextRound(rounds, m, start.0, start.1);
      mixed := Xor32(l, TypeOne(S, r, K[i], K[i + 16]));
    }

    /** The macro F2(l, r, i, 16). */
    method F2(l: word32, r: word32, i: nat, ghost rounds: seq<Round>, ghost m: nat, ghost start: (word32, word32)) returns (mixed: word32)
      requires |K| == 32 && i < 16 && i % 3 == 1 && IsMix(rounds, m, S, K, i) && After(rounds, m, start.0, start.1) == (r, l)
      ensures After(rounds, m + 1, start.0, start.1) == (mixed, r)
    {
      hide TypeOne, TypeTwo, TypeThree, After, Xor32;
      NextRound(rounds, m, start.0, start.1);
      mixed := Xor32(l, TypeTwo(S, r, K[i], K[i + 16]));
    }

    /** The macro F3(l, r, i, 16). */
    method F3(l: word32, r: word32, i: nat, ghost rounds: seq<Round>, ghost m: nat, ghost start: (word32, word32)) returns (mixed: word32)
      requires |K| == 32 && i < 16 && i % 3 == 2 && IsMix(rounds, m, S, K, i) && After(rounds, m, start.0, start.1) == (r, l)
      ensures After(rounds, m + 1, start.0, start.1) == (mixed, r)
    {
      hide TypeOne, TypeTwo, TypeThree, After, Xor32;
      NextRound(rounds, m, start.0, start.1);
      mixed := Xor32(l, TypeThree(S, r, K[i], K[i + 16]));
    }

    /** CAST128::Enc on the two words of a block. */
    method Encrypt(first: word32, second: word32) returns (out1: word32, out2: word32)
      requires |K| == 32
      ensures (out1, out2) == After(Rounds(S, K), RoundCount(reduced), second, first)
    {
      hide After;
      var l, r := first, second;
      ghost var rounds, start := Rounds(S, K), (r, l);
      NoRounds(rounds, r, l);
      l := F1(l, r, 0, rounds, 0, start);
      r := F2(r, l, 1, rounds, 1, start);
      l := F3(l, r, 2, rounds, 2, start);
      r := F1(r, l, 3, rounds, 3, start);
      l := F2(l, r, 4, rounds, 4, start);
      r := F3(r, l, 5, rounds, 5, start);
      l := F1(l, r, 6, rounds, 6, start);
      r := F2(r, l, 7, rounds, 7, start);
      l := F3(l, r, 8, rounds, 8, start);
      r := F1(r, l, 9, rounds, 9, start);
      l := F2(l, r, 10, rounds, 10, start);
      r := F3(r, l, 11, rounds, 11, start);
      if !reduced {
        l := F1(l, r, 12, rounds, 12, start);
        r := F2(r, l, 13, rounds, 13, start);
        l := F3(l, r, 14, rounds, 14, start);
        r := F1(r, l, 15, rounds, 15, start);
      }
      out1, out2 := r, l;
    }

    /** CAST128::Dec on the two words of a block. */
    method Decrypt(first: word32, second: word32) returns (out1: word32, out2: word32)
      requires |K| == 32
      ensures (out1, out2) == After(BackRounds(S, K, RoundCount(reduced)), RoundCount(reduced), second, first)
    {
      hide After, BackRounds;
      var r, l := first, second;
      ghost var rounds, start := BackRounds(S, K, RoundCount(reduced)), (l, r);
      NoRounds(rounds, l, r);
      if !reduced {
        r, l := LastFourBack(r, l, rounds, start);
      }
      r, l := FirstTwelveBack(r, l, rounds, RoundCount(reduced) - 12, start);
      out1, out2 := l, r;
    }

    /** The rounds that only keys of more than 80 bits have, in the opposite order. */
    method LastFourBack(r0: word32, l0: word32, ghost rounds: seq<Round>, ghost start: (word32, word32)) returns (r: word32, l: word32)
      requires |K| == 32 && Backwards(rounds, Rounds(S, K), 16) && After(rounds, 0, start.0, start.1) == (l0, r0)
      ensures After(rounds, 4, start.0, start.1) == (l, r)
    {
      hide After, Mix;
      r, l := r0, l0;
      r := F1(r, l, 15, rounds, 0, start);
      l := F3(l, r, 14, rounds, 1, start);
      r := F2(r, l, 13, rounds, 2, start);
      l := F1(l, r, 12, rounds, 3, start);
    }

    /** The rounds of every key, in the opposite order. */
    method FirstTwelveBack(r0: word32, l0: word32, ghost rounds: seq<Round>, ghost m: nat, ghost start: (word32, word32)) returns (r: word32, l: word32)
      requires |K| == 32 && m <= 4 && Backwards(rounds, Rounds(S, K), m + 12) && After(rounds, m, start.0, start.1) == (l0, r0)
      ensures After(rounds, m + 12, start.0, start.1) == (l, r)
    {
      hide After, Mix;
      r, l := r0, l0;
      r := F3(r, l, 11, rounds, m, start);
      l := F2(l, r, 10, rounds, m + 1, start);
      r := F1(r, l, 9, rounds, m + 2, start);
      l := F3(l, r, 8, rounds, m + 3, start);
      r := F2(r, l, 7, rounds, m + 4, start);
      l := F1(l, r, 6, rounds, m + 5, start);
      r := F3(r, l, 5, rounds, m + 6, start);
      l := F2(l, r, 4, rounds, m + 7, start);
      r := F1(r, l, 3, rounds, m + 8, start);
      l := F3(l, r, 2, rounds, m + 9, start);
      r := F2(r, l, 1, rounds, m + 10, start);
      l := F1(l, r, 0, rounds, m + 11, start);
    }
  }

  /** Round m of the list is the mix with index i. */
  ghost predicate IsMix(rounds: seq<Round>, m: nat, S: Boxes, K: seq<word32>, i: nat)
    requires |K| == 32 && i < 16
  {
    m < |rounds| && forall x :: rounds[m](x) == Mix(S, K, i, x)
  }

  /** Decryption inverts encryption, with twelve rounds and with sixteen. */
  method RoundTrip128(cipher: CAST128, first: word32, second: word32) returns (out1: word32, out2: word32)
    requires |cipher.K| == 32
    ensures out1 == first && out2 == second
  {
    hide After;
    var c1, c2 := cipher.Encrypt(first, second);
    out1, out2 := cipher.Decrypt(c1, c2);
    Undoes(BackRounds(cipher.S, cipher.K, RoundCount(cipher.reduced)), Rounds(cipher.S, cipher.K), RoundCount(cipher.reduced), second, first);
  }
}
