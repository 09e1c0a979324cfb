/** CMAC of cmac.cpp: subkeys by doubling, and streaming with the last block held back. */
module Cmac {
  import opened Powers
  import opened Bytes
  import opened BlockChaining

  // ----- doubling

  /** The low-order terms of the reduction polynomial for blocks of n bytes, as MulU has them. */
  function Reduction(n: nat): nat {
    if n == 8 then 0x1b else if n == 16 then 0x87 else 0x423
  }

  predicate Supported(n: nat) {
    n == 8 || n == 16 || n == 32
  }

  /** Multiplication by x modulo x^(8n) plus the given terms, polynomials over GF(2) being written as
      numbers and added by Xor. */
  function TimesX(v: nat, n: nat, terms: nat): nat {
    if 2 * v < Pow256(n) then 2 * v else Xor(2 * v, Pow256(n) + terms)
  }

  lemma SplitFront(s: seq<byte>, i: nat)
    requires i < |s|
    ensures FromBigEndian(s[i..]) == s[i] * Pow256(|s| - i - 1) + FromBigEndian(s[i + 1..])
  {
    assert s[i..] == [s[i]] + s[i + 1..];
    FromBigEndianAppend([s[i]], s[i + 1..]);
    assert FromBigEndian([s[i]]) == s[i] by { assert [s[i]][..0] == []; }
  }

  /** One byte doubled with a carry in; the carry out is its top bit. */
  lemma DoubleByte(k: byte, carry: nat)
    requires carry <= 1
    ensures 2 * k + carry == k / 128 * 256 + (k + k + carry) % 256 && k / 128 <= 1
  {
  }

  /** The bytes from i on hold twice what they held, less the carry out. */
  ghost predicate Doubled(s: seq<byte>, t: seq<byte>, i: nat, carry: nat) {
    && |s| == |t| && i <= |s| && carry <= 1
    && FromBigEndian(t[i..]) + carry * Pow256(|s| - i) == 2 * FromBigEndian(s[i..])
    && t[..i] == s[..i]
  }

  /** k + k + carry in a byte. */
  function Twice(k: nat, carry: nat): byte {
    (k + k + carry) % 256
  }

  lemma DoubledStep(s: seq<byte>, t: seq<byte>, i: nat, carry: nat)
    requires i > 0 && Doubled(s, t, i, carry)
    ensures t[i - 1] == s[i - 1]
    ensures Doubled(s, t[i - 1 := Twice(t[i - 1], carry)], i - 1, t[i - 1] / 128)
  {
    assert t[i - 1] == t[..i][i - 1] == s[..i][i - 1];
    var b := Twice(s[i - 1], carry);
    var t' := t[i - 1 := b];
    var p := Pow256(|s| - i);
    SplitFront(s, i - 1);
    SplitFront(t', i - 1);
    assert t'[i..] == t[i..] && t'[..i - 1] == s[..i - 1];
    DoubleByte(s[i - 1], carry);
    DoubledSum(s[i - 1], b, s[i - 1] / 128, carry, p, FromBigEndian(t[i..]), FromBigEndian(s[i..]));
  }

  lemma DoubledSum(k: int, b: int, out: int, carry: int, p: int, low': int, low: int)
    requires 2 * k + carry == out * 256 + b && low' + carry * p == 2 * low
    ensures b * p + low' + out * (256 * p) == 2 * (k * p + low)
  {
    assert (2 * k + carry) * p == 2 * (k * p) + carry * p;
    assert (out * 256 + b) * p == out * (256 * p) + b * p;
  }

  /** Exclusive or of a constant into the lowest byte, or the lowest two. */
  lemma XorLowByte(s: seq<byte>, c: byte)
    requires |s| > 0
    ensures FromBigEndian(s[|s| - 1 := XorByte(s[|s| - 1], c)]) == Xor(FromBigEndian(s), c)
  {
    var last := |s| - 1;
    assert s[last := XorByte(s[last], c)][..last] == s[..last];
    XorAligned(FromBigEndian(s[..last]), 0, s[last], c);
    XorZero(FromBigEndian(s[..last]));
  }

  /** The top bit of the block shifted out and replaced by the reduction terms. */
  lemma TopBitReduces(v: nat, w: nat, n: nat, terms: nat)
    requires 2 * v == Pow256(n) + w && w < Pow256(n) && terms < Pow256(n)
    ensures TimesX(v, n, terms) == Xor(w, terms)
  {
    hide Xor, Pow256;
    Pow256IsShift(n);
    XorShifted(1, 1, w, terms, 8 * n);
    XorSelf(1);
    ShlOfZero(8 * n);
  }

  lemma ReductionFits(n: nat)
    requires Supported(n)
    ensures Reduction(n) < Pow256(n)
  {
    assert Pow256(2) == 256 * Pow256(1) && Pow256(1) == 256 * Pow256(0);
    Pow256Monotone(2, n);
  }

  /** The switch of MulU applied to the shifted block. */
  function Reduced(t: seq<byte>): seq<byte>
    requires Supported(|t|)
  {
    if |t| == 8 then t[7 := XorByte(t[7], 0x1b)]
    else if |t| == 16 then t[15 := XorByte(t[15], 0x87)]
    else t[30 := XorByte(t[30], 4)][31 := XorByte(t[31], 0x23)]
  }

  lemma ReducedValue(t: seq<byte>)
    requires Supported(|t|)
    ensures FromBigEndian(Reduced(t)) == Xor(FromBigEndian(t), Reduction(|t|))
  {
    hide Xor, XorByte, FromBigEndian;
    if |t| == 32 {
      XorLowTwoBytes(t, 4, 0x23);
    } else {
      XorLowByte(t, if |t| == 8 then 0x1b else 0x87);
    }
  }

  lemma XorLowTwoBytes(t: seq<byte>, c: byte, d: byte)
    requires |t| >= 2
    ensures FromBigEndian(t[|t| - 2 := XorByte(t[|t| - 2], c)][|t| - 1 := XorByte(t[|t| - 1], d)])
         == Xor(FromBigEndian(t), 256 * c + d)
  {
    hide Xor, XorByte;
    var n := |t| - 1;
    var u := t[n - 1 := XorByte(t[n - 1], c)][n := XorByte(t[n], d)];
    assert u[..n] == t[..n][n - 1 := XorByte(t[n - 1], c)];
    XorLowByte(t[..n], c);
    XorAligned(FromBigEndian(t[..n]), c, t[n], d);
  }

  /** A block of the array at offset. */
  ghost function Region(a: array<byte>, offset: nat, n: nat): seq<byte>
    requires offset + n <= a.Length
    reads a
  {
    a[offset..offset + n]
  }

  /** MulU: doubles the block in place, two bytes a turn with alternating carries. */
  method MulU(a: array<byte>, offset: nat, length: nat)
    requires Supported(length) && offset + length <= a.Length
    modifies a
    ensures FromBigEndian(Region(a, offset, length)) == TimesX(FromBigEndian(old(Region(a, offset, length))), length, Reduction(length))
    ensures a[..offset] == old(a[..offset]) && a[offset + length..] == old(a[offset + length..])
  {
    hide FromBigEndian, Pow256, TimesX, Doubled, Xor;
    ghost var s := Region(a, offset, length);
    ghost var before, after := a[..offset], a[offset + length..];
    var carry: nat := 0;
    var i: int := length - 1;
    DoubledStart(s);
    while i >= 1
      invariant -1 <= i < length && i % 2 == 1
      invariant Doubled(s, Region(a, offset, length), i + 1, carry)
      invariant a[..offset] == before && a[offset + length..] == after
    {
      carry := DoubleTwoBytes(a, offset, length, i, carry, s);
      i := i - 2;
    }
    DoubledEnd(s, Region(a, offset, length), carry);
    if carry != 0 { Reduce(a, offset, length); }
  }

  /** The body of the loop. */
  method DoubleTwoBytes(a: array<byte>, offset: nat, length: nat, i: nat, carry: nat, ghost s: seq<byte>) returns (carryOut: nat)
    requires 1 <= i < length && offset + length <= a.Length && Doubled(s, Region(a, offset, length), i + 1, carry)
    modifies a
    ensures Doubled(s, Region(a, offset, length), i - 1, carryOut)
    ensures a[..offset] == old(a[..offset]) && a[offset + length..] == old(a[offset + length..])
  {
    hide FromBigEndian, Pow256, Doubled, Twice;
    ghost var t := Region(a, offset, length);
    DoubledStep(s, t, i + 1, carry);
    var carry2 := a[offset + i] / 128;
    a[offset + i] := Twice(a[offset + i], carry);
    ghost var u := t[i := Twice(t[i], carry)];
    assert Region(a, offset, length) == u;
    DoubledStep(s, u, i, carry2);
    carryOut := a[offset + i - 1] / 128;
    a[offset + i - 1] := Twice(a[offset + i - 1], carry2);
    assert Region(a, offset, length) == u[i - 1 := Twice(u[i - 1], carry2)];
  }

  /** The switch of MulU. */
  method Reduce(a: array<byte>, offset: nat, length: nat)
    requires Supported(length) && offset + length <= a.Length
    modifies a
    ensures FromBigEndian(Region(a, offset, length)) == Xor(FromBigEndian(old(Region(a, offset, length))), Reduction(length))
    ensures a[..offset] == old(a[..offset]) && a[offset + length..] == old(a[offset + length..])
  {
    hide FromBigEndian, Xor, XorByte;
    ghost var t := Region(a, offset, length);
    ReducedValue(t);
    if length == 8 {
      a[offset + 7] := XorByte(a[offset + 7], 0x1b);
    } else if length == 16 {
      a[offset + 15] := XorByte(a[offset + 15], 0x87);
    } else {
      a[offset + 30] := XorByte(a[offset + 30], 4);
      a[offset + 31] := XorByte(a[offset + 31], 0x23);
    }
    assert Region(a, offset, length) == Reduced(t);
  }

  lemma DoubledStart(s: seq<byte>)
    ensures Doubled(s, s, |s|, 0)
  {
    assert s[|s|..] == [];
  }

  /** With every byte doubled, the block is twice the old one, or that less its top bit. */
  lemma DoubledEnd(s: seq<byte>, t: seq<byte>, carry: nat)
    requires Doubled(s, t, 0, carry) && Supported(|s|)
    ensures carry == 0 ==> FromBigEndian(t) == TimesX(FromBigEndian(s), |s|, Reduction(|s|))
    ensures carry != 0 ==> Xor(FromBigEndian(t), Reduction(|s|)) == TimesX(FromBigEndian(s), |s|, Reduction(|s|))
  {
    assert s[0..] == s && t[0..] == t;
    FromBigEndianBound(t);
    ReductionFits(|s|);
    if carry != 0 { TopBitReduces(FromBigEndian(s), FromBigEndian(t), |s|, Reduction(|s|)); }
  }

  // ----- the specification: section 6.2 of NIST SP 800-38B

  /** The blocks before the last one, chained. */
  function ChainAllButLast(E: Cipher, n: nat, x: seq<byte>, message: seq<byte>): (r: seq<byte>)
    requires IsCipher(E, n) && |x| == n
    ensures |r| == n
    decreases |message|
  {
    if |message| <= n then x else ChainAllButLast(E, n, E(XorBytes(x, message[..n])), message[n..])
  }

  function Subkey1(E: Cipher, n: nat, terms: nat): (k: seq<byte>)
    requires IsCipher(E, n)
    ensures |k| == n
  {
    BigEndian(TimesX(FromBigEndian(E(Zeros(n))), n, terms), n)
  }

  function Subkey2(E: Cipher, n: nat, terms: nat): (k: seq<byte>)
    requires IsCipher(E, n)
    ensures |k| == n
  {
    BigEndian(TimesX(FromBigEndian(Subkey1(E, n, terms)), n, terms), n)
  }

  /** The last block made whole: masked with K1 when complete, padded 10..0 and masked with K2 when not. */
  function FinalBlock(E: Cipher, n: nat, terms: nat, last: seq<byte>): (r: seq<byte>)
    requires IsCipher(E, n) && |last| <= n
    ensures |r| == n
  {
    if |last| == n then XorBytes(last, Subkey1(E, n, terms))
    else XorBytes(last + [0x80] + Zeros(n - |last| - 1), Subkey2(E, n, terms))
  }

  function Mac(E: Cipher, n: nat, terms: nat, message: seq<byte>): seq<byte>
    requires IsCipher(E, n)
  {
    E(XorBytes(ChainAllButLast(E, n, Zeros(n), message), FinalBlock(E, n, terms, LastBlock(n, message))))
  }

  lemma TimesXFits(v: nat, n: nat, terms: nat)
    requires v < Pow256(n) && terms < Pow256(n)
    ensures TimesX(v, n, terms) < Pow256(n)
  {
    if 2 * v >= Pow256(n) {
      hide Xor, Pow256;
      var w := 2 * v - Pow256(n);
      TopBitReduces(v, w, n, terms);
      Pow256IsShift(n);
      XorBound(w, terms, 8 * n);
    }
  }

  // ----- the tag as cipher block chaining

  /** The blocks before the last one are chained from the front. */
  lemma {:induction false} FrontChained(E: Cipher, n: nat, x: seq<byte>, message: seq<byte>)
    requires IsCipher(E, n) && |x| == n
    ensures var front := message[..|message| - |LastBlock(n, message)|];
      |front| % n == 0 && ChainAllButLast(E, n, x, message) == Absorb(E, n, x, front)
    decreases |message|
  {
    hide Absorb, IsCipher, XorBytes;
    CipherLength(E, n, x);
    if |message| > n {
      CipherLength(E, n, XorBytes(x, message[..n]));
      FrontChained(E, n, E(XorBytes(x, message[..n])), message[n..]);
      hide ChainAllButLast, LastBlock;
      FrontOn(n, message);
      var front := message[n..][..|message[n..]| - |LastBlock(n, message[n..])|];
      AbsorbFirst(E, n, x, message[..n], front);
      OneLess(n + |front|, n);
      FrontStep(E, n, x, message);
    } else {
      NothingFirst(E, n, x, message);
    }
  }

  lemma FrontOn(n: nat, message: seq<byte>)
    requires 0 < n < |message|
    ensures LastBlock(n, message) == LastBlock(n, message[n..])
    ensures message[..|message| - |LastBlock(n, message)|] == message[..n] + message[n..][..|message[n..]| - |LastBlock(n, message[n..])|]
  {
    LastOn(n, message);
    hide LastBlock;
    SplitFrontAt(message, n, |message| - |LastBlock(n, message)|);
  }

  lemma SplitFrontAt(s: seq<byte>, n: nat, cut: nat)
    requires n <= cut <= |s|
    ensures s[..cut] == s[..n] + s[n..][..cut - n]
  {
  }

  lemma LastOn(n: nat, message: seq<byte>)
    requires 0 < n < |message|
    ensures LastBlock(n, message) == LastBlock(n, message[n..])
  {
  }

  lemma FrontStep(E: Cipher, n: nat, x: seq<byte>, message: seq<byte>)
    requires IsCipher(E, n) && |x| == n && |message| > n
    ensures |E(XorBytes(x, message[..n]))| == n
    ensures ChainAllButLast(E, n, x, message) == ChainAllButLast(E, n, E(XorBytes(x, message[..n])), message[n..])
  {
  }

  lemma NothingFirst(E: Cipher, n: nat, x: seq<byte>, message: seq<byte>)
    requires IsCipher(E, n) && |x| == n && |message| <= n
    ensures var front := message[..|message| - |LastBlock(n, message)|];
      |front| % n == 0 && ChainAllButLast(E, n, x, message) == Absorb(E, n, x, front)
  {
    DivModUnique(0, n, 0, 0);
  }

  /** Section 6.2 of SP 800-38B: the tag is the value of cipher block chaining from zero over the message
      with its last block made whole and masked. */
  lemma MacIsCbc(E: Cipher, n: nat, terms: nat, message: seq<byte>)
    requires IsCipher(E, n)
    ensures var last := LastBlock(n, message);
      Mac(E, n, terms, message) == Absorb(E, n, Zeros(n), message[..|message| - |last|] + FinalBlock(E, n, terms, last))
  {
    hide Absorb, ChainAllButLast, LastBlock, FinalBlock, XorBytes, IsCipher;
    CipherLength(E, n, Zeros(n));
    var last := LastBlock(n, message);
    FrontChained(E, n, Zeros(n), message);
    AbsorbLast(E, n, Zeros(n), message[..|message| - |last|], FinalBlock(E, n, terms, last));
  }

  /** Taking the subkey off the last block again leaves it as it was, or followed by a one bit and zeros. */
  lemma FinalBlockUnmasked(E: Cipher, n: nat, terms: nat, last: seq<byte>)
    requires IsCipher(E, n) && |last| <= n
    ensures |last| == n ==> XorBytes(FinalBlock(E, n, terms, last), Subkey1(E, n, terms)) == last
    ensures |last| < n ==> var padded := XorBytes(FinalBlock(E, n, terms, last), Subkey2(E, n, terms));
      padded[..|last|] == last && padded[|last|] == 0x80 && forall i :: |last| < i < n ==> padded[i] == 0
  {
    hide Subkey1, Subkey2, XorBytes;
    if |last| == n {
      XorBytesCancel(last, Subkey1(E, n, terms));
    } else {
      XorBytesCancel(last + [0x80] + Zeros(n - |last| - 1), Subkey2(E, n, terms));
    }
  }

  /** The subkeys are the enciphered zero block doubled once and twice. */
  lemma SubkeyValues(E: Cipher, n: nat, terms: nat)
    requires IsCipher(E, n) && terms < Pow256(n)
    ensures var l := FromBigEndian(E(Zeros(n)));
      && FromBigEndian(Subkey1(E, n, terms)) == TimesX(l, n, terms)
      && FromBigEndian(Subkey2(E, n, terms)) == TimesX(TimesX(l, n, terms), n, terms)
  {
    hide FromBigEndian, BigEndian, TimesX, Pow256;
    CipherLength(E, n, Zeros(n));
    var l := FromBigEndian(E(Zeros(n)));
    FromBigEndianBound(E(Zeros(n)));
    TimesXFits(l, n, terms);
    TimesXFits(TimesX(l, n, terms), n, terms);
    BigEndianReads(TimesX(l, n, terms), n);
    BigEndianReads(TimesX(TimesX(l, n, terms), n, terms), n);
  }

  // ----- holding back is chaining all but one byte

  lemma {:induction false} HoldBack(E: Cipher, n: nat, x: seq<byte>, data: seq<byte>)
    requires IsCipher(E, n) && |x| == n && data != []
    ensures ChainAllButLast(E, n, x, data) == Absorb(E, n, x, data[..|data| - 1])
    ensures LastBlock(n, data) == data[|data| - 1 - |Rest(n, data[..|data| - 1])|..]
    decreases |data|
  {
    var most := data[..|data| - 1];
    if |data| > n {
      assert most[..n] == data[..n] && most[n..] == data[n..][..|data[n..]| - 1];
      HoldBack(E, n, E(XorBytes(x, data[..n])), data[n..]);
      var r := |Rest(n, most)|;
      assert data[n..][|data[n..]| - 1 - r..] == data[|data| - 1 - r..];
    }
  }

  /** The register: chaining value x with a partial block h xored in. */
  ghost function Masked(x: seq<byte>, h: seq<byte>): seq<byte>
    requires |h| <= |x|
  {
    XorBytes(x, h + Zeros(|x| - |h|))
  }

  /** The register and carried block after part of a message, with r still to come. */
  ghost predicate Pending(E: Cipher, n: nat, message: seq<byte>, x: seq<byte>, h: seq<byte>, r: seq<byte>) {
    && IsCipher(E, n) && |x| == n && |h| <= n
    && ChainAllButLast(E, n, Zeros(n), message) == ChainAllButLast(E, n, x, h + r)
    && LastBlock(n, message) == LastBlock(n, h + r)
  }

  lemma {:induction false} PendingAppends(E: Cipher, n: nat, x0: seq<byte>, message: seq<byte>, input: seq<byte>)
    requires IsCipher(E, n) && |x0| == n
    ensures var x := ChainAllButLast(E, n, x0, message);
            && ChainAllButLast(E, n, x0, message + input) == ChainAllButLast(E, n, x, LastBlock(n, message) + input)
            && LastBlock(n, message + input) == LastBlock(n, LastBlock(n, message) + input)
    decreases |message|
  {
    if |message| > n {
      assert (message + input)[..n] == message[..n] && (message + input)[n..] == message[n..] + input;
      PendingAppends(E, n, E(XorBytes(x0, message[..n])), message[n..], input);
    }
  }

  /** A full carried block followed by anything is chained. */
  lemma PendingProcess(E: Cipher, n: nat, message: seq<byte>, x: seq<byte>, h: seq<byte>, r: seq<byte>)
    requires Pending(E, n, message, x, h, r) && |h| == n && r != []
    ensures Pending(E, n, message, E(XorBytes(x, h)), [], r)
  {
    assert (h + r)[..n] == h && (h + r)[n..] == r && [] + r == r;
  }

  lemma PendingAdvance(E: Cipher, n: nat, message: seq<byte>, x: seq<byte>, r: seq<byte>)
    requires Pending(E, n, message, x, [], r) && r != []
    ensures var most := r[..|r| - 1];
            var left := 1 + |Rest(n, most)|;
            && left <= n && left <= |r| && Pending(E, n, message, Absorb(E, n, x, most), [], r[|r| - left..])
  {
    assert [] + r == r;
    HoldBack(E, n, x, r);
    var most := r[..|r| - 1];
    var tail := r[|r| - 1 - |Rest(n, most)|..];
    assert [] + tail == tail;
  }

  lemma PendingMove(E: Cipher, n: nat, message: seq<byte>, x: seq<byte>, h: seq<byte>, r: seq<byte>, len: nat)
    requires Pending(E, n, message, x, h, r) && len <= |r| && |h| + len <= n
    ensures Pending(E, n, message, x, h + r[..len], r[len..])
  {
    assert h + r[..len] + r[len..] == h + r;
  }

  lemma PendingDone(E: Cipher, n: nat, message: seq<byte>, x: seq<byte>, h: seq<byte>)
    requires Pending(E, n, message, x, h, [])
    ensures ChainAllButLast(E, n, Zeros(n), message) == x && LastBlock(n, message) == h
  {
    assert h + [] == h;
  }

  lemma MaskedNothing(x: seq<byte>)
    ensures Masked(x, []) == x
  {
    assert [] + Zeros(|x|) == Zeros(|x|);
    XorBytesZeros(x);
  }

  lemma MaskedFull(x: seq<byte>, h: seq<byte>)
    requires |h| == |x|
    ensures Masked(x, h) == XorBytes(x, h)
  {
    assert h + Zeros(0) == h;
  }

  /** Xoring data in behind h extends the carried block. */
  lemma MaskedExtends(x: seq<byte>, h: seq<byte>, d: seq<byte>, r: seq<byte>)
    requires |h| + |d| <= |x| && |r| == |x|
    requires forall i :: 0 <= i < |x| ==>
      r[i] == if |h| <= i < |h| + |d| then XorByte(Masked(x, h)[i], d[i - |h|]) else Masked(x, h)[i]
    ensures r == Masked(x, h + d)
  {
    hide XorByte;
    forall i | 0 <= i < |x|
      ensures r[i] == Masked(x, h + d)[i]
    {
      XorByteZero(x[i]);
    }
  }

  lemma XorByteZero(a: byte)
    ensures XorByte(a, 0) == a
  {
    XorZero(a);
  }

  /** Masking the padded register is chaining in the padded, masked block. */
  lemma FinalMask(E: Cipher, n: nat, terms: nat, x: seq<byte>, h: seq<byte>)
    requires IsCipher(E, n) && |x| == n && |h| <= n
    ensures |h| == n ==> XorBytes(Masked(x, h), Subkey1(E, n, terms)) == XorBytes(x, FinalBlock(E, n, terms, h))
    ensures |h| < n ==> XorBytes(Masked(x, h + [0x80]), Subkey2(E, n, terms)) == XorBytes(x, FinalBlock(E, n, terms, h))
  {
    hide Subkey1, Subkey2;
    if |h| == n {
      MaskedFull(x, h);
      XorBytesAssoc(x, h, Subkey1(E, n, terms));
    } else {
      XorBytesAssoc(x, h + [0x80] + Zeros(n - |h| - 1), Subkey2(E, n, terms));
    }
  }

  // ----- the object

  class CMAC {
    const E: Cipher
    const blockSize: nat
    const m_reg: array<byte>
    var m_counter: nat
    ghost var message: seq<byte>

    ghost predicate Keyed()
      reads this, m_reg
    {
      && IsCipher(E, blockSize) && Supported(blockSize) && m_reg.Length == 3 * blockSize
      && m_reg[blockSize..2 * blockSize] == Subkey1(E, blockSize, Reduction(blockSize))
      && m_reg[2 * blockSize..] == Subkey2(E, blockSize, Reduction(blockSize))
    }

    /** The register carries chaining value x with block h xored in. */
    ghost predicate Holds(x: seq<byte>, h: seq<byte>)
      reads this, m_reg
    {
      && m_reg.Length == 3 * blockSize && |x| == blockSize && |h| <= blockSize
      && m_counter == |h| && m_reg[..blockSize] == Masked(x, h)
    }

    /** The last 1 to blockSize bytes of the message are held back in the register. */
    ghost predicate Valid()
      reads this, m_reg
    {
      && Keyed()
      && Holds(ChainAllButLast(E, blockSize, Zeros(blockSize), message), LastBlock(blockSize, message))
    }

    constructor (E: Cipher, n: nat)
      requires IsCipher(E, n) && Supported(n)
      ensures Valid() && message == [] && fresh(m_reg) && this.E == E && blockSize == n
    {
      this.E := E;
      blockSize := n;
      m_reg := new byte[3 * n](_ => 0);
      m_counter := 0;
      message := [];
      new;
      DeriveSubkeys();
      MaskedNothing(Zeros(n));
      assert m_reg[..n] == Zeros(n);
    }

    /** The second half of UncheckedSetKey: the subkeys 2L and 4L. */
    method DeriveSubkeys()
      requires IsCipher(E, blockSize) && Supported(blockSize) && m_reg.Length == 3 * blockSize
      requires m_reg[..blockSize] == Zeros(blockSize)
      modifies m_reg
      ensures Keyed() && m_reg[..blockSize] == Zeros(blockSize)
    {
      hide TimesX, FromBigEndian, Subkey1, Subkey2, IsCipher, Supported;
      var n := blockSize;
      CipherLength(E, n, Zeros(n));
      CopyBlock(n, E(Zeros(n)));
      MulU(m_reg, n, n);
      Subkey1Bytes(E, n, Reduction(n), Region(m_reg, n, n));
      ghost var front := m_reg[..2 * n];
      FrontParts(m_reg[..], n);
      CopyBlock(2 * n, m_reg[n..2 * n]);
      MulU(m_reg, 2 * n, n);
      FrontParts(m_reg[..], n);
      assert m_reg[..][..2 * n] == m_reg[..2 * n] == front;
      Subkey2Bytes(E, n, Reduction(n), Region(m_reg, 2 * n, n));
      assert m_reg[2 * n..] == Region(m_reg, 2 * n, n);
    }

    /** memcpy of a block to a place in the register. */
    method CopyBlock(at: nat, block: seq<byte>)
      requires at + |block| <= m_reg.Length
      modifies m_reg
      ensures m_reg[..at] == old(m_reg[..at]) && Region(m_reg, at, |block|) == block
    {
      forall i | 0 <= i < |block| { m_reg[at + i] := block[i]; }
    }

    /** xorbuf(m_reg + m_counter, data, |data|) and the counter moved on. */
    method XorIn(data: seq<byte>, ghost x: seq<byte>, ghost h: seq<byte>)
      requires Keyed() && Holds(x, h) && |h| + |data| <= blockSize
      modifies this`m_counter, m_reg
      ensures Keyed() && Holds(x, h + data)
    {
      hide Subkey1, Subkey2, IsCipher, Masked, XorByte;
      ghost var before := m_reg[..];
      forall i | 0 <= i < |data| { m_reg[m_counter + i] := XorByte(m_reg[m_counter + i], data[i]); }
      assert m_reg[blockSize..] == before[blockSize..];
      KeepsSubkeys(before, m_reg[..], blockSize);
      assert before[..blockSize] == Masked(x, h);
      MaskedExtends(x, h, data, m_reg[..blockSize]);
      m_counter := m_counter + |data|;
    }

    /** The register overwritten with a new chaining value. */
    method SetRegister(x: seq<byte>)
      requires Keyed() && |x| == blockSize
      modifies this`m_counter, m_reg
      ensures Keyed() && Holds(x, [])
    {
      hide Subkey1, Subkey2, IsCipher, Masked;
      ghost var before := m_reg[..];
      forall i | 0 <= i < |x| { m_reg[i] := x[i]; }
      assert m_reg[blockSize..] == before[blockSize..];
      KeepsSubkeys(before, m_reg[..], blockSize);
      MaskedNothing(x);
      assert m_reg[..blockSize] == x;
      m_counter := 0;
    }

    /** The leading part of Update: completes the carried block, and chains it in if more follows. */
    method FillBlock(r: seq<byte>, ghost target: seq<byte>, ghost x: seq<byte>, ghost h: seq<byte>)
      returns (rest: seq<byte>, ghost x': seq<byte>, ghost h': seq<byte>)
      requires Keyed() && Holds(x, h) && h != [] && r != []
      requires Pending(E, blockSize, target, x, h, r)
      modifies this`m_counter, m_reg
      ensures Keyed() && Holds(x', h') && Pending(E, blockSize, target, x', h', rest)
      ensures rest != [] ==> h' == []
    {
      hide Subkey1, Subkey2, IsCipher, Masked, ChainAllButLast, LastBlock, Pending;
      var n := blockSize;
      var len := if n - m_counter < |r| then n - m_counter else |r|;
      XorIn(r[..len], x, h);
      PendingMove(E, n, target, x, h, r, len);
      rest, x', h' := r[len..], x, h + r[..len];
      if m_counter == n && |rest| > 0 {
        PendingProcess(E, n, target, x', h', rest);
        MaskedFull(x', h');
        CipherLength(E, n, m_reg[..n]);
        x', h' := E(XorBytes(x', h')), [];
        SetRegister(E(m_reg[..n]));
      }
    }

    /** The middle part of Update: every block but the last straight from the input. */
    method ChainBlocks(r: seq<byte>, ghost target: seq<byte>, ghost x: seq<byte>)
      returns (rest: seq<byte>, ghost x': seq<byte>)
      requires Keyed() && Holds(x, []) && |r| > blockSize
      requires Pending(E, blockSize, target, x, [], r)
      modifies this`m_counter, m_reg
      ensures Keyed() && Holds(x', []) && Pending(E, blockSize, target, x', [], rest)
      ensures 0 < |rest| <= blockSize
    {
      hide Subkey1, Subkey2, Masked, ChainAllButLast, LastBlock, Pending, Absorb, Rest;
      var n := blockSize;
      MaskedNothing(x);
      var result, left := AdvancedProcessBlocks(E, n, m_reg[..n], r[..|r| - 1]);
      var leftOver := 1 + left;
      PendingAdvance(E, n, target, x, r);
      x' := result;
      SetRegister(result);
      rest := r[|r| - leftOver..];
    }

    /** Any chunk of message. */
    method Update(input: seq<byte>)
      requires Valid()
      modifies this, m_reg
      ensures Valid() && message == old(message) + input
    {
      hide Subkey1, Subkey2, Masked, ChainAllButLast, LastBlock, Pending;
      if |input| == 0 {
        assert message + input == message;
        return;
      }
      ghost var target := message + input;
      ghost var x, h := ChainStart(E, blockSize, message, input);
      HeldLength(x, h);
      var r := input;
      if m_counter > 0 {
        r, x, h := FillBlock(r, target, x, h);
      }
      HeldLength(x, h);
      PendingLength(E, blockSize, target, x, h, r);
      if |r| > blockSize {
        r, x := ChainBlocks(r, target, x);
        h := [];
      }
      if |r| > 0 {
        XorIn(r, x, h);
        PendingMove(E, blockSize, target, x, h, r, |r|);
        assert r[..|r|] == r && r[|r|..] == [];
        h := h + r;
      }
      PendingDone(E, blockSize, target, x, h);
      message := target;
    }

    lemma HeldLength(x: seq<byte>, h: seq<byte>)
      requires Holds(x, h)
      ensures m_counter == |h| <= blockSize == |x|
    {
    }

    /** The tag of everything since the last reset, cut to size; a size above the block size is refused. */
    method TruncatedFinal(size: nat) returns (ok: bool, mac: seq<byte>)
      requires Valid()
      modifies this, m_reg
      ensures Valid() && ok == (size <= blockSize)
      ensures ok ==> mac == Mac(E, blockSize, Reduction(blockSize), old(message))[..size] && message == []
      ensures !ok ==> message == old(message)
    {
      hide Subkey1, Subkey2, Masked, ChainAllButLast, LastBlock;
      if size > blockSize { return false, []; }
      var n := blockSize;
      ghost var x, h := ChainAllButLast(E, n, Zeros(n), message), LastBlock(n, message);
      FinalMask(E, n, Reduction(n), x, h);
      var tag: seq<byte>;
      if m_counter < n {
        XorIn([0x80], x, h);
        tag := E(XorBytes(m_reg[..n], m_reg[2 * n..]));
      } else {
        tag := E(XorBytes(m_reg[..n], m_reg[n..2 * n]));
      }
      CipherLength(E, n, XorBytes(x, FinalBlock(E, n, Reduction(n), h)));
      ok, mac := true, tag[..size];
      SetRegister(Zeros(n));
      message := [];
      NothingYet(E, n);
    }
  }

  lemma ChainStart(E: Cipher, n: nat, message: seq<byte>, input: seq<byte>) returns (x: seq<byte>, h: seq<byte>)
    requires IsCipher(E, n)
    ensures x == ChainAllButLast(E, n, Zeros(n), message) && h == LastBlock(n, message)
    ensures Pending(E, n, message + input, x, h, input)
  {
    x, h := ChainAllButLast(E, n, Zeros(n), message), LastBlock(n, message);
    PendingAppends(E, n, Zeros(n), message, input);
  }

  lemma PendingLength(E: Cipher, n: nat, message: seq<byte>, x: seq<byte>, h: seq<byte>, r: seq<byte>)
    requires Pending(E, n, message, x, h, r)
    ensures n > 0 && IsCipher(E, n)
  {
  }

  lemma NothingYet(E: Cipher, n: nat)
    requires IsCipher(E, n)
    ensures ChainAllButLast(E, n, Zeros(n), []) == Zeros(n) && LastBlock(n, []) == []
  {
  }

  /** The first two thirds of the register. */
  lemma FrontParts(s: seq<byte>, n: nat)
    requires |s| == 3 * n
    ensures s[..2 * n][..n] == s[..n] && s[..2 * n][n..] == s[n..2 * n]
  {
  }

  lemma KeepsSubkeys(s: seq<byte>, t: seq<byte>, n: nat)
    requires |s| == |t| == 3 * n && t[n..] == s[n..]
    ensures t[n..2 * n] == s[n..2 * n] && t[2 * n..] == s[2 * n..]
  {
    assert t[n..2 * n] == t[n..][..n] && s[n..2 * n] == s[n..][..n];
    assert t[2 * n..] == t[n..][n..] && s[2 * n..] == s[n..][n..];
  }

  lemma Subkey1Bytes(E: Cipher, n: nat, terms: nat, k: seq<byte>)
    requires IsCipher(E, n) && |k| == n && FromBigEndian(k) == TimesX(FromBigEndian(E(Zeros(n))), n, terms)
    ensures k == Subkey1(E, n, terms)
  {
    BigEndianWrites(k);
  }

  lemma Subkey2Bytes(E: Cipher, n: nat, terms: nat, k: seq<byte>)
    requires IsCipher(E, n) && |k| == n && FromBigEndian(k) == TimesX(FromBigEndian(Subkey1(E, n, terms)), n, terms)
    ensures k == Subkey2(E, n, terms)
  {
    BigEndianWrites(k);
  }
}
