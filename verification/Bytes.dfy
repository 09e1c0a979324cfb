/** Bytes, exclusive or on them, and big-endian words. */
module Bytes {
  import opened Powers

  type byte = b: nat | b < 256

  /** Bitwise exclusive or of two naturals. */
  function Xor(a: nat, b: nat): nat
    decreases a + b
  {
    if a == 0 then b else if b == 0 then a
    else 2 * Xor(a / 2, b / 2) + (a + b) % 2
  }

  lemma {:induction false} XorComm(a: nat, b: nat)
    ensures Xor(a, b) == Xor(b, a)
    decreases a + b
  {
    if a > 0 && b > 0 { XorComm(a / 2, b / 2); }
  }

  /** Each bit of the result is set when just one of the operands has it. */
  lemma {:induction false} XorBit(a: nat, b: nat, i: nat)
    ensures GetBit(Xor(a, b), i) == (GetBit(a, i) + GetBit(b, i)) % 2
  {
    hide Xor;
    XorStep(a, b);
    if i > 0 { XorBit(a / 2, b / 2, i - 1); }
  }

  /** One bit at a time, also where an operand has run out. */
  lemma XorStep(a: nat, b: nat)
    ensures Xor(a, b) == 2 * Xor(a / 2, b / 2) + (a + b) % 2
  {
    XorZero(a);
    XorZero(b);
    XorZero(a / 2);
    XorZero(b / 2);
    if a > 0 && b > 0 { XorBoth(a, b); }
    hide Xor;
    assert a == 2 * (a / 2) + a % 2 && b == 2 * (b / 2) + b % 2;
  }

  lemma XorZero(a: nat)
    ensures Xor(a, 0) == a && Xor(0, a) == a
  {
  }

  lemma XorBoth(a: nat, b: nat)
    requires a > 0 && b > 0
    ensures Xor(a, b) == 2 * Xor(a / 2, b / 2) + (a + b) % 2
  {
  }

  lemma {:induction false} XorSelf(a: nat)
    ensures Xor(a, a) == 0
  {
    if a > 0 { XorSelf(a / 2); }
  }

  lemma {:induction false} XorAssoc(a: nat, b: nat, c: nat)
    ensures Xor(Xor(a, b), c) == Xor(a, Xor(b, c))
    decreases a + b + c
  {
    XorZero(a);
    XorZero(b);
    XorZero(c);
    XorZero(Xor(a, b));
    XorZero(Xor(b, c));
    hide Xor;
    if a > 0 && b > 0 && c > 0 {
      XorStep(a, b);
      XorStep(b, c);
      XorStep(Xor(a, b), c);
      XorStep(a, Xor(b, c));
      XorAssoc(a / 2, b / 2, c / 2);
      ParityXor(a, b, c, Xor(a / 2, b / 2), Xor(b / 2, c / 2));
    }
  }

  lemma ParityXor(a: nat, b: nat, c: nat, x: nat, y: nat)
    ensures var ab, bc := 2 * x + (a + b) % 2, 2 * y + (b + c) % 2;
            ab / 2 == x && bc / 2 == y && (ab + c) % 2 == (a + bc) % 2
  {
    var ab, bc := 2 * x + (a + b) % 2, 2 * y + (b + c) % 2;
    assert (ab + c) % 2 == ((a + b) % 2 + c) % 2;
    assert (a + bc) % 2 == (a + (b + c) % 2) % 2;
  }

  /** Applying the same mask twice gives the original back. */
  lemma XorCancel(a: nat, b: nat)
    ensures Xor(Xor(a, b), b) == a
  {
    XorAssoc(a, b, b);
    XorSelf(b);
  }

  lemma {:induction false} XorBound(a: nat, b: nat, k: nat)
    requires a < Pow2(k) && b < Pow2(k)
    ensures Xor(a, b) < Pow2(k)
  {
    if k > 0 {
      XorStep(a, b);
      XorBound(a / 2, b / 2, k - 1);
    }
  }

  function XorByte(a: byte, b: byte): byte {
    Pow2OfEight();
    XorBound(a, b, 8);
    Xor(a, b)
  }

  lemma XorByteCancel(a: byte, b: byte)
    ensures XorByte(XorByte(a, b), b) == a
  {
    XorCancel(a, b);
  }

  function XorBytes(s: seq<byte>, t: seq<byte>): (r: seq<byte>)
    requires |s| == |t|
    ensures |r| == |s|
  {
    seq(|s|, i requires 0 <= i < |s| => XorByte(s[i], t[i]))
  }

  lemma XorBytesCancel(s: seq<byte>, t: seq<byte>)
    requires |s| == |t|
    ensures XorBytes(XorBytes(s, t), t) == s
  {
    forall i | 0 <= i < |s|
      ensures XorBytes(XorBytes(s, t), t)[i] == s[i]
    {
      XorByteCancel(s[i], t[i]);
    }
  }

  lemma XorBytesAssoc(s: seq<byte>, t: seq<byte>, u: seq<byte>)
    requires |s| == |t| == |u|
    ensures XorBytes(XorBytes(s, t), u) == XorBytes(s, XorBytes(t, u))
  {
    forall i | 0 <= i < |s|
      ensures XorBytes(XorBytes(s, t), u)[i] == XorBytes(s, XorBytes(t, u))[i]
    {
      XorAssoc(s[i], t[i], u[i]);
    }
  }

  lemma XorBytesZeros(s: seq<byte>)
    ensures XorBytes(s, Zeros(|s|)) == s
  {
    forall i | 0 <= i < |s|
      ensures XorBytes(s, Zeros(|s|))[i] == s[i]
    {
      XorZero(s[i]);
    }
  }

  lemma XorBytesFromZeros(s: seq<byte>)
    ensures XorBytes(Zeros(|s|), s) == s
  {
    forall i | 0 <= i < |s|
      ensures XorBytes(Zeros(|s|), s)[i] == s[i]
    {
      XorZero(s[i]);
    }
  }

  function Zeros(n: nat): (r: seq<byte>)
    ensures |r| == n
  {
    seq(n, _ => 0)
  }

  /** The low count bytes of n, most significant first: PutWord with BIG_ENDIAN_ORDER. */
  function BigEndian(n: nat, count: nat): (r: seq<byte>)
    ensures |r| == count
  {
    if count == 0 then [] else BigEndian(n / 256, count - 1) + [n % 256]
  }

  /** The number a string of bytes stands for, most significant byte first. */
  function FromBigEndian(s: seq<byte>): nat {
    if s == [] then 0 else 256 * FromBigEndian(s[..|s| - 1]) + s[|s| - 1]
  }

  /** 256^k. */
  function Pow256(k: nat): (r: nat)
    ensures r > 0
  {
    if k == 0 then 1 else 256 * Pow256(k - 1)
  }

  lemma {:induction false} FromBigEndianBound(s: seq<byte>)
    ensures FromBigEndian(s) < Pow256(|s|)
  {
    if s != [] { FromBigEndianBound(s[..|s| - 1]); }
  }

  /** Writing a number and reading it back. */
  lemma {:induction false} BigEndianReads(n: nat, count: nat)
    requires n < Pow256(count)
    ensures FromBigEndian(BigEndian(n, count)) == n
  {
    if count > 0 {
      BigEndianReads(n / 256, count - 1);
      assert BigEndian(n, count)[..count - 1] == BigEndian(n / 256, count - 1);
    }
  }

  /** Reading bytes and writing them back. */
  lemma {:induction false} BigEndianWrites(s: seq<byte>)
    ensures BigEndian(FromBigEndian(s), |s|) == s
  {
    if s != [] {
      var front := s[..|s| - 1];
      BigEndianWrites(front);
      var n := FromBigEndian(s);
      assert n / 256 == FromBigEndian(front) && n % 256 == s[|s| - 1];
      assert s == front + [s[|s| - 1]];
    }
  }

  /** A wider word ends in the narrower one. */
  lemma {:induction false} BigEndianSuffix(n: nat, wide: nat, narrow: nat)
    requires narrow <= wide
    ensures BigEndian(n, wide)[wide - narrow..] == BigEndian(n, narrow)
  {
    if narrow > 0 {
      BigEndianSuffix(n / 256, wide - 1, narrow - 1);
      var w := BigEndian(n / 256, wide - 1);
      assert BigEndian(n, wide)[wide - narrow..] == w[wide - narrow..] + [n % 256];
    }
  }

  /** The byte a right shift leaves at the bottom. */
  lemma {:induction false} BigEndianAt(n: nat, count: nat, i: nat)
    requires i < count
    ensures BigEndian(n, count)[i] == Shr(n, 8 * (count - 1 - i)) % 256
  {
    if i < count - 1 {
      BigEndianAt(n / 256, count - 1, i);
      ShrEight(n, 8 * (count - 2 - i));
    }
  }

  lemma ShrEight(n: nat, i: nat)
    ensures Shr(n, 8 + i) == Shr(n / 256, i)
  {
    ShrShr(n, 8, i);
    ShrIsDiv(n, 8);
    Pow2OfEight();
  }

  lemma ReadOneMore(s: seq<byte>, b: byte)
    ensures FromBigEndian(s + [b]) == 256 * FromBigEndian(s) + b
  {
    assert (s + [b])[..|s|] == s;
  }

  /** Appending to a number's bytes. */
  lemma {:induction false} FromBigEndianAppend(s: seq<byte>, t: seq<byte>)
    ensures FromBigEndian(s + t) == FromBigEndian(s) * Pow256(|t|) + FromBigEndian(t)
  {
    if t == [] {
      assert s + t == s;
    } else {
      var front := t[..|t| - 1];
      FromBigEndianAppend(s, front);
      assert (s + t)[..|s + t| - 1] == s + front;
      MulAssoc(256, FromBigEndian(s), Pow256(|front|));
      MulAssoc(FromBigEndian(s), 256, Pow256(|front|));
    }
  }

  /** Numbers combine byte by byte. */
  lemma XorAligned(a: nat, b: nat, x: byte, y: byte)
    ensures Xor(256 * a + x, 256 * b + y) == 256 * Xor(a, b) + XorByte(x, y)
  {
    Pow2OfEight();
    XorShifted(a, b, x, y, 8);
    ShlIsTimes(a, 8);
    ShlIsTimes(b, 8);
    ShlIsTimes(Xor(a, b), 8);
  }

  lemma {:induction false} XorShifted(a: nat, b: nat, x: nat, y: nat, k: nat)
    requires x < Pow2(k) && y < Pow2(k)
    ensures Xor(Shl(a, k) + x, Shl(b, k) + y) == Shl(Xor(a, b), k) + Xor(x, y)
  {
    hide Xor, Shl, Pow2;
    if k == 0 {
      UnshiftedBase(a, b, x, y);
    } else {
      HalfBelow(x, k);
      HalfBelow(y, k);
      XorShifted(a, b, x / 2, y / 2, k - 1);
      ShlUnfold(a, k);
      ShlUnfold(b, k);
      ShlUnfold(Xor(a, b), k);
      XorPeel(Shl(a, k - 1), Shl(b, k - 1), x, y);
    }
  }

  lemma UnshiftedBase(a: nat, b: nat, x: nat, y: nat)
    requires x < Pow2(0) && y < Pow2(0)
    ensures Xor(Shl(a, 0) + x, Shl(b, 0) + y) == Shl(Xor(a, b), 0) + Xor(x, y)
  {
  }

  /** The lowest bits of two sums with even parts combine on their own. */
  lemma XorPeel(p: nat, q: nat, x: nat, y: nat)
    ensures Xor(2 * p + x, 2 * q + y) - Xor(x, y) == 2 * (Xor(p + x / 2, q + y / 2) - Xor(x / 2, y / 2))
  {
    hide Xor;
    HalfSum(p, x);
    HalfSum(q, y);
    XorStep(2 * p + x, 2 * q + y);
    XorStep(x, y);
    SameParity(p, q, x, y);
  }

  lemma ShlUnfold(a: nat, k: nat)
    requires k > 0
    ensures Shl(a, k) == 2 * Shl(a, k - 1)
  {
  }

  lemma HalfBelow(x: nat, k: nat)
    requires k > 0 && x < Pow2(k)
    ensures x / 2 < Pow2(k - 1)
  {
  }

  lemma HalfSum(p: nat, x: nat)
    ensures (2 * p + x) / 2 == p + x / 2
  {
  }

  lemma SameParity(p: nat, q: nat, x: nat, y: nat)
    ensures (2 * p + x + (2 * q + y)) % 2 == (x + y) % 2
  {
    assert 2 * p + x + (2 * q + y) == 2 * (p + q) + (x + y);
  }

  lemma {:induction false} Pow256IsShift(n: nat)
    ensures Pow256(n) == Shl(1, 8 * n) && Pow256(n) == Pow2(8 * n)
  {
    if n > 0 {
      Pow256IsShift(n - 1);
      ShlShl(1, 8 * (n - 1), 8);
      ShlIsTimes(Shl(1, 8 * (n - 1)), 8);
      Pow2OfEight();
    }
    ShlOne(8 * n);
  }

  /** The range of lword, whose arithmetic wraps at 64 bits. */
  const LWORD := 0x1_0000_0000_0000_0000

  lemma Pow256OfEight()
    ensures Pow256(8) == LWORD
  {
    assert Pow256(4) == 0x1_0000_0000;
    assert Pow256(6) == 256 * 256 * Pow256(4);
  }

  lemma {:induction false} Pow256Monotone(m: nat, n: nat)
    requires m <= n
    ensures Pow256(m) <= Pow256(n)
    decreases n
  {
    if m < n { Pow256Monotone(m, n - 1); }
  }

  // ----- strings in parts

  /** The parts of a string, one after the other. */
  function Flatten(parts: seq<seq<byte>>): seq<byte> {
    if parts == [] then [] else Flatten(parts[..|parts| - 1]) + parts[|parts| - 1]
  }

  lemma FlattenNothing()
    ensures Flatten([]) == []
  {
  }

  lemma FlattenNext(parts: seq<seq<byte>>, i: nat)
    requires i < |parts|
    ensures Flatten(parts[..i + 1]) == Flatten(parts[..i]) + parts[i]
  {
    assert parts[..i + 1][..i] == parts[..i];
  }

  /** Something is left until the last part. */
  lemma {:induction false} FlattenGrows(parts: seq<seq<byte>>, i: nat)
    requires i <= |parts|
    ensures |Flatten(parts[..i])| <= |Flatten(parts)|
    decreases |parts| - i
  {
    if i < |parts| {
      FlattenNext(parts, i);
      FlattenGrows(parts, i + 1);
    } else {
      assert parts[..i] == parts;
    }
  }

  /** A string cut into pieces of the given sizes, the remainder first. */
  function Cut(s: seq<byte>, sizes: seq<nat>): (r: seq<seq<byte>>)
    ensures r != []
    decreases |sizes|
  {
    if sizes == [] then [s] else
      var last := LastPiece(s, sizes[|sizes| - 1]);
      Cut(s[..last], sizes[..|sizes| - 1]) + [s[last..]]
  }

  /** Where the last piece of that size, or of all there is, begins. */
  function LastPiece(s: seq<byte>, size: nat): (r: nat)
    ensures r <= |s|
  {
    if size <= |s| then |s| - size else 0
  }

  /** Nothing is lost by cutting. */
  lemma {:induction false} CutFlattens(s: seq<byte>, sizes: seq<nat>)
    ensures Flatten(Cut(s, sizes)) == s
    decreases |sizes|
  {
    if sizes == [] {
      FlattenNothing();
      FlattenNext([s], 0);
      assert [s][..1] == [s] && [s][..0] == [];
    } else {
      var front, last := sizes[..|sizes| - 1], LastPiece(s, sizes[|sizes| - 1]);
      var parts := Cut(s[..last], front);
      CutFlattens(s[..last], front);
      hide Cut, Flatten;
      FlattenNext(parts + [s[last..]], |parts|);
      assert (parts + [s[last..]])[..|parts|] == parts && (parts + [s[last..]])[..|parts| + 1] == parts + [s[last..]];
    }
  }
}
