/** The Adler-32 checksum of adler32.cpp with its delayed reductions. */
module Adler {
  import opened Powers
  import opened Bytes

  /** unsigned long at its smallest: every sum below is proved not to wrap. */
  newtype ulong = x: int | 0 <= x < 0x1_0000_0000

  const BASE := 65521

  datatype Sums = Sums(s1: nat, s2: nat)

  // ----- the specification: section 2.2 of RFC 1950, both sums reduced after every byte

  function Step(s: Sums, b: byte): (r: Sums)
    ensures r.s1 < BASE && r.s2 < BASE
  {
    var s1 := (s.s1 + b) % BASE;
    Sums(s1, (s.s2 + s1) % BASE)
  }

  function Checksum(s: Sums, data: seq<byte>): Sums {
    if data == [] then s else Step(Checksum(s, data[..|data| - 1]), data[|data| - 1])
  }

  lemma {:induction false} ChecksumAppend(s: Sums, a: seq<byte>, b: seq<byte>)
    ensures Checksum(s, a + b) == Checksum(Checksum(s, a), b)
  {
    if b == [] {
      assert a + b == a;
    } else {
      assert (a + b)[..|a + b| - 1] == a + b[..|b| - 1];
      ChecksumAppend(s, a, b[..|b| - 1]);
    }
  }

  function ByteSum(data: seq<byte>): nat {
    if data == [] then 0 else ByteSum(data[..|data| - 1]) + data[|data| - 1]
  }

  /** The sum of the first sum's values after every byte. */
  function SumOfSums(data: seq<byte>): nat {
    if data == [] then 0 else SumOfSums(data[..|data| - 1]) + (1 + ByteSum(data))
  }

  /** Section 2.2 of RFC 1950 without intermediate reductions: one plus all bytes, and the sum of those
      sums, modulo 65521. */
  lemma {:induction false} ChecksumInFull(data: seq<byte>)
    ensures Checksum(Sums(1, 0), data) == Sums((1 + ByteSum(data)) % 65521, SumOfSums(data) % 65521)
  {
    if data != [] {
      var front, b := data[..|data| - 1], data[|data| - 1];
      ChecksumInFull(front);
      ModSum(1 + ByteSum(front), b);
      ModSum(SumOfSums(front), (1 + ByteSum(data)) % 65521);
      ModSum(1 + ByteSum(data), SumOfSums(front));
    }
  }

  lemma {:induction false} ChecksumReduced(s: Sums, data: seq<byte>)
    requires s.s1 < BASE && s.s2 < BASE
    ensures Checksum(s, data).s1 < BASE && Checksum(s, data).s2 < BASE
  {
    if data != [] { ChecksumReduced(s, data[..|data| - 1]); }
  }

  /** Unreduced sums that stand for the right residues. */
  ghost predicate Stands(s1: int, s2: int, s: Sums) {
    s1 >= 0 && s2 >= 0 && s1 % BASE == s.s1 && s2 % BASE == s.s2
  }

  lemma StandsStep(s1: int, s2: int, s: Sums, b: byte)
    requires Stands(s1, s2, s)
    ensures Stands(s1 + b, s2 + (s1 + b), Step(s, b))
  {
    ModSum(s1, b);
    ModSum(s2, s1 + b);
    ModSum(s1 + b, s2 % BASE);
  }

  lemma ModSum(a: int, b: int)
    ensures (a % BASE + b) % BASE == (a + b) % BASE
  {
  }

  /** One byte in the unreduced sums. */
  method AddByte(s1: ulong, s2: ulong, b: byte, ghost s: Sums, ghost data: seq<byte>) returns (r1: ulong, r2: ulong)
    requires s1 < 0x10000 * 2 && s2 as int <= 0xf000_0000
    requires Stands(s1 as int, s2 as int, Checksum(s, data))
    ensures r1 as int == s1 as int + b && r2 as int == s2 as int + r1 as int
    ensures Stands(r1 as int, r2 as int, Checksum(s, data + [b]))
  {
    hide Stands, Step;
    r1 := s1 + b as ulong;
    r2 := s2 + r1;
    assert (data + [b])[..|data|] == data;
    StandsStep(s1 as int, s2 as int, Checksum(s, data), b);
  }

  /** The unrolled body of the main loop: eight bytes without a reduction. */
  method AddEight(t1: ulong, t2: ulong, input: seq<byte>, ghost s: Sums, ghost data: seq<byte>) returns (s1: ulong, s2: ulong)
    requires |input| == 8 && t1 as int < BASE && t2 as int <= 0xe000_0000
    requires Stands(t1 as int, t2 as int, Checksum(s, data))
    ensures s1 as int <= t1 as int + 8 * 255
    ensures s2 as int <= t2 as int + 8 * (BASE - 1 + 8 * 255)
    ensures Stands(s1 as int, s2 as int, Checksum(s, data + input))
  {
    hide Stands, Checksum;
    s1, s2 := AddByte(t1, t2, input[0], s, data);
    s1, s2 := AddByte(s1, s2, input[1], s, data + [input[0]]);
    Grow(data, input, 1);
    s1, s2 := AddByte(s1, s2, input[2], s, data + input[..2]);
    Grow(data, input, 2);
    s1, s2 := AddByte(s1, s2, input[3], s, data + input[..3]);
    Grow(data, input, 3);
    s1, s2 := AddByte(s1, s2, input[4], s, data + input[..4]);
    Grow(data, input, 4);
    s1, s2 := AddByte(s1, s2, input[5], s, data + input[..5]);
    Grow(data, input, 5);
    s1, s2 := AddByte(s1, s2, input[6], s, data + input[..6]);
    Grow(data, input, 6);
    s1, s2 := AddByte(s1, s2, input[7], s, data + input[..7]);
    Grow(data, input, 7);
    assert input[..8] == input;
  }

  lemma Grow(data: seq<byte>, input: seq<byte>, k: nat)
    requires k < |input|
    ensures data + input[..k] + [input[k]] == data + input[..k + 1]
    ensures k == 1 ==> data + [input[0]] + [input[1]] == data + input[..2]
  {
  }

  /** Bytes taken since the remaining length was last a multiple of 0x8000. */
  function SinceReduction(length: nat): nat {
    if length % 0x8000 == 0 then 0 else 0x8000 - length % 0x8000
  }

  class Adler32 {
    var m_s1: nat
    var m_s2: nat
    ghost var message: seq<byte>

    ghost predicate Valid()
      reads this
    {
      Sums(m_s1, m_s2) == Checksum(Sums(1, 0), message) && m_s1 < BASE && m_s2 < BASE
    }

    constructor ()
      ensures Valid() && message == []
    {
      m_s1, m_s2, message := 1, 0, [];
    }

    /** The leading loop: up to seven bytes, then one correction of each sum. */
    method Lead(t1: ulong, t2: ulong, input: seq<byte>, ghost s: Sums) returns (s1: ulong, s2: ulong)
      requires |input| < 8 && t1 as int < BASE && t2 as int < BASE && s == Sums(t1 as int, t2 as int)
      ensures s1 as int < BASE && s2 as int < BASE
      ensures Stands(s1 as int, s2 as int, Checksum(s, input))
    {
      s1, s2 := t1, t2;
      var i := 0;
      while i < |input|
        invariant 0 <= i <= |input|
        invariant s1 as int <= BASE - 1 + 255 * i && s2 as int <= BASE - 1 + 7 * i * 0x10000
        invariant Stands(s1 as int, s2 as int, Checksum(s, input[..i]))
      {
        hide Stands, Checksum;
        s1, s2 := AddByte(s1, s2, input[i], s, input[..i]);
        assert input[..i] + [input[i]] == input[..i + 1];
        i := i + 1;
      }
      assert input[..i] == input;
      StandsReduced(s1 as int, s2 as int, Checksum(s, input));
      if s1 as int >= BASE { s1 := s1 - BASE as ulong; }
      s2 := s2 % BASE as ulong;
    }

    /** Any chunk of message; s2 is reduced only every 0x8000 bytes. */
    method Update(input: seq<byte>)
      requires Valid()
      modifies this
      ensures Valid() && message == old(message) + input
    {
      hide Checksum, Stands, SinceReduction;
      var s1: ulong, s2: ulong := m_s1 as ulong, m_s2 as ulong;
      ghost var s := Sums(m_s1, m_s2);
      var position := |input| % 8;
      ChecksumAppend(Sums(1, 0), message, input);
      ChecksumReduced(Sums(1, 0), message + input);
      StandsStart(s);
      if position != 0 {
        s1, s2 := Lead(s1, s2, input[..position], s);
      }
      SinceBounds(|input| - position);
      while position < |input|
        invariant 0 <= position <= |input| && (|input| - position) % 8 == 0
        invariant message == old(message) && s1 as int < BASE
        invariant s2 as int <= BASE - 1 + SinceReduction(|input| - position) * (BASE - 1 + 8 * 255)
        invariant Stands(s1 as int, s2 as int, Checksum(s, input[..position]))
      {
        var length := |input| - position;
        SinceBounds(length);
        s1, s2 := AddEight(s1, s2, input[position..position + 8], s, input[..position]);
        assert input[..position] + input[position..position + 8] == input[..position + 8];
        position := position + 8;
        SinceStep(length);
        StandsReduced(s1 as int, s2 as int, Checksum(s, input[..position]));
        if s1 as int >= BASE { s1 := s1 - BASE as ulong; }
        if (|input| - position) % 0x8000 == 0 { s2 := s2 % BASE as ulong; }
      }
      SinceBounds(0);
      assert input[..position] == input;
      StandsExact(s1 as int, s2 as int, Checksum(s, input));
      m_s1, m_s2 := s1 as int, s2 as int;
      message := message + input;
    }

    /** The first size bytes of s2 s1, high bytes first; the sums start afresh. */
    method TruncatedFinal(size: nat) returns (ok: bool, hash: seq<byte>)
      requires Valid()
      modifies this
      ensures Valid() && ok == (size <= 4)
      ensures ok ==> message == [] && hash == Digest(Checksum(Sums(1, 0), old(message)))[..size]
      ensures !ok ==> message == old(message)
    {
      if size > 4 { return false, []; }
      var bytes: seq<byte> := [m_s2 / 256, m_s2 % 256, m_s1 / 256, m_s1 % 256];
      ok, hash := true, bytes[..size];
      DigestBytes(m_s1, m_s2);
      m_s1, m_s2, message := 1, 0, [];
    }
  }

  /** s2 * 65536 + s1 in network byte order. */
  function Digest(s: Sums): (r: seq<byte>)
    ensures |r| == 4
  {
    BigEndian(s.s2 * 0x10000 + s.s1, 4)
  }

  lemma DigestBytes(s1: nat, s2: nat)
    requires s1 < 0x10000 && s2 < 0x10000
    ensures Digest(Sums(s1, s2)) == [s2 / 256, s2 % 256, s1 / 256, s1 % 256]
  {
    var n := s2 * 0x10000 + s1;
    assert n / 256 == s2 * 256 + s1 / 256 && n / 256 / 256 == s2 && s2 / 256 < 256;
    assert BigEndian(n / 256 / 256 / 256, 1) == [n / 256 / 256 / 256 % 256];
    assert BigEndian(n / 256 / 256, 2) == [s2 / 256, s2 % 256];
    assert BigEndian(n / 256, 3) == [s2 / 256, s2 % 256, s1 / 256];
  }

  lemma StandsStart(s: Sums)
    requires s.s1 < BASE && s.s2 < BASE
    ensures Stands(s.s1, s.s2, Checksum(s, []))
  {
  }

  /** One subtraction, or a full reduction, keeps what the sums stand for. */
  lemma StandsReduced(s1: int, s2: int, s: Sums)
    requires Stands(s1, s2, s) && s1 < 2 * BASE
    ensures Stands(if s1 >= BASE then s1 - BASE else s1, s2, s)
    ensures Stands(if s1 >= BASE then s1 - BASE else s1, s2 % BASE, s)
  {
  }

  lemma StandsExact(s1: int, s2: int, s: Sums)
    requires Stands(s1, s2, s) && s1 < BASE && s2 < BASE
    ensures s == Sums(s1, s2)
  {
  }

  lemma SinceBounds(length: nat)
    requires length % 8 == 0
    ensures 0 <= SinceReduction(length) <= 0x8000 - 8 && (length == 0 ==> SinceReduction(length) == 0)
  {
  }

  lemma SinceStep(length: nat)
    requires length >= 8 && length % 8 == 0
    ensures SinceReduction(length - 8) == if (length - 8) % 0x8000 == 0 then 0 else SinceReduction(length) + 8
  {
    RemainderOfEights(length, 0x8000, 0x1000);
    EightBack(length, 0x8000);
  }

  lemma RemainderOfEights(n: nat, d: nat, eighth: nat)
    requires n % 8 == 0 && d == 8 * eighth && d > 0
    ensures n % d % 8 == 0
  {
    DivModIdentity(n, d);
    MulAssoc(8, eighth, n / d);
    var m := n % d;
    assert m == 8 * (n / 8 - eighth * (n / d));
  }

  lemma EightBack(n: nat, d: nat)
    requires 8 <= n && 8 <= d && (n % d == 0 || n % d >= 8)
    ensures (n - 8) % d == if n % d == 0 then d - 8 else n % d - 8
  {
    DivModIdentity(n, d);
    if n % d == 0 {
      assert d * (n / d - 1) == d * (n / d) - d;
      DivModUnique(n - 8, d, n / d - 1, d - 8);
    } else {
      DivModUnique(n - 8, d, n / d, n % d - 8);
    }
  }
}
