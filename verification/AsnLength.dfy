/** Length octets of BER and DER (asn.cpp), section 8.1.3 of ITU-T X.690, over queues of bytes. */
module AsnLength {
  import opened Powers
  import opened Bytes

  /** A queue of bytes: the interface of BufferedTransformation that the codec uses. */
  class ByteQueue {
    var contents: seq<byte>

    constructor ()
      ensures contents == []
    {
      contents := [];
    }

    method Put(b: byte)
      modifies this
      ensures contents == old(contents) + [b]
    {
      contents := contents + [b];
    }

    method PutBytes(s: seq<byte>)
      modifies this
      ensures contents == old(contents) + s
    {
      contents := contents + s;
    }

    method Get() returns (ok: bool, b: byte)
      modifies this
      ensures ok == (old(contents) != [])
      ensures ok ==> old(contents) == [b] + contents
      ensures !ok ==> contents == []
    {
      ok, b := contents != [], 0;
      if ok { b, contents := contents[0], contents[1..]; }
    }

    /** Up to n bytes. */
    method GetBytes(n: nat) returns (s: seq<byte>)
      modifies this
      ensures s + contents == old(contents)
      ensures |s| == if n <= |old(contents)| then n else |old(contents)|
    {
      var k := if n <= |contents| then n else |contents|;
      s, contents := contents[..k], contents[k..];
    }
  }

  /** The number of bytes in a number: BytePrecision. */
  function BytePrecision(n: nat): nat {
    if n == 0 then 0 else 1 + BytePrecision(n / 256)
  }

  /** The distinguished length octets: one octet up to 127, otherwise the count (cut to an octet, which
      for an lword changes nothing) and the number. */
  function DerLength(n: nat): seq<byte> {
    if n < 128 then [n] else [(128 + BytePrecision(n)) % 256] + BigEndian(n, BytePrecision(n))
  }

  /** What a string starts with, read as length octets. Size counts the octets. */
  datatype LengthField = Definite(length: nat, size: nat) | Indefinite | Missing | Overflow

  function ParseLength(s: seq<byte>): LengthField {
    if s == [] then Missing
    else if s[0] < 128 then Definite(s[0], 1)
    else if s[0] == 128 then Indefinite
    else if s[0] - 128 < |s| then
      var value := FromBigEndian(s[1..s[0] - 127]);
      if value < LWORD then Definite(value, s[0] - 127) else Overflow
    else if FromBigEndian(s[1..]) < LWORD / 256 then Missing else Overflow
  }

  lemma {:induction false} PrecisionBounds(n: nat)
    ensures n < Pow256(BytePrecision(n))
    ensures n > 0 ==> Pow256(BytePrecision(n) - 1) <= n
  {
    if n > 0 { PrecisionBounds(n / 256); }
  }

  lemma PrecisionOfWord(n: nat)
    requires n < LWORD
    ensures BytePrecision(n) <= 8
  {
    PrecisionBounds(n);
    Pow256OfEight();
    if BytePrecision(n) > 8 { Pow256Monotone(8, BytePrecision(n) - 1); }
  }

  /** Reading back what was written, whatever follows. */
  lemma ParseDerLength(n: nat, rest: seq<byte>)
    requires n < LWORD
    ensures ParseLength(DerLength(n) + rest) == Definite(n, |DerLength(n)|)
  {
    if n >= 128 {
      hide FromBigEndian, BigEndian, Pow256, BytePrecision;
      PrecisionOfWord(n);
      PrecisionBounds(n);
      var k := BytePrecision(n);
      BigEndianReads(n, k);
      PositivePrecision(n);
      LongFormParses(n, k, DerLength(n) + rest, rest);
    }
  }

  lemma LongFormParses(n: nat, k: nat, s: seq<byte>, rest: seq<byte>)
    requires 0 < k <= 8 && n < LWORD && s == [128 + k] + BigEndian(n, k) + rest && FromBigEndian(BigEndian(n, k)) == n
    ensures ParseLength(s) == Definite(n, k + 1)
  {
    hide FromBigEndian, BigEndian;
    assert s[1..k + 1] == BigEndian(n, k);
  }

  lemma PositivePrecision(n: nat)
    requires n > 0
    ensures BytePrecision(n) > 0
  {
  }

  /** Sections 8.1.3.4, 8.1.3.5 and 10.1 of X.690: one octet below 128; otherwise 128 plus the number of
      further octets, which are the number, most significant first, without leading zeros. */
  lemma DerLengthForm(n: nat)
    requires n < LWORD
    ensures n < 128 ==> DerLength(n) == [n]
    ensures n >= 128 ==> var s := DerLength(n);
      && 2 <= |s| <= 9 && s[0] == 128 + (|s| - 1)
      && FromBigEndian(s[1..]) == n && s[1] > 0
  {
    hide FromBigEndian, BigEndian, Pow256, BytePrecision;
    if n >= 128 {
      var k := BytePrecision(n);
      PrecisionOfWord(n);
      PositivePrecision(n);
      LongFormOf(n, k);
      assert DerLength(n) == [128 + k] + BigEndian(n, k);
      assert DerLength(n)[1..] == BigEndian(n, k);
    }
  }

  lemma LongFormOf(n: nat, k: nat)
    requires k == BytePrecision(n) > 0
    ensures FromBigEndian(BigEndian(n, k)) == n && BigEndian(n, k)[0] > 0
  {
    hide FromBigEndian, BigEndian, Pow256, BytePrecision;
    PrecisionBounds(n);
    if n == 0 { NoPrecisionOfZero(); }
    BigEndianReads(n, k);
    TopOctet(n, k);
  }

  lemma NoPrecisionOfZero()
    ensures BytePrecision(0) == 0
  {
  }

  lemma TopOctet(n: nat, k: nat)
    requires k > 0 && Pow256(k - 1) <= n < Pow256(k)
    ensures BigEndian(n, k)[0] > 0
    decreases k
  {
    if k > 1 {
      assert Pow256(k - 1) == 256 * Pow256(k - 2);
      TopOctet(n / 256, k - 1);
    }
  }

  /** A complete long form, minimal or not, is accepted exactly when its number is below 2^64, with that
      number and all of its octets. */
  lemma LongFormAccepted(octets: seq<byte>, rest: seq<byte>)
    requires 0 < |octets| < 128
    ensures var s := [128 + |octets|] + octets + rest;
      ParseLength(s) == if FromBigEndian(octets) < 0x1_0000_0000_0000_0000 then Definite(FromBigEndian(octets), 1 + |octets|) else Overflow
  {
    hide FromBigEndian;
    var s := [128 + |octets|] + octets + rest;
    assert s[1..1 + |octets|] == octets;
  }

  /** Fewer octets than announced are never accepted. */
  lemma CutShort(s: seq<byte>)
    requires s == [] || (s[0] > 128 && |s| <= s[0] - 128)
    ensures ParseLength(s).Missing? || ParseLength(s).Overflow?
  {
    hide FromBigEndian;
  }

  /** No length octets that stand for n are shorter. */
  lemma DerLengthShortest(n: nat, s: seq<byte>)
    requires ParseLength(s).Definite? && ParseLength(s).length == n
    ensures n < LWORD && |DerLength(n)| <= ParseLength(s).size <= |s|
  {
    if s[0] > 128 {
      hide BigEndian;
      Pow256OfEight();
      var field := s[1..s[0] - 127];
      FromBigEndianBound(field);
      PrecisionBounds(n);
      if n >= 128 && BytePrecision(n) > |field| { Pow256Monotone(|field|, BytePrecision(n) - 1); }
    }
  }

  /** DERLengthEncode. */
  method DERLengthEncode(bt: ByteQueue, length: nat) returns (i: nat)
    requires length < LWORD
    modifies bt
    ensures bt.contents == old(bt.contents) + DerLength(length) && i == |DerLength(length)|
  {
    hide BigEndian, BytePrecision, Shr, Pow256;
    if length <= 0x7f {
      bt.Put(length);
      i := 1;
    } else {
      PrecisionOfWord(length);
      var k := BytePrecision(length);
      bt.Put(128 + k);
      i := 1;
      ghost var word := BigEndian(length, k);
      for j := k downto 0
        invariant i == 1 + k - j && bt.contents == old(bt.contents) + [128 + k] + word[..k - j]
      {
        BigEndianAt(length, k, k - 1 - j);
        bt.Put(Shr(length, j * 8) % 256);
        i := i + 1;
      }
      assert word[..k] == word;
    }
  }

  /** The first BERLengthDecode: Missing is its false, Overflow its exception. */
  method BERLengthDecode(bt: ByteQueue) returns (field: LengthField)
    modifies bt
    ensures field == ParseLength(old(bt.contents))
    ensures field.Definite? ==> field.size <= |old(bt.contents)| && bt.contents == old(bt.contents)[field.size..]
    ensures field.Indefinite? ==> old(bt.contents) == [128] + bt.contents
  {
    hide FromBigEndian;
    var ok, b := bt.Get();
    if !ok { return Missing; }
    if b < 128 { return Definite(b, 1); }
    var lengthBytes: nat := b - 128;
    if lengthBytes == 0 { return Indefinite; }
    field := DecodeLong(bt, lengthBytes);
    assert old(bt.contents)[1..] == old(bt.contents)[1..][..];
    LongField(old(bt.contents), field);
  }

  /** The loop of the long form, on what follows its first octet. */
  function ParseLong(s: seq<byte>, count: nat): LengthField {
    if count <= |s| then
      var value := FromBigEndian(s[..count]);
      if value < LWORD then Definite(value, count + 1) else Overflow
    else if FromBigEndian(s) < LWORD / 256 then Missing else Overflow
  }

  lemma LongField(s: seq<byte>, field: LengthField)
    requires s != [] && s[0] > 128 && field == ParseLong(s[1..], s[0] - 128)
    ensures field == ParseLength(s)
  {
    if s[0] - 128 < |s| { assert s[1..][..s[0] - 128] == s[1..s[0] - 127]; }
  }

  method DecodeLong(bt: ByteQueue, lengthBytes: nat) returns (field: LengthField)
    requires lengthBytes > 0
    modifies bt
    ensures field == ParseLong(old(bt.contents), lengthBytes)
    ensures field.Definite? ==> lengthBytes <= |old(bt.contents)| && bt.contents == old(bt.contents)[lengthBytes..]
  {
    hide FromBigEndian;
    ghost var s := bt.contents;
    var length: nat, done: nat := 0, 0;
    NothingRead();
    while done < lengthBytes
      invariant done <= lengthBytes && done <= |s| && bt.contents == s[done..]
      invariant length == FromBigEndian(s[..done]) < LWORD
    {
      if length >= LWORD / 256 {
        TooLong(s, done, lengthBytes);
        return Overflow;
      }
      var ok, b := bt.Get();
      if !ok {
        assert s[..done] == s;
        return Missing;
      }
      NextByte(s, done);
      length := length * 256 + b;
      done := done + 1;
    }
    field := Definite(length, lengthBytes + 1);
  }

  lemma NothingRead()
    ensures FromBigEndian([]) == 0
  {
  }

  lemma NextByte(s: seq<byte>, done: nat)
    requires done < |s|
    ensures FromBigEndian(s[..done + 1]) == 256 * FromBigEndian(s[..done]) + s[done]
  {
    assert s[..done + 1][..done] == s[..done];
  }

  /** A prefix of seven significant bytes leaves room for no further one. */
  lemma {:induction false} TooLong(s: seq<byte>, done: nat, count: nat)
    requires done < count && done <= |s| && FromBigEndian(s[..done]) >= LWORD / 256
    ensures ParseLong(s, count) == Overflow
  {
    hide FromBigEndian;
    if done == |s| {
      assert s[..done] == s;
    } else if count <= |s| {
      NextByte(s, done);
      PrefixBelow(s, done + 1, count);
    } else {
      NextByte(s, done);
      PrefixBelow(s, done + 1, |s|);
      assert s[..|s|] == s;
    }
  }

  lemma {:induction false} PrefixBelow(s: seq<byte>, i: nat, j: nat)
    requires i <= j <= |s|
    ensures FromBigEndian(s[..i]) <= FromBigEndian(s[..j])
    decreases j
  {
    hide FromBigEndian;
    if i < j {
      PrefixBelow(s, i, j - 1);
      NextByte(s, j - 1);
    }
  }
}
