/** Counter with CBC-MAC as RFC 3610 defines it: the specification the class in Ccm.dfy meets. */
module Rfc3610 {
  import opened Powers
  import opened Bytes
  import opened BlockChaining
  import opened Options

  /** Tag length M, length-field width L and nonce of 15 - L bytes. */
  datatype Parameters = Parameters(M: nat, L: nat, nonce: seq<byte>)

  predicate Fits(p: Parameters) {
    && p.M % 2 == 0 && 4 <= p.M <= 16
    && 2 <= p.L <= 8 && |p.nonce| == 15 - p.L
  }

  /** The first block, section 2.2. */
  function B0(p: Parameters, hasHeader: bool, messageLength: nat): (r: seq<byte>)
    requires Fits(p)
    ensures |r| == 16
  {
    [(if hasHeader then 64 else 0) + 8 * ((p.M - 2) / 2) + (p.L - 1)] + p.nonce + BigEndian(messageLength, p.L)
  }

  /** The encoding of the header's length that goes in front of it, section 2.2. */
  function HeaderPrefix(length: nat): seq<byte> {
    if length == 0 then []
    else if length < 0xff00 then BigEndian(length, 2)
    else if length < 0x1_0000_0000 then [0xff, 0xfe] + BigEndian(length, 4)
    else [0xff, 0xff] + BigEndian(length, 8)
  }

  /** Zero bytes up to the next multiple of sixteen. */
  function Pad(s: seq<byte>): seq<byte> {
    if Rest(16, s) == [] then s else s + Zeros(16 - |Rest(16, s)|)
  }

  /** The chaining value after all of B_0 .. B_n, whose leading bytes are the tag T. */
  function CbcMac(E: Cipher, p: Parameters, header: seq<byte>, message: seq<byte>): (r: seq<byte>)
    requires IsCipher(E, 16) && Fits(p)
    ensures |r| == 16
  {
    Absorb(E, 16, E(B0(p, header != [], |message|)), Pad(HeaderPrefix(|header|) + header) + Pad(message))
  }

  /** The counter block A_i, section 2.3. */
  function A(p: Parameters, i: nat): (r: seq<byte>)
    requires Fits(p)
    ensures |r| == 16
  {
    [p.L - 1] + p.nonce + BigEndian(i, p.L)
  }

  /** Byte position of the key stream S_0 S_1 S_2 ... */
  function StreamByte(E: Cipher, p: Parameters, position: nat): byte
    requires IsCipher(E, 16) && Fits(p)
  {
    E(A(p, position / 16))[position % 16]
  }

  function Stream(E: Cipher, p: Parameters, position: nat, length: nat): (r: seq<byte>)
    requires IsCipher(E, 16) && Fits(p)
    ensures |r| == length
  {
    seq<byte>(length, i requires 0 <= i < length => StreamByte(E, p, position + i))
  }

  /** The message under the key stream from S_1 on: encryption and decryption alike. */
  function Encrypt(E: Cipher, p: Parameters, message: seq<byte>): (r: seq<byte>)
    requires IsCipher(E, 16) && Fits(p)
    ensures |r| == |message|
  {
    XorBytes(message, Stream(E, p, 16, |message|))
  }

  /** Leading bytes of the last chaining value masked with S_0. */
  function TagBytes(E: Cipher, p: Parameters, header: seq<byte>, message: seq<byte>, size: nat): (r: seq<byte>)
    requires IsCipher(E, 16) && Fits(p) && size <= 16
    ensures |r| == size
  {
    XorBytes(CbcMac(E, p, header, message)[..size], Stream(E, p, 0, size))
  }

  /** The authentication value U: the tag masked with S_0. */
  function Tag(E: Cipher, p: Parameters, header: seq<byte>, message: seq<byte>): (r: seq<byte>)
    requires IsCipher(E, 16) && Fits(p)
    ensures |r| == p.M
  {
    TagBytes(E, p, header, message, p.M)
  }

  lemma TagPrefix(E: Cipher, p: Parameters, header: seq<byte>, message: seq<byte>, size: nat)
    requires IsCipher(E, 16) && Fits(p) && size <= p.M
    ensures TagBytes(E, p, header, message, size) == Tag(E, p, header, message)[..size]
  {
    hide CbcMac, StreamByte, IsCipher;
  }

  lemma EncryptTwice(E: Cipher, p: Parameters, message: seq<byte>)
    requires IsCipher(E, 16) && Fits(p)
    ensures Encrypt(E, p, Encrypt(E, p, message)) == message
  {
    XorBytesCancel(message, Stream(E, p, 16, |message|));
  }

  // ----- padding and chaining

  /** Chaining padded data: the whole blocks, then the zero-filled rest if there is one. */
  lemma AbsorbPadded(E: Cipher, x: seq<byte>, s: seq<byte>)
    requires IsCipher(E, 16) && |x| == 16
    ensures var rest := Rest(16, s);
            && Absorb(E, 16, x, Pad(s)) == (if rest == [] then Absorb(E, 16, x, s)
                 else E(XorBytes(Absorb(E, 16, x, s), rest + Zeros(16 - |rest|))))
            && Rest(16, Pad(s)) == []
  {
    var rest := Rest(16, s);
    if rest != [] {
      var fill := Zeros(16 - |rest|);
      AbsorbAppend(E, 16, x, s, fill);
      RestAppend(16, s, fill);
      AbsorbBlock(E, 16, Absorb(E, 16, x, s), rest + fill);
    }
  }

  /** Header and message are chained one after the other. */
  lemma AbsorbTwoPadded(E: Cipher, x: seq<byte>, s: seq<byte>, t: seq<byte>)
    requires IsCipher(E, 16) && |x| == 16
    ensures Absorb(E, 16, x, Pad(s) + Pad(t)) == Absorb(E, 16, Absorb(E, 16, x, Pad(s)), Pad(t))
  {
    AbsorbPadded(E, x, s);
    AbsorbAppend(E, 16, x, Pad(s), Pad(t));
    assert [] + Pad(t) == Pad(t);
  }

  // ----- the counter of CTR mode

  /** CTR mode's counter block for iteration i: the initial block plus i, as a 128-bit number. */
  function CounterBlock(iv: seq<byte>, i: nat): (r: seq<byte>)
    requires |iv| == 16
    ensures |r| == 16
  {
    BigEndian(FromBigEndian(iv) + i, 16)
  }

  /** Starting from flags, nonce and zeros, the 128-bit counter runs through the A_i as long as i
      fits in the L bytes set aside for it. */
  lemma CounterBlocksAreA(p: Parameters, i: nat)
    requires Fits(p) && i < Pow256(p.L)
    ensures CounterBlock([p.L - 1] + p.nonce + Zeros(p.L), i) == A(p, i)
  {
    CounterFits([p.L - 1] + p.nonce, p.L, i);
  }

  /** Adding a number that fits into the zeroed low bytes writes it there. */
  lemma CounterFits(front: seq<byte>, L: nat, i: nat)
    requires |front| + L == 16 && i < Pow256(L)
    ensures CounterBlock(front + Zeros(L), i) == front + BigEndian(i, L)
  {
    hide FromBigEndian, BigEndian, Pow256;
    FromBigEndianAppend(front, Zeros(L));
    FromBigEndianAppend(front, BigEndian(i, L));
    ZerosAreZero(L);
    BigEndianReads(i, L);
    BigEndianWrites(front + BigEndian(i, L));
  }

  lemma {:induction false} ZerosAreZero(n: nat)
    ensures FromBigEndian(Zeros(n)) == 0
  {
    if n > 0 {
      assert Zeros(n)[..n - 1] == Zeros(n - 1);
      ZerosAreZero(n - 1);
    }
  }

  // ----- the formats, read back

  /** A header's length off the front of a string by the table of section 2.2: two octets below 0xff00,
      four after ff fe, eight after ff ff. */
  function ReadHeaderLength(s: seq<byte>): Option<(nat, nat)> {
    if |s| < 2 || (s[0] == 0 && s[1] == 0) then None
    else if s[0] < 0xff then Some((256 * (s[0] as int) + s[1], 2))
    else if s[1] == 0xfe && |s| >= 6 then Some((FromBigEndian(s[2..6]), 6))
    else if s[1] == 0xff && |s| >= 10 then Some((FromBigEndian(s[2..10]), 10))
    else None
  }

  /** The prefix tells the header's length and where the header begins, whatever it is. */
  lemma PrefixReads(n: nat, header: seq<byte>)
    requires 0 < n < LWORD
    ensures ReadHeaderLength(HeaderPrefix(n) + header) == Some((n, |HeaderPrefix(n)|))
  {
    var s := HeaderPrefix(n) + header;
    if n < 0xff00 {
      TwoBytes(n);
    } else if n < 0x1_0000_0000 {
      hide BigEndian, FromBigEndian;
      assert s[2..6] == BigEndian(n, 4);
      WideEnough();
      BigEndianReads(n, 4);
    } else {
      hide BigEndian, FromBigEndian;
      assert s[2..10] == BigEndian(n, 8);
      Pow256OfEight();
      BigEndianReads(n, 8);
    }
  }

  lemma TwoBytes(n: nat)
    requires n < 0x10000
    ensures BigEndian(n, 2) == [n / 256, n % 256]
  {
    assert BigEndian(n / 256, 1) == [n / 256 % 256] by { assert BigEndian(n / 256 / 256, 0) == []; }
  }

  lemma WideEnough()
    ensures Pow256(4) == 0x1_0000_0000
  {
    assert Pow256(2) == 0x10000;
  }

  /** Two octets below 0xff00, six starting ff fe below 2^32, ten starting ff ff above, and none for no
      header. */
  lemma PrefixForm(n: nat)
    requires n < LWORD
    ensures var s := HeaderPrefix(n);
      && (n == 0 ==> s == [])
      && (0 < n < 0xff00 ==> |s| == 2 && FromBigEndian(s) == n)
      && (0xff00 <= n < 0x1_0000_0000 ==> |s| == 6 && s[..2] == [0xff, 0xfe] && FromBigEndian(s[2..]) == n)
      && (0x1_0000_0000 <= n ==> |s| == 10 && s[..2] == [0xff, 0xff] && FromBigEndian(s[2..]) == n)
  {
    hide BigEndian, FromBigEndian;
    assert Pow256(2) == 0x10000;
    WideEnough();
    Pow256OfEight();
    if n < 0xff00 {
      BigEndianReads(n, 2);
    } else {
      var count := if n < 0x1_0000_0000 then 4 else 8;
      BigEndianReads(n, count);
      assert HeaderPrefix(n)[2..] == BigEndian(n, count);
    }
  }

  /** The fields of B_0: bit 6 for a header, three bits each for the tag's and the length field's size,
      then nonce and length. */
  lemma B0Form(p: Parameters, hasHeader: bool, messageLength: nat)
    requires Fits(p) && messageLength < Pow256(p.L)
    ensures var s := B0(p, hasHeader, messageLength);
      && s[0] / 64 == (if hasHeader then 1 else 0) && 2 * (s[0] % 64 / 8) + 2 == p.M && s[0] % 8 + 1 == p.L
      && s[1..16 - p.L] == p.nonce && FromBigEndian(s[16 - p.L..]) == messageLength
  {
    hide BigEndian, FromBigEndian, Pow256;
    var s := B0(p, hasHeader, messageLength);
    assert s[16 - p.L..] == BigEndian(messageLength, p.L);
    BigEndianReads(messageLength, p.L);
  }

  /** The fields of A_i. */
  lemma AForm(p: Parameters, i: nat)
    requires Fits(p) && i < Pow256(p.L)
    ensures var s := A(p, i); s[0] + 1 == p.L && s[1..16 - p.L] == p.nonce && FromBigEndian(s[16 - p.L..]) == i
  {
    hide BigEndian, FromBigEndian, Pow256;
    assert A(p, i)[16 - p.L..] == BigEndian(i, p.L);
    BigEndianReads(i, p.L);
  }

  /** Packet vector 1 of section 8: B_0, the header's length in front, and the first counter block. */
  lemma PacketVectorOne()
    ensures var p := Parameters(8, 2, [0, 0, 0, 3, 2, 1, 0, 0xa0, 0xa1, 0xa2, 0xa3, 0xa4, 0xa5]);
      && B0(p, true, 23) == [0x59, 0, 0, 0, 3, 2, 1, 0, 0xa0, 0xa1, 0xa2, 0xa3, 0xa4, 0xa5, 0, 0x17]
      && HeaderPrefix(8) == [0, 8]
      && A(p, 1) == [1, 0, 0, 0, 3, 2, 1, 0, 0xa0, 0xa1, 0xa2, 0xa3, 0xa4, 0xa5, 0, 1]
  {
    TwoBytes(23);
    TwoBytes(8);
    TwoBytes(1);
    hide BigEndian;
  }

  /** Padding keeps the string and adds fewer than sixteen zeros up to a multiple of sixteen. */
  lemma PadForm(s: seq<byte>)
    ensures |s| <= |Pad(s)| < |s| + 16 && |Pad(s)| % 16 == 0 && Pad(s)[..|s|] == s
    ensures forall i :: |s| <= i < |Pad(s)| ==> Pad(s)[i] == 0
  {
    RestModulo(16, s);
    hide Rest;
  }

  // ----- the chain and the key stream, block by block

  /** The chaining value is CBC over B_0 and the padded header and message, from zero. */
  lemma CbcMacFromZero(E: Cipher, p: Parameters, header: seq<byte>, message: seq<byte>)
    requires IsCipher(E, 16) && Fits(p)
    ensures CbcMac(E, p, header, message)
         == Absorb(E, 16, Zeros(16), B0(p, header != [], |message|) + (Pad(HeaderPrefix(|header|) + header) + Pad(message)))
  {
    hide Absorb, Pad, HeaderPrefix, B0;
    var b0 := B0(p, header != [], |message|);
    AbsorbFirst(E, 16, Zeros(16), b0, Pad(HeaderPrefix(|header|) + header) + Pad(message));
    XorBytesFromZeros(b0);
  }

  /** Sixteen bytes of key stream are S_i, the enciphered A_i. */
  lemma StreamBlock(E: Cipher, p: Parameters, i: nat)
    requires IsCipher(E, 16) && Fits(p)
    ensures Stream(E, p, 16 * i, 16) == E(A(p, i))
  {
    hide A;
    CipherLength(E, 16, A(p, i));
    forall k | 0 <= k < 16
      ensures Stream(E, p, 16 * i, 16)[k] == E(A(p, i))[k]
    {
      assert (16 * i + k) / 16 == i && (16 * i + k) % 16 == k;
      assert StreamByte(E, p, 16 * i + k) == E(A(p, i))[k];
    }
  }

  /** Byte k of the message meets byte k % 16 of S_(k/16 + 1): S_0 is kept for the tag. */
  lemma EncryptedByte(E: Cipher, p: Parameters, message: seq<byte>, k: nat)
    requires IsCipher(E, 16) && Fits(p) && k < |message|
    ensures |E(A(p, k / 16 + 1))| == 16 && Encrypt(E, p, message)[k] == XorByte(message[k], E(A(p, k / 16 + 1))[k % 16])
  {
    hide A, XorByte;
    CipherLength(E, 16, A(p, k / 16 + 1));
    assert (16 + k) / 16 == k / 16 + 1 && (16 + k) % 16 == k % 16;
  }

  /** Taking S_0 off again leaves the leading bytes of the chaining value. */
  lemma TagUnmasked(E: Cipher, p: Parameters, header: seq<byte>, message: seq<byte>)
    requires IsCipher(E, 16) && Fits(p)
    ensures |E(A(p, 0))| == 16
    ensures XorBytes(Tag(E, p, header, message), E(A(p, 0))[..p.M]) == CbcMac(E, p, header, message)[..p.M]
  {
    hide A, CbcMac, XorBytes, StreamByte;
    CipherLength(E, 16, A(p, 0));
    StreamBlock(E, p, 0);
    assert Stream(E, p, 0, p.M) == Stream(E, p, 0, 16)[..p.M];
    XorBytesCancel(CbcMac(E, p, header, message)[..p.M], Stream(E, p, 0, p.M));
  }
}
