/** CCM on the authenticated-cipher state machine: ccm.cpp over authenc.cpp, with the one-call forms
    of cryptlib.cpp. The object is fed in any chunks; its ghost fields record the whole strings. */
module Ccm {
  import opened Powers
  import opened Bytes
  import opened BlockChaining
  import opened Rfc3610
  import opened Options

  datatype State = Start | KeySet | IVSet | AuthUntransformed | AuthTransformed | AuthFooter

  datatype Outcome = Ok | BadState | InvalidArgument

  function Min(a: nat, b: nat): nat {
    if a < b then a else b
  }

  /** MaxMessageLength(). */
  function MaxMessageLength(L: nat): nat {
    if L < 8 then Pow256(L) - 1 else LWORD - 1
  }

  /** Key stream of CTR mode from byte position on, by the 128-bit counter. */
  function CtrByte(E: Cipher, iv: seq<byte>, position: nat): byte
    requires IsCipher(E, 16) && |iv| == 16
  {
    E(CounterBlock(iv, position / 16))[position % 16]
  }

  function CtrStream(E: Cipher, iv: seq<byte>, position: nat, length: nat): (r: seq<byte>)
    requires IsCipher(E, 16) && |iv| == 16
    ensures |r| == length
  {
    seq<byte>(length, i requires 0 <= i < length => CtrByte(E, iv, position + i))
  }

  /** The counter block Resync sets up. */
  function InitialCounter(p: Parameters): (r: seq<byte>)
    requires Fits(p)
    ensures |r| == 16
  {
    [p.L - 1] + p.nonce + Zeros(p.L)
  }

  /** Within the length limit CTR mode's key stream is the one of section 2.3 of RFC 3610. */
  lemma CtrStreamIsStream(E: Cipher, p: Parameters, position: nat, length: nat)
    requires IsCipher(E, 16) && Fits(p) && position + length <= 16 + MaxMessageLength(p.L)
    ensures CtrStream(E, InitialCounter(p), position, length) == Stream(E, p, position, length)
  {
    hide StreamByte, CtrByte, InitialCounter;
    forall i | 0 <= i < length
      ensures CtrStream(E, InitialCounter(p), position, length)[i] == Stream(E, p, position, length)[i]
    {
      CtrByteIsStreamByte(E, p, position + i);
    }
  }

  lemma CtrByteIsStreamByte(E: Cipher, p: Parameters, position: nat)
    requires IsCipher(E, 16) && Fits(p) && position < 16 + MaxMessageLength(p.L)
    ensures CtrByte(E, InitialCounter(p), position) == StreamByte(E, p, position)
  {
    hide CounterBlock, A;
    BlockIndexFits(p.L, position);
    CounterBlocksAreA(p, position / 16);
  }

  lemma BlockIndexFits(L: nat, position: nat)
    requires 2 <= L <= 8 && position < 16 + MaxMessageLength(L)
    ensures position / 16 < Pow256(L)
  {
    assert Pow256(L) == 256 * (256 * Pow256(L - 2));
    if L == 8 { Pow256OfEight(); }
  }

  /** The length field's L bytes hold every message length up to the limit and no larger one. */
  lemma MaxMessageLengthFills(L: nat)
    requires L <= 8
    ensures MaxMessageLength(L) + 1 == Pow256(L)
  {
    Pow256OfEight();
  }

  lemma MaxBelowWord(L: nat)
    requires L <= 8
    ensures MaxMessageLength(L) < LWORD
  {
    Pow256OfEight();
    if L < 8 { Pow256Monotone(L, 8); }
  }

  /** Two stretches of masked data are one. */
  lemma MaskedAppend(E: Cipher, p: Parameters, position: nat, a: seq<byte>, b: seq<byte>)
    requires IsCipher(E, 16) && Fits(p)
    ensures XorBytes(a, Stream(E, p, position, |a|)) + XorBytes(b, Stream(E, p, position + |a|, |b|))
         == XorBytes(a + b, Stream(E, p, position, |a + b|))
  {
    hide StreamByte;
  }

  class CCM {
    const forward: bool
    var E: Cipher
    var m_state: State
    var m_bufferedDataLength: nat
    var m_totalHeaderLength: nat
    var m_totalMessageLength: nat
    var m_totalFooterLength: nat
    const m_buffer: array<byte>
    var m_digestSize: nat
    var m_L: nat
    var m_messageLength: nat
    var m_aadLength: nat
    var ctrIv: seq<byte>
    var ctrPosition: nat

    ghost var nonce: seq<byte>
    /** Everything given to Update, and the plaintext side of everything given to ProcessData. */
    ghost var header: seq<byte>
    ghost var message: seq<byte>
    /** The lengths have been declared, exactly once and before any data, and nothing has thrown. */
    ghost var declared: bool
    ghost var proper: bool
    /** What the chaining register started from, and the data chained since. */
    ghost var origin: seq<byte>
    ghost var chained: seq<byte>

    ghost function Params(): Parameters
      reads this
    {
      Parameters(m_digestSize, m_L, nonce)
    }

    predicate AfterIV()
      reads this
    {
      m_state != Start && m_state != KeySet
    }

    predicate InMessage()
      reads this
    {
      m_state == AuthUntransformed || m_state == AuthTransformed
    }

    ghost predicate Keyed()
      reads this
    {
      && m_buffer.Length == 32
      && (m_state != Start ==> IsCipher(E, 16) && m_digestSize % 2 == 0 && 4 <= m_digestSize <= 16)
    }

    /** CBC_Buffer() holds the chain over the whole blocks, m_buffer the unfinished block. */
    ghost predicate Chains(x: seq<byte>, data: seq<byte>)
      reads this, m_buffer
    {
      && m_buffer.Length == 32 && IsCipher(E, 16) && |x| == 16
      && m_bufferedDataLength == |Rest(16, data)| && m_buffer[..m_bufferedDataLength] == Rest(16, data)
      && m_buffer[16..] == Absorb(E, 16, x, data)
    }

    /** While the header comes in: what has been chained under B_0. */
    ghost predicate HeaderPhase()
      reads this
    {
      && IsCipher(E, 16) && Fits(Params())
      && m_totalHeaderLength == |header| % LWORD && m_totalFooterLength == 0 && message == []
      && origin == E(B0(Params(), m_aadLength > 0, m_messageLength)) && chained == HeaderPrefix(m_aadLength) + header
    }

    /** While the message comes in: the padded header has been chained, the plaintext follows. */
    ghost predicate MessagePhase()
      reads this
    {
      && IsCipher(E, 16) && Fits(Params())
      && m_totalHeaderLength == m_aadLength == |header| % LWORD && m_totalFooterLength == 0 && chained == message
      && origin == Absorb(E, 16, E(B0(Params(), m_aadLength > 0, m_messageLength)), Pad(HeaderPrefix(m_aadLength) + header))
    }

    /** What the chain means when the caller has kept to the protocol. */
    ghost predicate Follows()
      reads this, m_buffer
    {
      && m_totalMessageLength == |message| % LWORD
      && (m_state == IVSet && !declared ==> NothingSent() && chained == [] && m_buffer.Length == 32 && 2 <= m_L <= 8 && m_buffer[1..16 - m_L] == nonce)
      && (m_state == IVSet && declared ==> HeaderPhase())
      && (InMessage() ==> declared && MessagePhase())
      && m_state != AuthFooter
    }

    ghost predicate Valid()
      reads this, m_buffer
    {
      && Keyed()
      && (AfterIV() ==>
            && Fits(Params()) && ctrIv == InitialCounter(Params()) && ctrPosition == 16 + |message|
            && Chains(origin, chained)
            && (InMessage() ==> m_state == if forward then AuthUntransformed else AuthTransformed)
            && (proper ==> Follows()))
    }

    constructor (forward: bool)
      ensures Valid() && m_state == Start && this.forward == forward && fresh(m_buffer)
    {
      this.forward := forward;
      m_state, m_bufferedDataLength := Start, 0;
      m_totalHeaderLength, m_totalMessageLength, m_totalFooterLength := 0, 0, 0;
      m_digestSize, m_L, m_messageLength, m_aadLength := 0, 0, 0, 0;
      m_buffer := new byte[32](_ => 0);
      ctrIv, ctrPosition := [], 0;
      E := s => s;
    }

    /** SetKeyWithoutResync with a keyed block cipher and a digest size. */
    method SetKeyWithoutResync(cipher: Cipher, blockSize: nat, digestSize: nat) returns (outcome: Outcome)
      requires Valid() && m_state == Start && IsCipher(cipher, blockSize)
      modifies this`E, this`m_digestSize, this`m_L
      ensures Valid() && E == cipher
      ensures outcome == if blockSize == 16 && digestSize % 2 == 0 && 4 <= digestSize <= 16 then Ok else InvalidArgument
      ensures outcome == Ok ==> m_digestSize == digestSize
    {
      E := cipher;
      if blockSize != 16 { return InvalidArgument; }
      m_digestSize := digestSize;
      if m_digestSize % 2 > 0 || m_digestSize < 4 || m_digestSize > 16 {
        return InvalidArgument;
      }
      m_L := 8;
      outcome := Ok;
    }

    /** SetKey, perhaps with a nonce among the parameters. */
    method SetKey(cipher: Cipher, blockSize: nat, digestSize: nat, iv: Option<seq<byte>>) returns (outcome: Outcome)
      requires Valid() && IsCipher(cipher, blockSize)
      modifies this, m_buffer
      ensures Valid()
      ensures outcome == if blockSize == 16 && digestSize % 2 == 0 && 4 <= digestSize <= 16 && (iv.None? || 7 <= |iv.value| <= 13) then Ok else InvalidArgument
      ensures outcome == Ok ==> Unchanged(cipher, digestSize)
      ensures outcome == Ok ==> if iv.None? then m_state == KeySet else m_state == IVSet && Fresh(iv.value)
    {
      hide Fresh;
      m_bufferedDataLength := 0;
      m_state := Start;
      outcome := SetKeyWithoutResync(cipher, blockSize, digestSize);
      if outcome != Ok { return; }
      m_state := KeySet;
      if iv.Some? {
        outcome := Resynchronize(iv.value);
      }
    }

    /** memcpy into the buffer. */
    method Put(at: nat, data: seq<byte>)
      requires at + |data| <= m_buffer.Length
      modifies m_buffer
      ensures m_buffer[..] == old(m_buffer[..at]) + data + old(m_buffer[at + |data|..])
    {
      forall i | 0 <= i < |data| { m_buffer[at + i] := data[i]; }
    }

    /** CCM_Base::Resync: the initial counter block into the buffer and into CTR mode. */
    method Resync(iv: seq<byte>)
      requires 7 <= |iv| <= 13 && Keyed() && m_state != Start
      modifies this`m_L, this`ctrIv, this`ctrPosition, this`m_aadLength, this`m_messageLength, m_buffer
      ensures m_L == 15 - |iv| && ctrPosition == 16 && m_aadLength == m_messageLength == 0
      ensures var p := Parameters(m_digestSize, m_L, iv); Fits(p) && ctrIv == InitialCounter(p)
      ensures m_buffer[1..16 - m_L] == iv
    {
      hide IsCipher, Zeros;
      m_L := Min(15 - |iv|, 8);
      var block := [m_L - 1] + iv + Zeros(15 - |iv|);
      Put(0, block);
      assert m_buffer[..16] == block && m_buffer[1..16 - m_L] == block[1..16 - m_L] == iv;
      m_aadLength, m_messageLength := 0, 0;
      ctrIv := m_buffer[..16];
      ctrPosition := 16;
    }

    lemma ValidKeyed()
      requires Valid()
      ensures Keyed()
    {
    }

    lemma KeyedValid()
      requires Keyed() && !AfterIV()
      ensures Valid()
    {
    }

    lemma SessionStarts()
      requires Keyed() && m_state == IVSet && Fits(Params()) && ctrIv == InitialCounter(Params()) && ctrPosition == 16
      requires header == [] && message == [] && !declared && chained == [] && m_bufferedDataLength == 0
      requires m_totalHeaderLength == m_totalMessageLength == m_totalFooterLength == 0
      requires origin == m_buffer[16..] && m_buffer[1..16 - m_L] == nonce
      ensures Valid()
    {
      hide B0, Pad, HeaderPrefix, InitialCounter;
      NothingChained(E, m_buffer[16..]);
    }

    /** The end of Resynchronize: the nonce is loaded and the record of this message begins. */
    method Begin(iv: seq<byte>)
      requires Keyed() && m_state == KeySet && 7 <= |iv| <= 13 && m_bufferedDataLength == 0
      requires m_totalHeaderLength == m_totalMessageLength == m_totalFooterLength == 0
      modifies this, m_buffer
      ensures Valid() && Unchanged(old(E), old(m_digestSize))
      ensures m_state == IVSet && Fresh(iv)
    {
      hide IsCipher, Valid, Fits, InitialCounter;
      Resync(iv);
      m_state, nonce := IVSet, iv;
      StartRecord();
    }

    /** The record of a message that has just begun. */
    ghost method StartRecord()
      requires Keyed() && m_state == IVSet && m_bufferedDataLength == 0 && ctrPosition == 16
      requires m_totalHeaderLength == m_totalMessageLength == m_totalFooterLength == 0
      requires Fits(Params()) && ctrIv == InitialCounter(Params()) && m_buffer[1..16 - m_L] == nonce
      modifies this`header, this`message, this`declared, this`proper, this`origin, this`chained
      ensures Valid() && Fresh(nonce)
    {
      hide IsCipher, Valid, InitialCounter, Fits;
      assert |nonce| == 15 - m_L && 2 <= m_L <= 8 by { FitsLengths(Params()); }
      header, message, declared, proper, origin, chained := [], [], false, true, m_buffer[16..], [];
      SessionStarts();
    }

    ghost predicate Unchanged(e: Cipher, digestSize: nat)
      reads this
    {
      E == e && m_digestSize == digestSize
    }

    /** A message has just begun under this nonce. */
    ghost predicate Fresh(iv: seq<byte>)
      reads this
    {
      proper && !declared && header == [] && message == [] && nonce == iv && m_L == 15 - |iv|
    }

    /** Resynchronize: a new nonce of 7 to 13 bytes. */
    method Resynchronize(iv: seq<byte>) returns (outcome: Outcome)
      requires Valid()
      modifies this, m_buffer
      ensures Valid() && Unchanged(old(E), old(m_digestSize))
      ensures outcome == if old(m_state) == Start then BadState else if 7 <= |iv| <= 13 then Ok else InvalidArgument
      ensures outcome == Ok ==> m_state == IVSet && Fresh(iv)
    {
      hide IsCipher, Valid, Fresh;
      if m_state == Start { return BadState; }
      ValidKeyed();
      m_bufferedDataLength, m_state := 0, KeySet;
      m_totalHeaderLength, m_totalMessageLength, m_totalFooterLength := 0, 0, 0;
      if 7 <= |iv| <= 13 {
        Begin(iv);
        return Ok;
      }
      KeyedValid();
      outcome := InvalidArgument;
    }

    // ----- the chain

    /** AuthenticateBlocks: whole blocks into the chaining register. */
    method AuthenticateBlocks(data: seq<byte>) returns (leftOver: nat)
      requires Keyed() && m_state != Start
      modifies m_buffer
      ensures m_buffer[16..] == Absorb(E, 16, old(m_buffer[16..]), data) && m_buffer[..16] == old(m_buffer[..16])
      ensures leftOver == |Rest(16, data)| && leftOver <= |data| && data[|data| - leftOver..] == Rest(16, data)
    {
      hide Absorb, Rest, IsCipher;
      var result;
      result, leftOver := AdvancedProcessBlocks(E, 16, m_buffer[16..], data);
      ghost var front := m_buffer[..16];
      Put(16, result);
      assert m_buffer[..16] == front && m_buffer[16..] == result;
    }

    /** AuthenticateData: completes the buffered block, chains whole blocks, buffers the rest. */
    method AuthenticateData(input: seq<byte>, ghost x: seq<byte>, ghost data: seq<byte>)
      requires Keyed() && m_state != Start && Chains(x, data)
      modifies this`m_bufferedDataLength, m_buffer
      ensures Chains(x, data + input)
    {
      hide Absorb, Rest, IsCipher;
      AbsorbAppend(E, 16, x, data, input);
      RestAppend(16, data, input);
      ghost var held := Rest(16, data);
      var rest := input;
      var num := m_bufferedDataLength;
      if num != 0 {
        if num + |rest| >= 16 {
          AbsorbCompleted(E, 16, m_buffer[16..], held, input);
          Put(num, rest[..16 - num]);
          assert m_buffer[..16] == held + input[..16 - num] && m_buffer[16..] == old(m_buffer[16..]);
          AbsorbBlock(E, 16, m_buffer[16..], m_buffer[..16]);
          var _ := AuthenticateBlocks(m_buffer[..16]);
          rest := rest[16 - num..];
          num := 0;
        } else {
          ShortStays(E, m_buffer[16..], held + input);
          Put(num, rest);
          assert m_buffer[..num + |rest|] == held + input && m_buffer[16..] == old(m_buffer[16..]);
          m_bufferedDataLength := num + |rest|;
          return;
        }
      } else {
        assert held + input == input;
      }
      FinishData(rest, x, data + input);
    }

    /** The second half of AuthenticateData, with nothing buffered. */
    method FinishData(input: seq<byte>, ghost x: seq<byte>, ghost total: seq<byte>)
      requires Keyed() && m_state != Start && |x| == 16
      requires Absorb(E, 16, m_buffer[16..], input) == Absorb(E, 16, x, total) && Rest(16, input) == Rest(16, total)
      modifies this`m_bufferedDataLength, m_buffer
      ensures Chains(x, total)
    {
      hide Absorb, Rest, IsCipher;
      var rest := input;
      if |rest| >= 16 {
        var leftOver := AuthenticateBlocks(rest);
        rest := rest[|rest| - leftOver..];
      } else {
        ShortStays(E, m_buffer[16..], rest);
      }
      ghost var register := m_buffer[16..];
      Put(0, rest);
      assert m_buffer[16..] == register && m_buffer[..|rest|] == rest;
      m_bufferedDataLength := |rest|;
    }

    /** AuthenticateLastHeaderBlock and AuthenticateLastConfidentialBlock past their length check:
        the unfinished block is chained as if zero-padded. */
    method AuthenticateLastBlock(ghost x: seq<byte>, ghost data: seq<byte>)
      requires Keyed() && m_state != Start && Chains(x, data)
      modifies this`m_bufferedDataLength, m_buffer
      ensures m_bufferedDataLength == 0 && m_buffer[16..] == Absorb(E, 16, x, Pad(data))
    {
      hide Absorb, Rest, IsCipher;
      AbsorbPadded(E, x, data);
      if m_bufferedDataLength > 0 {
        var padded := m_buffer[..m_bufferedDataLength] + Zeros(16 - m_bufferedDataLength);
        CipherLength(E, 16, XorBytes(m_buffer[16..], padded));
        Put(16, E(XorBytes(m_buffer[16..], padded)));
        m_bufferedDataLength := 0;
      }
    }
  
    // ----- declaring the lengths

    /** The formatting of B_0 in place: length word first, nonce over its unused front. */
    method FormatB0(headerLength: nat, messageLength: nat)
      requires Keyed() && Fits(Params())
      modifies m_buffer
      ensures m_buffer[..16] == old(m_buffer[..16])
      ensures m_buffer[16..] == [Flags(headerLength > 0)] + old(m_buffer[1..16 - m_L]) + BigEndian(messageLength, m_L)
    {
      hide IsCipher, BigEndian;
      ghost var before := m_buffer[..];
      Put(16, [Flags(headerLength > 0)]);
      ghost var flagged := m_buffer[..];
      Put(24, BigEndian(messageLength, 8));
      ghost var worded := m_buffer[..];
      Put(17, m_buffer[1..16 - m_L]);
      BigEndianSuffix(messageLength, 8, m_L);
      LayB0(before, flagged, worded, m_buffer[..], Flags(headerLength > 0), BigEndian(messageLength, 8), m_L);
    }

    function Flags(hasHeader: bool): byte
      requires Fits(Params())
      reads this
    {
      (if hasHeader then 64 else 0) + 8 * ((m_digestSize - 2) / 2) + (m_L - 1)
    }

    /** The header's length in front of the header, in 2, 6 or 10 bytes. */
    method PutHeaderPrefix(headerLength: nat)
      requires m_buffer.Length == 32 && 0 < headerLength
      modifies this`m_bufferedDataLength, m_buffer
      ensures m_buffer[16..] == old(m_buffer[16..])
      ensures m_bufferedDataLength == |HeaderPrefix(headerLength)| < 16 && m_buffer[..m_bufferedDataLength] == HeaderPrefix(headerLength)
    {
      hide BigEndian;
      ghost var before := m_buffer[..];
      if headerLength < 0xff00 {
        Put(0, BigEndian(headerLength, 2));
        m_bufferedDataLength := 2;
      } else if headerLength < 0x1_0000_0000 {
        Put(0, [0xff, 0xfe] + BigEndian(headerLength, 4));
        m_bufferedDataLength := 6;
      } else {
        Put(0, [0xff, 0xff] + BigEndian(headerLength, 8));
        m_bufferedDataLength := 10;
      }
      assert m_buffer[16..] == before[16..];
    }

    lemma OpenIVSet()
      requires Valid() && m_state == IVSet
      ensures Keyed() && Session() && Chains(origin, chained)
      ensures proper && !declared ==> NothingSent() && m_bufferedDataLength == 0 && m_buffer[1..16 - m_L] == nonce
    {
      hide B0, Pad, HeaderPrefix, InitialCounter, CounterBlock, Absorb;
    }

    /** The parts of Valid that no method changes once the nonce is set. */
    ghost predicate Session()
      reads this
    {
      Fits(Params()) && ctrIv == InitialCounter(Params()) && ctrPosition == 16 + |message|
    }

    ghost predicate NothingSent()
      reads this
    {
      header == [] && message == [] && m_totalHeaderLength == m_totalMessageLength == m_totalFooterLength == 0
    }

    lemma RestShort()
      requires Chains(origin, chained)
      ensures m_bufferedDataLength < 16
    {
    }

    lemma Declared()
      requires Keyed() && Session() && Chains(origin, chained) && m_state == IVSet && declared
      requires proper ==> NothingSent() && origin == E(B0(Params(), m_aadLength > 0, m_messageLength)) && chained == HeaderPrefix(m_aadLength)
      ensures Valid()
    {
      hide B0, Pad, HeaderPrefix, InitialCounter, Chains;
      assert HeaderPrefix(m_aadLength) + [] == HeaderPrefix(m_aadLength);
    }

    /** SpecifyDataLengths, required once between the nonce and the data. */
    method SpecifyDataLengths(headerLength: nat, messageLength: nat) returns (outcome: Outcome)
      requires Valid() && headerLength < LWORD && messageLength < LWORD
      modifies this, m_buffer
      ensures Valid() && Unchanged(old(E), old(m_digestSize)) && m_state == old(m_state)
      ensures outcome == if messageLength > MaxMessageLength(old(m_L)) then InvalidArgument
                         else if old(m_state) != IVSet then BadState else Ok
      ensures header == old(header) && message == old(message) && nonce == old(nonce) && m_L == old(m_L)
      ensures outcome == Ok ==> declared && proper == old(proper && !declared) && m_aadLength == headerLength && m_messageLength == messageLength
      ensures outcome == Ok ==> Restarts(old(InPlaceB0(headerLength, messageLength)), headerLength, old(m_buffer[..]), old(m_bufferedDataLength))
    {
      hide IsCipher, Valid, Fits, InitialCounter, B0, HeaderPrefix, MaxMessageLength, InPlaceB0;
      if messageLength > MaxMessageLength(m_L) { return InvalidArgument; }
      if m_state != IVSet { return BadState; }
      OpenIVSet();
      RestShort();
      Declare(headerLength, messageLength);
      RecordDeclaration();
      outcome := Ok;
    }

    /** B_0 as the stores lay it out, from whatever the buffer holds where the nonce was loaded. */
    ghost function InPlaceB0(headerLength: nat, messageLength: nat): seq<byte>
      reads this, m_buffer
    {
      if m_buffer.Length == 32 && Fits(Params())
      then [Flags(headerLength > 0)] + m_buffer[1..16 - m_L] + BigEndian(messageLength, m_L) else []
    }

    /** The chain starts over from that block, behind the length of the header, or behind the bytes left
        in the buffer if there is no header. */
    ghost predicate Restarts(block: seq<byte>, headerLength: nat, buffer: seq<byte>, left: nat)
      reads this
    {
      && origin == E(block) && left <= |buffer|
      && chained == if headerLength > 0 then HeaderPrefix(headerLength) else buffer[..left]
    }

    /** B_0 formatted and enciphered in place. */
    method ChainB0(headerLength: nat, messageLength: nat)
      requires Keyed() && m_state != Start && Fits(Params())
      modifies m_buffer
      ensures m_buffer[..16] == old(m_buffer[..16]) && |m_buffer[16..]| == 16
      ensures m_buffer[16..] == E(old(InPlaceB0(headerLength, messageLength)))
      ensures old(m_buffer[1..16 - m_L]) == nonce ==> m_buffer[16..] == E(B0(Params(), headerLength > 0, messageLength))
    {
      hide IsCipher, B0, BigEndian;
      FormatB0(headerLength, messageLength);
      ghost var block := m_buffer[16..];
      if old(m_buffer[1..16 - m_L]) == nonce { B0Bytes(Params(), headerLength > 0, messageLength, block); }
      CipherLength(E, 16, block);
      ghost var front := m_buffer[..16];
      Put(16, E(m_buffer[16..]));
      assert m_buffer[16..] == E(block) && m_buffer[..16] == front;
    }

    /** UncheckedSpecifyDataLengths past its state check. */
    method Declare(headerLength: nat, messageLength: nat)
      requires Keyed() && m_state != Start && Fits(Params()) && m_bufferedDataLength < 16
      modifies this`m_aadLength, this`m_messageLength, this`m_bufferedDataLength, m_buffer
      ensures m_aadLength == headerLength && m_messageLength == messageLength && m_bufferedDataLength < 16
      ensures m_buffer[16..] == E(old(InPlaceB0(headerLength, messageLength)))
      ensures m_buffer[..m_bufferedDataLength] == if headerLength > 0 then HeaderPrefix(headerLength) else old(m_buffer[..m_bufferedDataLength])
      ensures old(m_bufferedDataLength == 0 && m_buffer[1..16 - m_L] == nonce) ==>
        m_buffer[16..] == E(B0(Params(), m_aadLength > 0, m_messageLength)) && m_buffer[..m_bufferedDataLength] == HeaderPrefix(m_aadLength)
    {
      hide IsCipher, B0, HeaderPrefix, Fits, InPlaceB0;
      ghost var front := m_buffer[..16];
      ChainB0(headerLength, messageLength);
      m_aadLength, m_messageLength := headerLength, messageLength;
      if headerLength > 0 {
        PutHeaderPrefix(headerLength);
      } else {
        EmptyPrefix();
        assert m_buffer[..m_bufferedDataLength] == front[..m_bufferedDataLength];
      }
    }

    /** The record of the declaration. */
    ghost method RecordDeclaration()
      requires Keyed() && m_state == IVSet && Session() && m_bufferedDataLength < 16
      requires proper && !declared ==> NothingSent()
      requires proper && !declared ==> m_buffer[16..] == E(B0(Params(), m_aadLength > 0, m_messageLength))
      requires proper && !declared ==> m_buffer[..m_bufferedDataLength] == HeaderPrefix(m_aadLength)
      modifies this`proper, this`declared, this`origin, this`chained
      ensures Valid() && declared && proper == old(proper && !declared)
      ensures origin == m_buffer[16..] && chained == m_buffer[..m_bufferedDataLength]
    {
      hide IsCipher, Valid, InitialCounter, B0, HeaderPrefix, Chains, Fits;
      proper, declared, origin, chained := proper && !declared, true, m_buffer[16..], m_buffer[..m_bufferedDataLength];
      ShortChains();
      Declared();
    }

    lemma ShortChains()
      requires Keyed() && m_state != Start && m_bufferedDataLength < 16
      ensures Chains(m_buffer[16..], m_buffer[..m_bufferedDataLength])
    {
      ShortStays(E, m_buffer[16..], m_buffer[..m_bufferedDataLength]);
    }

    // ----- header, message and footer

    /** What a data call leaves alone. */
    ghost predicate SameSession(e: Cipher, p: Parameters, headerLength: nat, messageLength: nat)
      reads this
    {
      E == e && Params() == p && m_aadLength == headerLength && m_messageLength == messageLength
    }

    lemma OpenHeaderPhase()
      requires Valid() && m_state == IVSet && proper && declared
      ensures HeaderPhase() && m_totalMessageLength == 0 && message == []
    {
      hide B0, HeaderPrefix, InitialCounter, Absorb, Fits, IsCipher, HeaderPhase;
      assert HeaderPhase();
      NoMessage();
    }

    lemma NoMessage()
      requires HeaderPhase()
      ensures message == []
    {
      hide B0, HeaderPrefix;
    }

    lemma CloseHeaderPhase()
      requires Keyed() && Session() && Chains(origin, chained) && m_state == IVSet
      requires proper ==> declared && HeaderPhase() && m_totalMessageLength == |message| % LWORD
      ensures Valid()
    {
      hide HeaderPhase, InitialCounter, Chains;
    }

    lemma ClosePastHeader()
      requires Keyed() && Session() && Chains(origin, chained)
      requires (InMessage() && m_state == if forward then AuthUntransformed else AuthTransformed) || m_state == AuthFooter
      requires proper ==> InMessage() && declared && MessagePhase() && m_totalMessageLength == |message| % LWORD
      ensures Valid()
    {
      hide MessagePhase, InitialCounter, Chains;
    }

    /** Update before the message. */
    method UpdateHeader(input: seq<byte>)
      requires Valid() && m_state == IVSet && input != []
      modifies this`m_bufferedDataLength, this`m_totalHeaderLength, this`header, this`chained, this`proper, m_buffer
      ensures Valid() && header == old(header) + input && proper == old(proper && declared)
    {
      hide IsCipher, Valid, InitialCounter, Chains, HeaderPhase, Fits;
      ghost var was := proper && declared;
      if was { OpenHeaderPhase(); }
      OpenIVSet();
      ChainHeader(input, was);
      CloseHeaderPhase();
    }

    method ChainHeader(input: seq<byte>, ghost follows: bool)
      requires Keyed() && m_state != Start && Chains(origin, chained) && (follows ==> HeaderPhase())
      modifies this`m_bufferedDataLength, this`m_totalHeaderLength, this`header, this`chained, this`proper, m_buffer
      ensures Chains(origin, chained) && (follows ==> HeaderPhase()) && header == old(header) + input && proper == follows
    {
      hide IsCipher, B0, HeaderPrefix, Fits, Absorb, Rest;
      AuthenticateData(input, origin, chained);
      ghost var grown := header + input;
      WordAdds(|header|, |input|);
      m_totalHeaderLength := (m_totalHeaderLength + |input|) % LWORD;
      assert HeaderPrefix(m_aadLength) + header + input == HeaderPrefix(m_aadLength) + grown;
      chained, header, proper := chained + input, grown, follows;
    }

    /** The unfinished block is chained and the record starts over from the register. */
    method PadChain()
      requires Keyed() && m_state != Start && Chains(origin, chained)
      modifies this`m_bufferedDataLength, this`origin, this`chained, m_buffer
      ensures Chains(origin, chained) && chained == []
      ensures origin == m_buffer[16..] == Absorb(E, 16, old(origin), Pad(old(chained)))
    {
      hide IsCipher, Absorb, Rest, Pad;
      AuthenticateLastBlock(origin, chained);
      origin, chained := m_buffer[16..], [];
      NothingChained(E, origin);
    }

    method AuthenticateLastHeaderBlock(ghost follows: bool) returns (outcome: Outcome)
      requires Keyed() && m_state != Start && Chains(origin, chained) && (follows ==> HeaderPhase())
      modifies this`m_bufferedDataLength, this`origin, this`chained, this`proper, m_buffer
      ensures outcome == if m_aadLength == m_totalHeaderLength then Ok else InvalidArgument
      ensures Chains(origin, chained) && proper == (follows && outcome == Ok)
      ensures outcome == Ok && follows ==> MessagePhase()
    {
      hide IsCipher, Absorb, Rest, Pad, B0, HeaderPrefix, Fits, Chains;
      if m_aadLength != m_totalHeaderLength {
        NotFollowing();
        return InvalidArgument;
      }
      PadChain();
      SetProper(follows);
      outcome := Ok;
    }

    ghost method SetProper(follows: bool)
      requires Chains(origin, chained)
      modifies this`proper
      ensures Chains(origin, chained) && proper == follows
    {
      hide IsCipher, Absorb, Rest;
      proper := follows;
    }

    /** A call has thrown. */
    ghost method NotFollowing()
      requires Chains(origin, chained)
      modifies this`proper
      ensures Chains(origin, chained) && !proper
    {
      SetProper(false);
    }

    method AuthenticateLastConfidentialBlock() returns (outcome: Outcome)
      requires Keyed() && m_state != Start && Chains(origin, chained)
      modifies this`m_bufferedDataLength, this`origin, this`chained, m_buffer
      ensures outcome == if m_messageLength == m_totalMessageLength then Ok else InvalidArgument
      ensures Chains(origin, chained)
      ensures outcome == Ok ==> m_buffer[16..] == Absorb(E, 16, old(origin), Pad(old(chained)))
    {
      hide IsCipher, Absorb, Rest, Pad;
      if m_messageLength != m_totalMessageLength { return InvalidArgument; }
      PadChain();
      outcome := Ok;
    }

    lemma OpenMessagePhase()
      requires Valid() && InMessage()
      ensures Keyed() && Session() && Chains(origin, chained) && m_state == if forward then AuthUntransformed else AuthTransformed
      ensures proper ==> declared && MessagePhase() && m_totalMessageLength == |message| % LWORD
    {
      hide MessagePhase, InitialCounter, Chains;
    }

    lemma OpenFooter()
      requires Valid() && m_state == AuthFooter
      ensures Keyed() && Session() && Chains(origin, chained) && !proper
    {
      hide MessagePhase, InitialCounter, Chains;
    }

    /** Update after the message: chained, but CCM allows no footer. */
    method UpdateFooter(input: seq<byte>) returns (outcome: Outcome)
      requires Valid() && (InMessage() || m_state == AuthFooter) && input != []
      modifies this`m_bufferedDataLength, this`m_totalFooterLength, this`origin, this`chained, this`proper, this`m_state, m_buffer
      ensures Valid() && outcome == if old(InMessage() && m_messageLength != m_totalMessageLength) then InvalidArgument else Ok
      ensures m_state == (if outcome == Ok then AuthFooter else old(m_state))
    {
      hide Valid, Chains, InitialCounter, MessagePhase, Fits, IsCipher, Absorb;
      if InMessage() {
        OpenMessagePhase();
        outcome := AuthenticateLastConfidentialBlock();
        NotFollowing();
        if outcome != Ok {
          ClosePastHeader();
          return;
        }
      } else {
        OpenFooter();
      }
      AppendFooter(input);
      ClosePastHeader();
      outcome := Ok;
    }

    method AppendFooter(input: seq<byte>)
      requires Keyed() && m_state != Start && Chains(origin, chained)
      modifies this`m_bufferedDataLength, this`m_totalFooterLength, this`chained, this`m_state, m_buffer
      ensures Chains(origin, chained) && m_state == AuthFooter
    {
      hide IsCipher, Absorb, Rest;
      m_state := AuthFooter;
      AuthenticateData(input, origin, chained);
      m_totalFooterLength := (m_totalFooterLength + |input|) % LWORD;
      chained := chained + input;
    }

    /** Update. */
    method Update(input: seq<byte>) returns (outcome: Outcome)
      requires Valid()
      modifies this, m_buffer
      ensures Valid() && SameSession(old(E), old(Params()), old(m_aadLength), old(m_messageLength)) && message == old(message)
      ensures outcome == if input == [] then Ok else if !old(AfterIV()) then BadState
                         else if old(InMessage() && m_messageLength != m_totalMessageLength) then InvalidArgument else Ok
      ensures m_state == if input == [] || outcome != Ok || old(m_state) == IVSet then old(m_state) else AuthFooter
      ensures header == if old(m_state) == IVSet then old(header) + input else old(header)
      ensures declared == old(declared)
      ensures old(proper && declared) && (input == [] || old(m_state) == IVSet) ==> proper
    {
      hide IsCipher, Valid, Fits, Absorb;
      if input == [] { return Ok; }
      match m_state
      case Start => return BadState;
      case KeySet => return BadState;
      case IVSet =>
        UpdateHeader(input);
        outcome := Ok;
      case _ =>
        outcome := UpdateFooter(input);
    }

    /** CTR mode from its current position; Seek is the assignment of ctrPosition. */
    method CtrProcess(input: seq<byte>) returns (output: seq<byte>)
      requires Keyed() && m_state != Start && |ctrIv| == 16
      modifies this`ctrPosition
      ensures output == XorBytes(input, CtrStream(E, ctrIv, old(ctrPosition), |input|)) && ctrPosition == old(ctrPosition) + |input|
    {
      hide IsCipher;
      output := XorBytes(input, CtrStream(E, ctrIv, ctrPosition, |input|));
      ctrPosition := ctrPosition + |input|;
    }

    /** The message side of a ProcessData call: CCM authenticates the plaintext. */
    ghost function Plaintext(input: seq<byte>, output: seq<byte>): seq<byte> {
      if forward then input else output
    }

    /** The State_AuthUntransformed and State_AuthTransformed cases. */
    method Transform(input: seq<byte>) returns (output: seq<byte>)
      requires Keyed() && InMessage() && m_state == (if forward then AuthUntransformed else AuthTransformed)
      requires |ctrIv| == 16 && Chains(origin, chained)
      modifies this`m_bufferedDataLength, this`ctrPosition, m_buffer
      ensures output == XorBytes(input, CtrStream(E, ctrIv, old(ctrPosition), |input|)) && ctrPosition == old(ctrPosition) + |input|
      ensures Chains(origin, chained + Plaintext(input, output))
    {
      hide IsCipher, Absorb, Rest;
      if m_state == AuthUntransformed {
        AuthenticateData(input, origin, chained);
        output := CtrProcess(input);
      } else {
        output := CtrProcess(input);
        AuthenticateData(output, origin, chained);
      }
    }

    /** Transform with its record. */
    method TransformMessage(input: seq<byte>, ghost follows: bool) returns (output: seq<byte>)
      requires Keyed() && Session() && Chains(origin, chained)
      requires InMessage() && m_state == (if forward then AuthUntransformed else AuthTransformed)
      requires follows ==> declared && MessagePhase() && m_totalMessageLength == (|message| + |input|) % LWORD
      modifies this`m_bufferedDataLength, this`ctrPosition, this`message, this`chained, this`proper, m_buffer
      ensures output == XorBytes(input, CtrStream(E, ctrIv, old(ctrPosition), |input|))
      ensures message == old(message) + Plaintext(input, output) && Valid() && proper == follows
    {
      hide IsCipher, Absorb, Rest, Fits, B0, HeaderPrefix, Pad, CtrStream, InitialCounter, Valid, Chains;
      CounterLength();
      output := Transform(input);
      RecordPart(Plaintext(input, output), follows);
    }

    /** The record of a part of the message that has been chained and masked. */
    ghost method RecordPart(part: seq<byte>, follows: bool)
      requires Keyed() && Chains(origin, chained + part)
      requires InMessage() && m_state == (if forward then AuthUntransformed else AuthTransformed)
      requires Fits(Params()) && ctrIv == InitialCounter(Params()) && ctrPosition == 16 + |message| + |part|
      requires follows ==> declared && MessagePhase() && m_totalMessageLength == (|message| + |part|) % LWORD
      modifies this`message, this`chained, this`proper
      ensures message == old(message) + part && Valid() && proper == follows
    {
      hide IsCipher, Absorb, Rest, Fits, B0, HeaderPrefix, Pad, InitialCounter, Valid;
      message, chained, proper := message + part, chained + part, follows;
      ClosePastHeader();
    }

    /** TransformMessage within the length limit: the key stream of RFC 3610. */
    method TransformMasked(input: seq<byte>, ghost follows: bool) returns (output: seq<byte>)
      requires Keyed() && Session() && Chains(origin, chained)
      requires InMessage() && m_state == (if forward then AuthUntransformed else AuthTransformed)
      requires follows ==> declared && MessagePhase() && m_totalMessageLength == (|message| + |input|) % LWORD <= MaxMessageLength(m_L)
      modifies this`m_bufferedDataLength, this`ctrPosition, this`message, this`chained, this`proper, m_buffer
      ensures message == old(message) + Plaintext(input, output) && Valid() && proper == follows && |output| == |input|
      ensures follows && |message| < LWORD ==> Masked(input, output, |old(message)|)
    {
      hide IsCipher, Absorb, Rest, Fits, B0, HeaderPrefix, Pad, CtrStream, Stream, InitialCounter, Valid, MaxMessageLength, Chains, MessagePhase;
      if follows { PhaseFits(); }
      ghost var position := ctrPosition;
      output := TransformMessage(input, follows);
      if follows && |message| < LWORD { CtrStreamIsStream(E, Params(), position, |input|); }
    }

    lemma PhaseFits()
      requires MessagePhase()
      ensures IsCipher(E, 16) && Fits(Params())
    {
      hide IsCipher, Absorb, Rest, Fits, B0, HeaderPrefix, Pad;
    }

    /** The output is the input under the key stream of RFC 3610, offset bytes into the message. */
    ghost predicate Masked(input: seq<byte>, output: seq<byte>, offset: nat)
      reads this
    {
      Fits(Params()) && IsCipher(E, 16) && output == XorBytes(input, Stream(E, Params(), 16 + offset, |input|))
    }

    lemma CounterLength()
      requires Session()
      ensures |ctrIv| == 16 && 2 <= m_L <= 8
    {
    }

    /** The State_IVSet case. */
    method EnterMessage(ghost follows: bool) returns (outcome: Outcome)
      requires Keyed() && Session() && m_state == IVSet && Chains(origin, chained) && (follows ==> HeaderPhase())
      modifies this`m_bufferedDataLength, this`origin, this`chained, this`proper, this`m_state, m_buffer
      ensures outcome == if m_aadLength == m_totalHeaderLength then Ok else InvalidArgument
      ensures Chains(origin, chained) && Session() && !proper
      ensures outcome == Ok ==> InMessage() && m_state == if forward then AuthUntransformed else AuthTransformed
      ensures outcome == Ok && follows ==> MessagePhase()
      ensures outcome != Ok ==> Valid() && m_state == IVSet
    {
      hide IsCipher, Absorb, Rest, Fits, B0, HeaderPrefix, Pad, InitialCounter, Valid;
      outcome := AuthenticateLastHeaderBlock(follows);
      proper := false;
      if outcome == Ok {
        m_state := if forward then AuthUntransformed else AuthTransformed;
      } else {
        CloseHeaderPhase();
      }
    }

    lemma OpenSession()
      requires Valid() && AfterIV()
      ensures Keyed() && Session() && Chains(origin, chained)
      ensures InMessage() ==> m_state == if forward then AuthUntransformed else AuthTransformed
    {
      hide Chains, InitialCounter, HeaderPhase, MessagePhase, NothingSent;
    }

    /** The phase the message has reached, when the caller has declared its lengths. */
    ghost predicate InPhase()
      reads this
    {
      (m_state == IVSet ==> HeaderPhase()) && (InMessage() ==> MessagePhase())
    }

    lemma OpenPhase()
      requires Valid() && AfterIV() && proper && declared
      ensures m_totalMessageLength == |message| % LWORD && (m_state == IVSet || InMessage()) && InPhase()
    {
      hide Chains, InitialCounter, HeaderPhase, MessagePhase, NothingSent;
    }

    /** The running total of ProcessData; until the call ends well the record is suspended. */
    method CountMessage(n: nat) returns (ghost follows: bool)
      requires Valid()
      modifies this`m_totalMessageLength, this`proper
      ensures m_totalMessageLength == (old(m_totalMessageLength) + n) % LWORD
      ensures Valid() && !proper && follows == old(proper && declared && AfterIV())
      ensures follows ==> m_totalMessageLength == (|message| + n) % LWORD && (m_state == IVSet || InMessage()) && InPhase()
    {
      hide IsCipher, Absorb, Rest, Fits, B0, HeaderPrefix, Pad, InitialCounter, Valid;
      follows := proper && declared && AfterIV();
      if follows { OpenPhase(); }
      WordAdds(|message|, n);
      Suspend((m_totalMessageLength + n) % LWORD);
    }

    method Suspend(total: nat)
      requires Valid()
      modifies this`m_totalMessageLength, this`proper
      ensures m_totalMessageLength == total && !proper && Valid()
      ensures AfterIV() && old(InPhase()) ==> InPhase()
    {
      hide IsCipher, Absorb, Rest, Fits, B0, HeaderPrefix, Pad, InitialCounter;
      m_totalMessageLength, proper := total, false;
    }

    /** ProcessData: encryption or decryption of the next part of the message. */
    method ProcessData(input: seq<byte>) returns (outcome: Outcome, output: seq<byte>)
      requires Valid()
      modifies this, m_buffer
      ensures Valid() && SameSession(old(E), old(Params()), old(m_aadLength), old(m_messageLength))
      ensures header == old(header) && declared == old(declared)
      ensures outcome == if old(AfterIV()) && (old(m_totalMessageLength) + |input|) % LWORD > MaxMessageLength(m_L) then InvalidArgument
                         else if !old(AfterIV()) || old(m_state) == AuthFooter then BadState
                         else if old(m_state) == IVSet && m_aadLength != old(m_totalHeaderLength) then InvalidArgument else Ok
      ensures outcome == Ok ==> message == old(message) + Plaintext(input, output) && InMessage()
      ensures outcome == Ok ==> |output| == |input| && proper == old(proper && declared)
      ensures outcome == Ok && proper && |message| < LWORD ==> Masked(input, output, |old(message)|)
      ensures outcome != Ok ==> message == old(message) && output == []
    {
      hide IsCipher, Valid, Fits, Absorb, Chains, InitialCounter, HeaderPhase, MessagePhase, MaxMessageLength, Masked, Session, Keyed;
      output := [];
      ghost var follows := CountMessage(|input|);
      if AfterIV() && m_totalMessageLength > MaxMessageLength(m_L) { return InvalidArgument, output; }
      if !AfterIV() || m_state == AuthFooter { return BadState, output; }
      outcome, output := ProcessInPhase(input, follows);
    }

    /** The cases of ProcessData in which the message may come in. */
    method ProcessInPhase(input: seq<byte>, ghost follows: bool) returns (outcome: Outcome, output: seq<byte>)
      requires Valid() && (m_state == IVSet || InMessage())
      requires follows ==> declared && InPhase() && m_totalMessageLength == (|message| + |input|) % LWORD <= MaxMessageLength(m_L)
      modifies this`m_bufferedDataLength, this`origin, this`chained, this`proper, this`m_state, this`ctrPosition, this`message, m_buffer
      ensures Valid() && outcome == if old(m_state) == IVSet && m_aadLength != m_totalHeaderLength then InvalidArgument else Ok
      ensures outcome == Ok ==> message == old(message) + Plaintext(input, output) && InMessage()
      ensures outcome == Ok ==> |output| == |input| && proper == follows
      ensures outcome == Ok && follows && |message| < LWORD ==> Masked(input, output, |old(message)|)
      ensures outcome != Ok ==> message == old(message) && output == []
    {
      hide IsCipher, Valid, Fits, Absorb, Chains, InitialCounter, HeaderPhase, MessagePhase, MaxMessageLength, Masked;
      output := [];
      OpenSession();
      if m_state == IVSet {
        outcome := EnterMessage(follows);
        if outcome != Ok { return; }
      }
      output := TransformMasked(input, follows);
      outcome := Ok;
    }

    // ----- the tag

    /** AuthenticateLastFooterBlock: the chaining register under S_0. */
    method AuthenticateLastFooterBlock(macSize: nat) returns (mac: seq<byte>)
      requires Keyed() && m_state != Start && |ctrIv| == 16 && macSize <= 16
      modifies this`ctrPosition
      ensures mac == XorBytes(m_buffer[16..][..macSize], CtrStream(E, ctrIv, 0, macSize))
    {
      hide IsCipher, CtrStream;
      ctrPosition := 0;
      mac := CtrProcess(m_buffer[16..][..macSize]);
    }

    /** The whole of the two strings has been declared. */
    ghost predicate LengthsMet()
      reads this
    {
      m_aadLength == |header| < LWORD && m_messageLength == |message| < LWORD
    }

    /** The chaining value at the end is the one of section 2.2 of RFC 3610. */
    lemma ChainIsCbcMac()
      requires MessagePhase() && LengthsMet()
      ensures Absorb(E, 16, origin, Pad(chained)) == CbcMac(E, Params(), header, message)
    {
      hide Absorb, B0, Pad, HeaderPrefix, Fits;
      PhaseFits();
      CipherLength(E, 16, B0(Params(), m_aadLength > 0, m_messageLength));
      AbsorbTwoPadded(E, E(B0(Params(), m_aadLength > 0, m_messageLength)), HeaderPrefix(m_aadLength) + header, message);
    }

    /** The cases of TruncatedFinal: what is left of the header and of the message is chained. */
    method FinishChain(ghost follows: bool) returns (outcome: Outcome)
      requires Keyed() && Session() && Chains(origin, chained) && AfterIV() && (follows ==> InPhase() && m_state != AuthFooter)
      modifies this`m_bufferedDataLength, this`origin, this`chained, this`proper, m_buffer
      ensures outcome == if m_state == IVSet && m_aadLength != m_totalHeaderLength then InvalidArgument
                         else if m_state != AuthFooter && m_messageLength != m_totalMessageLength then InvalidArgument else Ok
      ensures !proper && Chains(origin, chained)
      ensures outcome == Ok && follows && LengthsMet() ==> ChainedAll()
    {
      hide IsCipher, Absorb, Rest, Fits, B0, HeaderPrefix, Pad, InitialCounter, Chains, CbcMac, HeaderPhase, MessagePhase, ChainedAll;
      if m_state == IVSet {
        outcome := AuthenticateLastHeaderBlock(follows);
        if outcome != Ok { return; }
      }
      if m_state != AuthFooter {
        outcome := FinishMessage(follows);
        return;
      }
      NotFollowing();
      outcome := Ok;
    }

    method FinishMessage(ghost follows: bool) returns (outcome: Outcome)
      requires Keyed() && m_state != Start && Chains(origin, chained) && (follows ==> MessagePhase())
      modifies this`m_bufferedDataLength, this`origin, this`chained, this`proper, m_buffer
      ensures outcome == if m_messageLength != m_totalMessageLength then InvalidArgument else Ok
      ensures !proper && Chains(origin, chained)
      ensures outcome == Ok && follows && LengthsMet() ==> ChainedAll()
    {
      hide IsCipher, Absorb, Rest, Fits, B0, HeaderPrefix, Pad, InitialCounter, Chains, CbcMac, MessagePhase;
      if follows { PhaseFits(); }
      if follows && LengthsMet() { ChainIsCbcMac(); }
      outcome := AuthenticateLastConfidentialBlock();
      NotFollowing();
    }

    /** The register holds the value whose leading bytes are the tag T. */
    ghost predicate ChainedAll()
      reads this, m_buffer
    {
      Fits(Params()) && IsCipher(E, 16) && m_buffer.Length == 32 && m_buffer[16..] == CbcMac(E, Params(), header, message)
    }

    lemma FinalTag(macSize: nat)
      requires ChainedAll() && Session() && macSize <= 16
      ensures XorBytes(m_buffer[16..][..macSize], CtrStream(E, ctrIv, 0, macSize)) == TagBytes(E, Params(), header, message, macSize)
    {
      hide IsCipher, Absorb, CbcMac, CtrStream, StreamByte, InitialCounter;
      CtrStreamIsStream(E, Params(), 0, macSize);
    }

    /** TruncatedFinal. */
    method TruncatedFinal(macSize: nat) returns (outcome: Outcome, mac: seq<byte>)
      requires Valid() && macSize <= 16
      modifies this, m_buffer
      ensures Valid() && SameSession(old(E), old(Params()), old(m_aadLength), old(m_messageLength)) && header == old(header) && message == old(message)
      ensures outcome == if old(m_totalFooterLength > 0) then InvalidArgument
                         else if !old(AfterIV()) then BadState
                         else if old(m_state == IVSet && m_aadLength != m_totalHeaderLength) then InvalidArgument
                         else if old(m_state != AuthFooter && m_messageLength != m_totalMessageLength) then InvalidArgument else Ok
      ensures m_state == if outcome == Ok then KeySet else old(m_state)
      ensures outcome == Ok && old(proper && declared) && LengthsMet() ==>
        Fits(Params()) && IsCipher(E, 16) && mac == TagBytes(E, Params(), header, message, macSize)
    {
      hide IsCipher, Valid, Fits, Absorb, Chains, InitialCounter, HeaderPhase, MessagePhase, ChainedAll, CtrStream, TagBytes;
      mac := [];
      // header lengths never exceed MaxHeaderLength(), the largest lword
      if m_totalFooterLength > 0 { return InvalidArgument, mac; }
      if !AfterIV() { return BadState, mac; }
      OpenSession();
      ghost var follows := proper && declared;
      if follows { OpenPhase(); }
      outcome := FinishChain(follows);
      if outcome != Ok {
        CloseImproper();
        return;
      }
      mac := FinishTag(macSize, follows && LengthsMet());
    }

    /** The end of TruncatedFinal. */
    method FinishTag(macSize: nat, ghost tagged: bool) returns (mac: seq<byte>)
      requires Keyed() && Session() && m_state != Start && macSize <= 16 && (tagged ==> ChainedAll())
      modifies this`m_bufferedDataLength, this`ctrPosition, this`m_state
      ensures Valid() && m_state == KeySet
      ensures tagged ==> Fits(Params()) && IsCipher(E, 16) && mac == TagBytes(E, Params(), header, message, macSize)
    {
      hide IsCipher, Valid, Fits, Absorb, InitialCounter, CtrStream, TagBytes, CbcMac;
      if tagged { FinalTag(macSize); }
      CounterLength();
      mac := AuthenticateLastFooterBlock(macSize);
      m_bufferedDataLength := 0;
      m_state := KeySet;
      KeyedValid();
    }

    lemma CloseImproper()
      requires Keyed() && Session() && Chains(origin, chained) && AfterIV() && !proper
      requires InMessage() ==> m_state == if forward then AuthUntransformed else AuthTransformed
      ensures Valid()
    {
      hide Chains, InitialCounter;
    }

    /** When TruncatedFinal will not refuse: all of the two declared lengths has arrived. */
    lemma CompleteIsAccepted()
      requires Valid() && proper && declared && AfterIV() && LengthsMet()
      ensures m_totalFooterLength == 0 && m_state != AuthFooter
      ensures m_totalMessageLength == m_messageLength
      ensures m_totalHeaderLength == m_aadLength
    {
      hide Absorb, Fits, B0, HeaderPrefix, Pad, InitialCounter, Chains, IsCipher;
    }

  }

  lemma FitsLengths(p: Parameters)
    requires Fits(p)
    ensures 2 <= p.L <= 8 && |p.nonce| == 15 - p.L
  {
  }

  /** Totals kept modulo 2^64 stay right. */
  lemma WordAdds(a: nat, b: nat)
    ensures (a % LWORD + b) % LWORD == (a + b) % LWORD
  {
  }

  lemma EmptyPrefix()
    ensures HeaderPrefix(0) == []
  {
  }

  lemma B0Bytes(p: Parameters, hasHeader: bool, messageLength: nat, block: seq<byte>)
    requires Fits(p)
    requires block == [(if hasHeader then 64 else 0) + 8 * ((p.M - 2) / 2) + (p.L - 1)] + p.nonce + BigEndian(messageLength, p.L)
    ensures block == B0(p, hasHeader, messageLength)
  {
  }

  /** What the three overlapping stores leave. */
  lemma LayB0(before: seq<byte>, flagged: seq<byte>, worded: seq<byte>, after: seq<byte>, flags: byte, word: seq<byte>, L: nat)
    requires |before| == 32 && |word| == 8 && 2 <= L <= 8
    requires flagged == before[..16] + [flags] + before[17..]
    requires worded == flagged[..24] + word + flagged[32..]
    requires after == worded[..17] + worded[1..16 - L] + worded[32 - L..]
    ensures after[..16] == before[..16] && after[16..] == [flags] + before[1..16 - L] + word[8 - L..]
  {
    SamePart(flagged, before, 16, 1, 16 - L);
    SamePart(worded, flagged, 24, 1, 16 - L);
    SamePart(worded, flagged, 24, 0, 17);
    SameTail(worded, flagged[..24], word, 32 - L);
    assert after == worded[..17] + before[1..16 - L] + word[8 - L..];
    assert flagged[0..17] == before[..16] + [flags];
  }

  lemma SamePart(s: seq<byte>, t: seq<byte>, n: nat, i: nat, j: nat)
    requires i <= j <= n <= |s| && n <= |t| && s[..n] == t[..n]
    ensures s[i..j] == t[i..j]
  {
    assert s[i..j] == s[..n][i..j] && t[i..j] == t[..n][i..j];
  }

  lemma SameTail(s: seq<byte>, front: seq<byte>, tail: seq<byte>, i: nat)
    requires s == front + tail && |front| <= i <= |s|
    ensures s[i..] == tail[i - |front|..]
  {
  }

  /** Less than a block is not chained yet. */
  lemma ShortStays(E: Cipher, x: seq<byte>, s: seq<byte>)
    requires IsCipher(E, 16) && |x| == 16 && |s| < 16
    ensures Absorb(E, 16, x, s) == x && Rest(16, s) == s
  {
  }

  lemma NothingChained(E: Cipher, x: seq<byte>)
    requires IsCipher(E, 16) && |x| == 16
    ensures Absorb(E, 16, x, []) == x && Rest(16, []) == []
  {
  }
}
