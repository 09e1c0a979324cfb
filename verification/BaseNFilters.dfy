/** BaseN_Encoder, Grouper and BaseN_Decoder (basecode.cpp): each is fed in any chunks and gives the
    text or bytes that the whole input stands for. */
module BaseNFilters {
  import opened Powers
  import opened Bytes
  import opened BitStrings
  import opened BaseN
  import opened BlockChaining

  // ----- cells of a block

  /** Cells of `width` bits that hold the given bits so far, up to a position, with zeros after it. */
  ghost predicate Filled(cells: seq<byte>, width: nat, at: nat, used: nat, bits: seq<bool>) {
    && used < width && at <= |cells| && (used > 0 ==> at < |cells|)
    && Narrow(cells, width)
    && (at < |cells| ==> BitsOf(cells[at], width)[used..] == Falses(width - used))
    && (forall i :: at < i < |cells| ==> cells[i] == 0)
    && bits == Joined(cells[..at], width) + (if at < |cells| then BitsOf(cells[at], width)[..used] else [])
  }

  lemma ClearedIsFilled(cells: seq<byte>, width: nat)
    requires width > 0 && cells == Zeros(|cells|)
    ensures Filled(cells, width, 0, 0, [])
  {
    BitsOfZero(width);
  }

  /** Or into the free end of one cell. */
  lemma CellOr(cell: byte, v: nat, width: nat, used: nat, tail: seq<bool>)
    requires used <= width <= 8 && cell < Pow2(width) && v < Pow2(width) && |tail| == width - used
    requires BitsOf(cell, width)[used..] == Falses(width - used) && BitsOf(v, width) == Falses(used) + tail
    ensures v < 256 && OrByte(cell, v) < Pow2(width)
    ensures BitsOf(OrByte(cell, v), width) == BitsOf(cell, width)[..used] + tail
  {
    hide BitsOf, Or, Pow2;
    Pow2Monotone(width, 8);
    Pow2OfEight();
    var head := BitsOf(cell, width)[..used];
    assert BitsOf(cell, width) == head + Falses(width - used);
    OrIntoFree(cell, v, width, used, head, tail);
    OrBound(cell, v, width);
  }

  /** A cell takes some more bits, and has room left. */
  lemma CellTakesPart(cells: seq<byte>, width: nat, at: nat, used: nat, bits: seq<bool>, v: nat, part: seq<bool>)
    requires width <= 8 && Filled(cells, width, at, used, bits) && at < |cells| && used + |part| < width
    requires v < Pow2(width) && BitsOf(v, width) == Falses(used) + (part + Falses(width - used - |part|))
    ensures v < 256 && Filled(cells[at := OrByte(cells[at], v)], width, at, used + |part|, bits + part)
  {
    hide Joined, BitsOf, OrByte, Pow2;
    var head := BitsOf(cells[at], width)[..used];
    var tail := part + Falses(width - used - |part|);
    CellOr(cells[at], v, width, used, tail);
    var after := cells[at := OrByte(cells[at], v)];
    assert after[..at] == cells[..at];
    assert (head + tail)[..used + |part|] == head + part;
    assert (head + tail)[used + |part|..] == Falses(width - used - |part|);
  }

  /** A cell takes the bits that complete it. */
  lemma CellTakesRest(cells: seq<byte>, width: nat, at: nat, used: nat, bits: seq<bool>, v: nat, part: seq<bool>)
    requires 0 < width <= 8 && Filled(cells, width, at, used, bits) && at < |cells| && used + |part| == width
    requires v < Pow2(width) && BitsOf(v, width) == Falses(used) + part
    ensures v < 256 && Filled(cells[at := OrByte(cells[at], v)], width, at + 1, 0, bits + part)
  {
    hide Joined, BitsOf, OrByte, Pow2;
    CellOr(cells[at], v, width, used, part);
    var after := cells[at := OrByte(cells[at], v)];
    assert after[..at] == cells[..at];
    assert after[..at + 1] == after[..at] + [after[at]];
    JoinedAppend(after[..at], after[at], width);
    BitsOfZero(width);
  }

  // ----- encoding

  /** What a shift leaves of the bits still to come. */
  lemma BitsLeft(x: seq<bool>, y: seq<bool>, left: nat, gone: nat)
    requires |x| == 8 && gone < left <= 8 && x[left..] == Falses(8 - left) && y == x[gone..] + Falses(gone)
    ensures y[left - gone..] == Falses(8 - (left - gone)) && x[..left] == x[..gone] + y[..left - gone]
  {
    assert y[..left - gone] == x[gone..left];
    assert y[left - gone..] == x[left..] + Falses(gone);
  }

  /** The top bits of b, at the free end of a cell. */
  lemma TopBits(b: byte, width: nat, used: nat)
    requires used < width <= 8
    ensures var free := width - used;
      Shr(b, 8 - free) < Pow2(width) && BitsOf(Shr(b, 8 - free), width) == Falses(used) + BitsOf(b, 8)[..free]
  {
    hide BitsOf, Shr, Pow2;
    var free := width - used;
    Pow2OfEight();
    ShrSmall(b, 8 - free, 8);
    ShrBits(b, 8 - free, 8);
    SmallBits(Shr(b, 8 - free), width, free);
    Pow2Monotone(free, width);
  }

  /** Shifting the used bits out of a byte. */
  lemma ShiftOut(b: byte, gone: nat)
    requires gone <= 8
    ensures BitsOf(Low(Shl(b, gone), 8), 8) == BitsOf(b, 8)[gone..] + Falses(gone)
  {
    hide BitsOf, Shl, Low;
    LowBits(Shl(b, gone), 8);
    ShlBits(b, gone, 8);
    NarrowBits(Shl(b, gone), 8 + gone, 8);
    assert (BitsOf(b, 8) + Falses(gone))[gone..] == BitsOf(b, 8)[gone..] + Falses(gone);
  }

  lemma FilledLength(cells: seq<byte>, width: nat, at: nat, used: nat, bits: seq<bool>)
    requires Filled(cells, width, at, used, bits)
    ensures |bits| == at * width + used
  {
    hide BitsOf;
    JoinedLength(cells[..at], width);
  }

  /** Bits that still fit go into an existing cell. */
  lemma CellInside(at: nat, used: nat, width: nat, size: nat)
    requires at * width + used < size * width
    ensures at < size
  {
    if at >= size { MulMonotone(width, size, at); }
  }

  lemma BlockBits(bits: nat)
    requires 1 <= bits <= 7
    ensures BlockSize(bits) * bits == 8 * ByteBlockSize(bits)
  {
  }

  /** So many digits are a whole number of bytes. */
  predicate FillsBytes(digits: nat, bits: nat) {
    digits * bits % 8 == 0
  }

  /** So many bytes are a whole number of digits. */
  predicate FillsDigits(bytes: nat, bits: nat)
    requires bits > 0
  {
    8 * bytes % bits == 0
  }

  /** A block is the least number of digits that fill bytes. */
  lemma BlockSizeLeast(bits: nat)
    requires 1 <= bits <= 7
    ensures FillsBytes(BlockSize(bits), bits) && forall k :: 0 < k < BlockSize(bits) ==> !FillsBytes(k, bits)
  {
    BlockBits(bits);
    assert bits == 1 || bits == 2 || bits == 3 || bits == 4 || bits == 5 || bits == 6 || bits == 7;
  }

  /** A block is the least number of bytes that digits fill. */
  lemma ByteBlockSizeLeast(bits: nat)
    requires 1 <= bits <= 7
    ensures FillsDigits(ByteBlockSize(bits), bits) && forall k :: 0 < k < ByteBlockSize(bits) ==> !FillsDigits(k, bits)
  {
    assert bits == 1 || bits == 2 || bits == 3 || bits == 4 || bits == 5 || bits == 6 || bits == 7;
  }

  /** The source's search for the block size: the least multiple of 8 divisible by the width. */
  method FindBlockSize(bits: nat) returns (size: nat)
    requires 1 <= bits <= 7
    ensures size == BlockSize(bits)
    ensures FillsBytes(size, bits) && forall k :: 0 < k < size ==> !FillsBytes(k, bits)
  {
    var i: nat := 8;
    while i % bits != 0
      invariant i % 8 == 0 && 8 <= i <= 8 * ByteBlockSize(bits)
      decreases 8 * ByteBlockSize(bits) - i
    {
      MultipleAhead(i, bits);
      i := i + 8;
    }
    LeastMultiple(i, bits);
    size := i / bits;
    BlockSizeLeast(bits);
  }

  lemma MultipleAhead(i: nat, bits: nat)
    requires 1 <= bits <= 7 && i % 8 == 0 && i <= 8 * ByteBlockSize(bits) && i % bits != 0
    ensures i + 8 <= 8 * ByteBlockSize(bits)
  {
    assert bits == 3 || bits == 5 || bits == 6 || bits == 7 || bits == 1 || bits == 2 || bits == 4;
    assert i != 8 * ByteBlockSize(bits);
  }

  lemma LeastMultiple(i: nat, bits: nat)
    requires 1 <= bits <= 7 && i % 8 == 0 && 8 <= i <= 8 * ByteBlockSize(bits) && i % bits == 0
    ensures i / bits == BlockSize(bits)
  {
  }

  class BaseN_Encoder {
    const m_code: Code
    const m_outputBlockSize: nat
    const m_outBuf: array<byte>
    var m_bytePos: nat
    var m_bitPos: nat
    /** The message so far, its text so far, the digits of that text and the bits in the block. */
    ghost var input: seq<byte>
    ghost var text: seq<byte>
    ghost var digits: seq<byte>
    ghost var pending: seq<bool>

    /** The configuration and the output block. */
    ghost predicate Configured()
      reads this
    {
      IsCode(m_code) && m_outputBlockSize == BlockSize(m_code.bits) && m_outBuf.Length == m_outputBlockSize
    }

    /** The block holds the pending bits; an empty block may hold anything. */
    ghost predicate Holds(bits: seq<bool>)
      reads this, m_outBuf
      requires Configured()
    {
      if m_bytePos == 0 && m_bitPos == 0 then bits == []
      else Filled(m_outBuf[..], m_code.bits, m_bytePos, m_bitPos, bits)
    }

    ghost predicate Valid()
      reads this, m_outBuf
    {
      && Configured() && Holds(pending)
      && |pending| % 8 == 0 && |pending| < m_outputBlockSize * m_code.bits
      && Sent(m_code, input, text, digits, pending)
    }

    /** IsolatedInitialize. */
    constructor (code: Code)
      requires IsCode(code)
      ensures Valid() && m_code == code && input == [] && text == [] && fresh(m_outBuf)
    {
      m_code := code;
      var size := FindBlockSize(code.bits);
      m_outputBlockSize := size;
      m_outBuf := new byte[size](_ => 0);
      m_bytePos, m_bitPos := 0, 0;
      input, text, digits, pending := [], [], [], [];
      new;
      BlockBits(code.bits);
    }

    /** memset. */
    method Clear()
      requires Configured()
      modifies m_outBuf
      ensures m_outBuf[..] == Zeros(m_outBuf.Length)
    {
      forall i | 0 <= i < m_outBuf.Length { m_outBuf[i] := 0; }
    }

    /** m_outBuf[m_bytePos] |= v. */
    method OrInto(v: byte)
      requires m_bytePos < m_outBuf.Length
      modifies m_outBuf
      ensures m_outBuf[..] == old(m_outBuf[..])[m_bytePos := OrByte(old(m_outBuf[m_bytePos]), v)]
    {
      hide OrByte;
      m_outBuf[m_bytePos] := OrByte(m_outBuf[m_bytePos], v);
    }

    /** One turn of the inner loop: the top of b into the current cell. */
    method StoreTop(b: byte, left: nat, ghost bits: seq<bool>)
      requires Configured() && Filled(m_outBuf[..], m_code.bits, m_bytePos, m_bitPos, bits)
      requires 0 < left <= 8 && |bits| < m_outputBlockSize * m_code.bits
      requires BitsOf(b, 8)[left..] == Falses(8 - left)
      modifies m_outBuf
      ensures left >= m_code.bits - m_bitPos ==>
        Filled(m_outBuf[..], m_code.bits, m_bytePos + 1, 0, bits + BitsOf(b, 8)[..m_code.bits - m_bitPos])
      ensures left < m_code.bits - m_bitPos ==>
        Filled(m_outBuf[..], m_code.bits, m_bytePos, m_bitPos + left, bits + BitsOf(b, 8)[..left])
    {
      hide Filled, BitsOf, Shr, BlockSize, Pow2, OrByte;
      var width := m_code.bits;
      var free := FreeBits(bits);
      TopBits(b, width, m_bitPos);
      var v := Shr(b, 8 - free);
      if left >= free {
        CellTakesRest(m_outBuf[..], width, m_bytePos, m_bitPos, bits, v, BitsOf(b, 8)[..free]);
      } else {
        ghost var part := BitsOf(b, 8)[..left];
        assert BitsOf(b, 8)[..free] == part + Falses(free - left);
        CellTakesPart(m_outBuf[..], width, m_bytePos, m_bitPos, bits, v, part);
      }
      OrInto(v);
    }

    /** bitsLeftInTarget, and the cell exists. */
    method FreeBits(ghost bits: seq<bool>) returns (free: nat)
      requires Configured() && Filled(m_outBuf[..], m_code.bits, m_bytePos, m_bitPos, bits)
      requires |bits| < m_outputBlockSize * m_code.bits
      ensures m_bitPos < m_code.bits && free == m_code.bits - m_bitPos && m_bytePos < m_outBuf.Length
    {
      hide BitsOf;
      FilledLength(m_outBuf[..], m_code.bits, m_bytePos, m_bitPos, bits);
      CellInside(m_bytePos, m_bitPos, m_code.bits, m_outputBlockSize);
      free := m_code.bits - m_bitPos;
    }

    /** The inner loop: the eight bits of one byte. */
    method PutBits(b0: byte, ghost bits: seq<bool>)
      requires Configured() && Filled(m_outBuf[..], m_code.bits, m_bytePos, m_bitPos, bits)
      requires |bits| + 8 <= m_outputBlockSize * m_code.bits
      modifies this`m_bytePos, this`m_bitPos, m_outBuf
      ensures Filled(m_outBuf[..], m_code.bits, m_bytePos, m_bitPos, bits + BitsOf(b0, 8))
    {
      hide Filled, BitsOf, BlockSize, Pow2, Shl, Low;
      var b: byte, left: nat := b0, 8;
      ghost var now := bits;
      Pow2OfEight();
      while true
        invariant Configured() && Filled(m_outBuf[..], m_code.bits, m_bytePos, m_bitPos, now)
        invariant 0 < left <= 8 && BitsOf(b, 8)[left..] == Falses(8 - left)
        invariant now + BitsOf(b, 8)[..left] == bits + BitsOf(b0, 8)
        decreases left
      {
        var free := FreeBits(now);
        StoreTop(b, left, now);
        if left >= free {
          m_bitPos := 0;
          m_bytePos := m_bytePos + 1;
          now := now + BitsOf(b, 8)[..free];
          if left == free { break; }
          ShiftOut(b, free);
          BitsLeft(BitsOf(b, 8), BitsOf(Low(Shl(b, free), 8), 8), left, free);
          left := left - free;
          b := Low(Shl(b, free), 8);
        } else {
          m_bitPos := m_bitPos + left;
          now := now + BitsOf(b, 8)[..left];
          break;
        }
      }
    }

    /** The first cells become characters. */
    method MapCells(count: nat)
      requires Configured() && count <= m_outBuf.Length && Narrow(m_outBuf[..count], m_code.bits)
      modifies m_outBuf
      ensures m_outBuf[..] == Mapped(m_code.alphabet, old(m_outBuf[..count])) + old(m_outBuf[count..])
    {
      hide Pow2, BlockSize;
      for i := 0 to count
        invariant forall j :: 0 <= j < i ==> old(m_outBuf[j]) < |m_code.alphabet| && m_outBuf[j] == m_code.alphabet[old(m_outBuf[j])]
        invariant forall j :: i <= j < m_outBuf.Length ==> m_outBuf[j] == old(m_outBuf[j])
      {
        assert old(m_outBuf[..count])[i] == m_outBuf[i];
        m_outBuf[i] := m_code.alphabet[m_outBuf[i]];
      }
    }

    /** The body of the outer loop: one byte in, a block out when it is full. */
    method TakeByte(b: byte) returns (out: seq<byte>)
      requires Valid()
      modifies this, m_outBuf
      ensures Valid() && input == old(input) + [b] && text == old(text) + out
    {
      hide Valid, Filled, BitsOf, Sent;
      if m_bytePos == 0 { StartBlock(); }
      AddByte(b);
      out := [];
      if m_bytePos == m_outputBlockSize {
        out := TakeBlock();
      } else {
        BlockGoesOn();
      }
    }

    /** The byte's bits join the pending ones. */
    method AddByte(b: byte)
      requires Valid() && (m_bytePos == 0 ==> pending == [] && m_bitPos == 0 && Filled(m_outBuf[..], m_code.bits, 0, 0, []))
      modifies this`m_bytePos, this`m_bitPos, this`input, this`pending, m_outBuf
      ensures InBlock() && input == old(input) + [b]
    {
      hide Filled, BitsOf, BlockSize, Pow2, Joined, Mapped, Sent;
      BlockBits(m_code.bits);
      PutBits(b, pending);
      SentBits(m_code, input, text, digits, pending, b);
      input, pending := input + [b], pending + BitsOf(b, 8);
    }

    /** A block that has been started, perhaps completed. */
    ghost predicate InBlock()
      reads this, m_outBuf
    {
      && Configured() && Filled(m_outBuf[..], m_code.bits, m_bytePos, m_bitPos, pending)
      && |pending| % 8 == 0 && Sent(m_code, input, text, digits, pending)
    }

    lemma BlockGoesOn()
      requires InBlock() && m_bytePos != m_outputBlockSize
      ensures Valid()
    {
      hide Filled, BitsOf, BlockSize, Pow2, Joined, Mapped, Sent;
      FilledLength(m_outBuf[..], m_code.bits, m_bytePos, m_bitPos, pending);
      FilledInside(m_outBuf[..], m_code.bits, m_bytePos, m_bitPos, pending);
      NotYetFull(m_bytePos, m_bitPos, m_code.bits, m_outputBlockSize);
    }

    /** A full block goes out as characters. */
    method TakeBlock() returns (out: seq<byte>)
      requires InBlock() && m_bytePos == m_outputBlockSize
      modifies this`m_bytePos, this`m_bitPos, this`text, this`digits, this`pending, m_outBuf
      ensures Valid() && text == old(text) + out
    {
      hide Filled, BitsOf, BlockSize, Pow2, Joined, Mapped, Sent;
      BlockBits(m_code.bits);
      ghost var block := m_outBuf[..];
      FullBlock(block, m_code.bits, m_bitPos, pending);
      NarrowFilled(block, m_code.bits, m_bytePos, m_bitPos, pending);
      assert block[..m_bytePos] == block;
      MapCells(m_bytePos);
      out := m_outBuf[..];
      assert out == Mapped(m_code.alphabet, block);
      SentBlock(m_code, input, text, digits, pending, block);
      m_bytePos, m_bitPos := 0, 0;
      text, digits, pending := text + out, digits + block, [];
    }

    /** A new block starts out zeroed. */
    method StartBlock()
      requires Valid() && m_bytePos == 0
      modifies m_outBuf
      ensures Valid() && pending == [] && m_bitPos == 0 && Filled(m_outBuf[..], m_code.bits, 0, 0, [])
    {
      hide Sent, Joined, BitsOf, BlockSize, Pow2;
      if m_bitPos > 0 { FilledLength(m_outBuf[..], m_code.bits, m_bytePos, m_bitPos, pending); }
      Clear();
      ClearedIsFilled(m_outBuf[..], m_code.bits);
    }

    /** The digits still in the block, a started one counting whole. */
    method CloseDigits() returns (ghost last: seq<byte>)
      requires Valid()
      modifies this`m_bytePos, m_outBuf
      ensures Configured() && m_bytePos <= m_outBuf.Length && Narrow(last, m_code.bits) && |last| == m_bytePos
      ensures m_outBuf[..m_bytePos] == Mapped(m_code.alphabet, last)
      ensures EndOf(pending, last, m_code.bits)
    {
      hide BitsOf, BlockSize, Pow2, Joined, Sent, Mapped;
      var width := m_code.bits;
      if m_bytePos == 0 && m_bitPos == 0 {
        last := [];
        NothingLeft(width);
        MapCells(0);
        return;
      }
      LastDigit(m_outBuf[..], width, m_bytePos, m_bitPos, pending);
      ghost var used := m_bitPos;
      if m_bitPos > 0 { m_bytePos := m_bytePos + 1; }
      last := m_outBuf[..m_bytePos];
      NothingFilled(pending, width, used);
      MapCells(m_bytePos);
    }

    /** The end of the message: the rest of the digits, and padding to a whole block. */
    method EndMessage() returns (out: seq<byte>)
      requires Valid()
      modifies this, m_outBuf
      ensures Valid() && input == [] && text == []
      ensures old(text) + out == Encoded(m_code, old(input))
    {
      hide Filled, BitsOf, BlockSize, Pow2, Joined, Sent, Mapped, Encoded, EndOf;
      BlockBits(m_code.bits);
      ghost var last := CloseDigits();
      EncodedInFull(m_code, input, text, digits, pending, last);
      if m_code.padding.Some? && m_bytePos > 0 {
        Pad(m_code.padding.value);
        m_bytePos := m_outputBlockSize;
      }
      out := m_outBuf[..m_bytePos];
      m_bytePos, m_bitPos := 0, 0;
      input, text, digits, pending := [], [], [], [];
      NothingSent(m_code);
    }

    /** memset of the rest of the block. */
    method Pad(padding: byte)
      requires Configured() && m_bytePos <= m_outBuf.Length
      modifies m_outBuf
      ensures m_outBuf[..] == old(m_outBuf[..m_bytePos]) + Repeat(padding, m_outBuf.Length - m_bytePos)
    {
      forall i | m_bytePos <= i < m_outBuf.Length { m_outBuf[i] := padding; }
    }

    /** Put2. */
    method Put2(chunk: seq<byte>, messageEnd: bool) returns (out: seq<byte>)
      requires Valid()
      modifies this, m_outBuf
      ensures Valid()
      ensures !messageEnd ==> input == old(input) + chunk && text == old(text) + out
      ensures messageEnd ==> input == [] && text == [] && old(text) + out == Encoded(m_code, old(input) + chunk)
    {
      hide Valid, Encoded;
      out := [];
      for i := 0 to |chunk|
        invariant Valid() && input == old(input) + chunk[..i] && text == old(text) + out
      {
        var part := TakeByte(chunk[i]);
        out := out + part;
      }
      assert chunk[..|chunk|] == chunk;
      if messageEnd {
        ghost var sent := text;
        var part := EndMessage();
        assert old(text) + (out + part) == sent + part;
        out := out + part;
      }
    }
  }

  /** The text so far is the digits so far, in whole blocks, and the digits and the pending bits are
      all the bits of the input. */
  ghost predicate Sent(c: Code, input: seq<byte>, text: seq<byte>, digits: seq<byte>, pending: seq<bool>) {
    && IsCode(c) && Narrow(digits, c.bits) && text == Mapped(c.alphabet, digits)
    && |digits| % BlockSize(c.bits) == 0
    && Joined(digits, c.bits) + pending == Joined(input, 8)
  }

  /** A full block is complete digits. */
  lemma FullBlock(cells: seq<byte>, width: nat, used: nat, bits: seq<bool>)
    requires Filled(cells, width, |cells|, used, bits)
    ensures used == 0 && bits == Joined(cells, width)
  {
    assert cells[..|cells|] == cells;
  }

  /** A started digit counts with its zeros. */
  lemma LastDigit(cells: seq<byte>, width: nat, at: nat, used: nat, bits: seq<bool>)
    requires Filled(cells, width, at, used, bits)
    ensures used == 0 ==> Joined(cells[..at], width) == bits
    ensures used > 0 ==> at < |cells| && Joined(cells[..at + 1], width) == bits + Falses(width - used)
  {
    hide Joined, BitsOf;
    if used > 0 {
      assert cells[..at + 1] == cells[..at] + [cells[at]];
      JoinedAppend(cells[..at], cells[at], width);
      assert BitsOf(cells[at], width) == BitsOf(cells[at], width)[..used] + BitsOf(cells[at], width)[used..];
    }
  }

  lemma FilledInside(cells: seq<byte>, width: nat, at: nat, used: nat, bits: seq<bool>)
    requires Filled(cells, width, at, used, bits)
    ensures at <= |cells| && used < width
  {
  }

  lemma NarrowFilled(cells: seq<byte>, width: nat, at: nat, used: nat, bits: seq<bool>)
    requires Filled(cells, width, at, used, bits)
    ensures Narrow(cells, width)
  {
  }

  lemma NotYetFull(at: nat, used: nat, width: nat, size: nat)
    requires at < size && used < width
    ensures at * width + used < size * width
  {
    MulMonotone(width, at + 1, size);
  }

  /** One more byte of input. */
  lemma SentBits(c: Code, input: seq<byte>, text: seq<byte>, digits: seq<byte>, pending: seq<bool>, b: byte)
    requires Sent(c, input, text, digits, pending)
    ensures Sent(c, input + [b], text, digits, pending + BitsOf(b, 8))
  {
    hide BitsOf, Mapped, BlockSize, Pow2;
    JoinedAppend(input, b, 8);
    hide Joined;
    assert Joined(digits, c.bits) + (pending + BitsOf(b, 8)) == Joined(digits, c.bits) + pending + BitsOf(b, 8);
  }

  /** One more block of output. */
  lemma SentBlock(c: Code, input: seq<byte>, text: seq<byte>, digits: seq<byte>, pending: seq<bool>, block: seq<byte>)
    requires Sent(c, input, text, digits, pending) && Narrow(block, c.bits) && |block| == BlockSize(c.bits)
    requires pending == Joined(block, c.bits)
    ensures Narrow(digits + block, c.bits) && Sent(c, input, text + Mapped(c.alphabet, block), digits + block, [])
  {
    hide Joined, Pow2;
    JoinedConcat(digits, block, c.bits);
    MappedAppend(c.alphabet, digits, block);
    WholeBlocks(|digits|, BlockSize(c.bits));
  }

  lemma WholeBlocks(count: nat, block: nat)
    requires block > 0 && count % block == 0
    ensures (count + block) % block == 0
  {
    DivModIdentity(count, block);
    DivModUnique(count + block, block, count / block + 1, 0);
  }

  /** The digits of the pending bits. */
  ghost predicate EndOf(pending: seq<bool>, last: seq<byte>, width: nat) {
    exists fill: nat :: fill < width && Joined(last, width) == pending + Falses(fill)
  }

  lemma NothingLeft(width: nat)
    requires width > 0
    ensures EndOf([], [], width)
  {
    assert Joined([], width) == [] + Falses(0);
  }

  lemma NothingFilled(pending: seq<bool>, width: nat, used: nat)
    requires used < width
    ensures forall last :: Joined(last, width) == (if used == 0 then pending else pending + Falses(width - used)) ==> EndOf(pending, last, width)
  {
    assert pending == pending + Falses(0);
  }

  lemma NothingSent(c: Code)
    requires IsCode(c)
    ensures Sent(c, [], [], [], [])
  {
  }

  /** The text sent, the digits left and the padding make up the whole encoding. */
  lemma EncodedInFull(c: Code, input: seq<byte>, text: seq<byte>, digits: seq<byte>, pending: seq<bool>, last: seq<byte>)
    requires Sent(c, input, text, digits, pending) && Narrow(last, c.bits) && EndOf(pending, last, c.bits) && |last| <= BlockSize(c.bits)
    ensures text + (Mapped(c.alphabet, last) + (if c.padding.Some? && |last| > 0 then Repeat(c.padding.value, BlockSize(c.bits) - |last|) else []))
         == Encoded(c, input)
  {
    hide Joined, Pow2, BlockSize;
    var fill: nat :| fill < c.bits && Joined(last, c.bits) == pending + Falses(fill);
    JoinedConcat(digits, last, c.bits);
    assert Joined(digits + last, c.bits) == Joined(input, 8) + Falses(fill);
    DigitsUnique(digits + last, c.bits, Joined(input, 8), fill);
    MappedAppend(c.alphabet, digits, last);
    MissingFromLast(|digits|, |last|, BlockSize(c.bits));
  }

  lemma MissingFromLast(count: nat, last: nat, block: nat)
    requires block > 0 && count % block == 0 && last <= block
    ensures Missing(count + last, block) == if last > 0 then block - last else 0
  {
    DivModIdentity(count, block);
    if last < block {
      DivModUnique(count + last, block, count / block, last);
    } else {
      WholeBlocks(count, block);
    }
  }

  // ----- grouping

  lemma GroupedStep(s: seq<byte>, g: nat, separator: seq<byte>)
    requires 0 < g < |s|
    ensures Grouped(s, g, separator) == s[..g] + separator + Grouped(s[g..], g, separator) && LastBlock(g, s) == LastBlock(g, s[g..])
  {
  }

  lemma GroupedShort(s: seq<byte>, g: nat, separator: seq<byte>)
    requires g > 0 && |s| <= g
    ensures Grouped(s, g, separator) == s && LastBlock(g, s) == s
  {
  }

  /** More characters after a text that has been grouped. */
  lemma {:induction false} GroupedAppend(s: seq<byte>, t: seq<byte>, g: nat, separator: seq<byte>)
    requires g > 0 && t != []
    requires (|LastBlock(g, s)| == g && |t| <= g) || |LastBlock(g, s)| + |t| <= g
    ensures Grouped(s + t, g, separator) == Grouped(s, g, separator) + (if |LastBlock(g, s)| == g then separator else []) + t
    ensures |LastBlock(g, s + t)| == if |LastBlock(g, s)| == g then |t| else |LastBlock(g, s)| + |t|
    decreases |s|
  {
    hide Grouped, LastBlock;
    if |s| > g {
      GroupedStep(s, g, separator);
      GroupedStep(s + t, g, separator);
      assert (s + t)[..g] == s[..g] && (s + t)[g..] == s[g..] + t;
      GroupedAppend(s[g..], t, g, separator);
    } else {
      GroupedShort(s, g, separator);
      if |s| == g {
        GroupedStep(s + t, g, separator);
        assert (s + t)[..g] == s && (s + t)[g..] == t;
        GroupedShort(t, g, separator);
      } else {
        GroupedShort(s + t, g, separator);
      }
    }
  }

  class Grouper {
    const m_separator: seq<byte>
    const m_terminator: seq<byte>
    const m_groupSize: nat
    var m_counter: nat
    ghost var input: seq<byte>
    ghost var text: seq<byte>

    ghost predicate Valid()
      reads this
    {
      if m_groupSize == 0 then text == input && m_counter == 0
      else text == Grouped(input, m_groupSize, m_separator) && m_counter == |LastBlock(m_groupSize, input)|
    }

    constructor (groupSize: nat, separator: seq<byte>, terminator: seq<byte>)
      ensures Valid() && m_groupSize == groupSize && m_separator == separator && m_terminator == terminator
      ensures input == [] && text == []
    {
      m_groupSize, m_separator, m_terminator, m_counter := groupSize, separator, terminator, 0;
      input, text := [], [];
    }

    /** The loop over the input. */
    method PutGroups(chunk: seq<byte>) returns (out: seq<byte>)
      requires Valid() && m_groupSize > 0
      modifies this
      ensures Valid() && input == old(input) + chunk && text == old(text) + out
    {
      hide Valid;
      out := [];
      var position: nat := 0;
      while position < |chunk|
        invariant position <= |chunk| && Valid()
        invariant input == old(input) + chunk[..position] && text == old(text) + out
      {
        var part, next := PutGroup(chunk, position);
        assert chunk[..next] == chunk[..position] + chunk[position..next];
        out := out + part;
        position := next;
      }
      assert chunk[..|chunk|] == chunk;
    }

    /** The body of the loop: a separator when the group is full, and what fits into the group. */
    method PutGroup(chunk: seq<byte>, position: nat) returns (out: seq<byte>, next: nat)
      requires Valid() && m_groupSize > 0 && position < |chunk|
      modifies this
      ensures Valid() && position < next <= |chunk|
      ensures input == old(input) + chunk[position..next] && text == old(text) + out
    {
      hide Grouped, LastBlock;
      out := [];
      if m_counter == m_groupSize {
        out := m_separator;
        m_counter := 0;
      }
      var len := if |chunk| - position < m_groupSize - m_counter then |chunk| - position else m_groupSize - m_counter;
      next := position + len;
      ghost var part := chunk[position..next];
      GroupedAppend(input, part, m_groupSize, m_separator);
      out := out + chunk[position..next];
      input, text := input + part, text + out;
      m_counter := m_counter + len;
    }

    /** Put2. */
    method Put2(chunk: seq<byte>, messageEnd: bool) returns (out: seq<byte>)
      requires Valid()
      modifies this
      ensures Valid()
      ensures !messageEnd ==> input == old(input) + chunk && text == old(text) + out
      ensures messageEnd ==> input == [] && text == []
      ensures messageEnd ==> old(text) + out == GroupedText(old(input) + chunk, m_groupSize, m_separator, m_terminator)
    {
      hide Grouped, LastBlock;
      if m_groupSize > 0 {
        out := PutGroups(chunk);
      } else {
        out := chunk;
        input, text := input + chunk, text + chunk;
      }
      if messageEnd {
        assert old(text) + (out + m_terminator) == text + m_terminator;
        out := out + m_terminator;
        Restart();
      }
    }

    method Restart()
      modifies this
      ensures Valid() && input == [] && text == []
    {
      m_counter := 0;
      input, text := [], [];
    }
  }

  // ----- decoding

  lemma {:induction false} ShlSmall(v: nat, n: nat, l: nat)
    requires v < Pow2(n)
    ensures Shl(v, l) < Pow2(n + l)
  {
    if l > 0 { ShlSmall(v, n, l - 1); }
  }

  /** A digit shifted up to the free end of a cell it fits into. */
  lemma DigitPlaced(v: nat, width: nat, used: nat)
    requires used + width <= 8 && v < Pow2(width)
    ensures var l := 8 - used - width;
      Shl(v, l) < 256 && BitsOf(Shl(v, l), 8) == Falses(used) + (BitsOf(v, width) + Falses(l))
  {
    hide BitsOf, Shl, Pow2;
    var l := 8 - used - width;
    ShlSmall(v, width, l);
    ShlBits(v, l, width);
    Pow2Monotone(width + l, 8);
    Pow2OfEight();
    SmallBits(Shl(v, l), 8, width + l);
  }

  /** A digit that straddles two cells. */
  lemma DigitSplit(v: nat, width: nat, used: nat)
    requires width <= 8 && used < 8 && 8 < used + width && v < Pow2(width)
    ensures var over := used + width - 8;
      && Shr(v, over) < 256 && BitsOf(Shr(v, over), 8) == Falses(used) + BitsOf(v, width)[..8 - used]
      && BitsOf(Low(Shl(v, 8 - over), 8), 8) == Falses(0) + (BitsOf(v, width)[8 - used..] + Falses(8 - over))
  {
    hide BitsOf, Shl, Shr, Low, Pow2;
    var over := used + width - 8;
    ShrSmall(v, over, width);
    ShrBits(v, over, width);
    Pow2Monotone(8 - used, 8);
    Pow2OfEight();
    SmallBits(Shr(v, over), 8, 8 - used);
    LowBits(Shl(v, 8 - over), 8);
    ShlBits(v, 8 - over, width);
    NarrowBits(Shl(v, 8 - over), width + 8 - over, 8);
    assert (BitsOf(v, width) + Falses(8 - over))[width - over..] == BitsOf(v, width)[8 - used..] + Falses(8 - over);
  }

  class BaseN_Decoder {
    const m_lookup: seq<int>
    const m_bitsPerChar: nat
    const m_outputBlockSize: nat
    const m_outBuf: array<byte>
    var m_bytePos: nat
    var m_bitPos: nat
    /** The text so far, the bytes given out, and the digits whose bits are in the block. */
    ghost var input: seq<byte>
    ghost var bytes: seq<byte>
    ghost var held: seq<byte>

    ghost predicate Configured()
      reads this
    {
      && 1 <= m_bitsPerChar <= 7 && IsLookup(m_lookup, m_bitsPerChar)
      && m_outputBlockSize == ByteBlockSize(m_bitsPerChar) == m_outBuf.Length
    }

    ghost predicate Holds(bits: seq<bool>)
      reads this, m_outBuf
    {
      if m_bytePos == 0 && m_bitPos == 0 then bits == []
      else Filled(m_outBuf[..], 8, m_bytePos, m_bitPos, bits)
    }

    ghost predicate Valid()
      reads this, m_outBuf
    {
      && Configured() && Holds(Joined(held, m_bitsPerChar)) && |held| < BlockSize(m_bitsPerChar)
      && Joined(bytes, 8) + Joined(held, m_bitsPerChar) == Joined(Values(m_lookup, input), m_bitsPerChar)
    }

    /** IsolatedInitialize, whose loop finds the same least common multiple as the encoder's. */
    constructor (lookup: seq<int>, bits: nat)
      requires 1 <= bits <= 7 && IsLookup(lookup, bits)
      ensures Valid() && m_lookup == lookup && m_bitsPerChar == bits && input == [] && bytes == [] && fresh(m_outBuf)
    {
      m_lookup, m_bitsPerChar := lookup, bits;
      var size := FindByteBlockSize(bits);
      m_outputBlockSize := size;
      m_outBuf := new byte[size](_ => 0);
      m_bytePos, m_bitPos := 0, 0;
      input, bytes, held := [], [], [];
    }

    /** memset. */
    method Clear()
      requires Configured()
      modifies m_outBuf
      ensures m_outBuf[..] == Zeros(m_outBuf.Length)
    {
      forall i | 0 <= i < m_outBuf.Length { m_outBuf[i] := 0; }
    }

    /** m_outBuf[at] |= v. */
    method OrInto(at: nat, v: byte)
      requires at < m_outBuf.Length
      modifies m_outBuf
      ensures m_outBuf[..] == old(m_outBuf[..])[at := OrByte(old(m_outBuf[at]), v)]
    {
      hide OrByte;
      m_outBuf[at] := OrByte(m_outBuf[at], v);
    }

    /** A digit that fits into the current byte. */
    method StoreWithin(v: byte, ghost bits: seq<bool>)
      requires Configured() && Filled(m_outBuf[..], 8, m_bytePos, m_bitPos, bits) && v < Pow2(m_bitsPerChar)
      requires m_bitPos + m_bitsPerChar <= 8 && m_bytePos < m_outBuf.Length
      modifies m_outBuf
      ensures var now := bits + BitsOf(v, m_bitsPerChar);
        if m_bitPos + m_bitsPerChar < 8 then Filled(m_outBuf[..], 8, m_bytePos, m_bitPos + m_bitsPerChar, now)
        else Filled(m_outBuf[..], 8, m_bytePos + 1, 0, now)
    {
      hide Filled, BitsOf, Shl, ByteBlockSize, IsLookup, OrByte;
      var newBitPos := m_bitPos + m_bitsPerChar;
      DigitPlaced(v, m_bitsPerChar, m_bitPos);
      ghost var part := BitsOf(v, m_bitsPerChar);
      hide Pow2;
      Pow2OfEight();
      if newBitPos < 8 {
        CellTakesPart(m_outBuf[..], 8, m_bytePos, m_bitPos, bits, Shl(v, 8 - newBitPos), part);
      } else {
        assert part + Falses(0) == part;
        CellTakesRest(m_outBuf[..], 8, m_bytePos, m_bitPos, bits, Shl(v, 8 - newBitPos), part);
      }
      OrInto(m_bytePos, Shl(v, 8 - newBitPos));
    }

    /** A digit that runs over into the next byte. */
    method StoreAcross(v: byte, ghost bits: seq<bool>)
      requires Configured() && Filled(m_outBuf[..], 8, m_bytePos, m_bitPos, bits) && v < Pow2(m_bitsPerChar)
      requires m_bitPos + m_bitsPerChar > 8 && m_bytePos + 1 < m_outBuf.Length
      modifies m_outBuf
      ensures Filled(m_outBuf[..], 8, m_bytePos + 1, m_bitPos + m_bitsPerChar - 8, bits + BitsOf(v, m_bitsPerChar))
    {
      hide Filled, BitsOf, Shl, Shr, Low, ByteBlockSize, IsLookup, OrByte;
      var newBitPos := m_bitPos + m_bitsPerChar;
      FilledInside(m_outBuf[..], 8, m_bytePos, m_bitPos, bits);
      DigitSplit(v, m_bitsPerChar, m_bitPos);
      hide Pow2;
      Pow2OfEight();
      ghost var all := BitsOf(v, m_bitsPerChar);
      CellTakesRest(m_outBuf[..], 8, m_bytePos, m_bitPos, bits, Shr(v, newBitPos - 8), all[..8 - m_bitPos]);
      OrInto(m_bytePos, Shr(v, newBitPos - 8));
      var low: byte := Low(Shl(v, 16 - newBitPos), 8);
      CellTakesPart(m_outBuf[..], 8, m_bytePos + 1, 0, bits + all[..8 - m_bitPos], low, all[8 - m_bitPos..]);
      OrInto(m_bytePos + 1, low);
      assert bits + all[..8 - m_bitPos] + all[8 - m_bitPos..] == bits + all;
    }

    /** The bits of one digit into the block. */
    method PutDigit(v: byte, ghost bits: seq<bool>)
      requires Configured() && Filled(m_outBuf[..], 8, m_bytePos, m_bitPos, bits) && v < Pow2(m_bitsPerChar)
      requires |bits| + m_bitsPerChar <= 8 * m_outputBlockSize
      modifies this`m_bytePos, this`m_bitPos, m_outBuf
      ensures Filled(m_outBuf[..], 8, m_bytePos, m_bitPos, bits + BitsOf(v, m_bitsPerChar))
    {
      hide Filled, BitsOf, ByteBlockSize, IsLookup, Pow2;
      FilledLength(m_outBuf[..], 8, m_bytePos, m_bitPos, bits);
      FilledInside(m_outBuf[..], 8, m_bytePos, m_bitPos, bits);
      var newBitPos := m_bitPos + m_bitsPerChar;
      if newBitPos <= 8 {
        StoreWithin(v, bits);
      } else {
        StoreAcross(v, bits);
      }
      m_bitPos := newBitPos;
      ghost var cells := m_outBuf[..];
      while m_bitPos >= 8
        invariant m_outBuf[..] == cells
        invariant m_bytePos * 8 + m_bitPos == old(m_bytePos) * 8 + newBitPos && m_bitPos <= newBitPos
      {
        m_bitPos := m_bitPos - 8;
        m_bytePos := m_bytePos + 1;
      }
    }

    /** The body of the loop: one character in, a block out when it is full. */
    method TakeCharacter(c: byte) returns (out: seq<byte>)
      requires Valid()
      modifies this, m_outBuf
      ensures Valid() && input == old(input) + [c] && bytes == old(bytes) + out
    {
      hide Filled, BitsOf, BlockSize, ByteBlockSize, Pow2, Joined, Values;
      var value := m_lookup[c];
      LookupBelow(m_lookup, m_bitsPerChar);
      ValuesNext(m_lookup, input, c);
      BlockBits(m_bitsPerChar);
      out := [];
      if value < 0 {
        assert Values(m_lookup, input) + [] == Values(m_lookup, input);
        input := input + [c];
        return;
      }
      out := TakeDigit(c, value);
    }

    /** The rest of the body, for a character that is a digit. */
    method TakeDigit(c: byte, value: byte) returns (out: seq<byte>)
      requires Valid() && value < Pow2(m_bitsPerChar)
      requires Values(m_lookup, input + [c]) == Values(m_lookup, input) + [value]
      modifies this, m_outBuf
      ensures Valid() && input == old(input) + [c] && bytes == old(bytes) + out
    {
      hide Filled, BitsOf, BlockSize, ByteBlockSize, Pow2, Joined, Values;
      RoomForDigit(|held|, m_bitsPerChar);
      JoinedLength(held, m_bitsPerChar);
      if m_bytePos == 0 && m_bitPos == 0 { Clear(); ClearedIsFilled(m_outBuf[..], 8); }
      PutDigit(value, Joined(held, m_bitsPerChar));
      JoinedAppend(held, value, m_bitsPerChar);
      JoinedAppend(Values(m_lookup, input), value, m_bitsPerChar);
      assert Joined(bytes, 8) + (Joined(held, m_bitsPerChar) + BitsOf(value, m_bitsPerChar))
          == Joined(bytes, 8) + Joined(held, m_bitsPerChar) + BitsOf(value, m_bitsPerChar);
      input, held := input + [c], held + [value];
      out := [];
      FilledLength(m_outBuf[..], 8, m_bytePos, m_bitPos, Joined(held, m_bitsPerChar));
      FilledInside(m_outBuf[..], 8, m_bytePos, m_bitPos, Joined(held, m_bitsPerChar));
      JoinedLength(held, m_bitsPerChar);
      if m_bytePos == m_outputBlockSize {
        out := TakeBlock();
      } else {
        BlockNotFull(|held|, m_bitsPerChar, m_bytePos, m_bitPos);
      }
    }

    method TakeBlock() returns (out: seq<byte>)
      requires Configured() && m_bytePos == m_outputBlockSize && Filled(m_outBuf[..], 8, m_bytePos, m_bitPos, Joined(held, m_bitsPerChar))
      requires Joined(bytes, 8) + Joined(held, m_bitsPerChar) == Joined(Values(m_lookup, input), m_bitsPerChar)
      modifies this`m_bytePos, this`m_bitPos, this`bytes, this`held
      ensures Valid() && bytes == old(bytes) + out
    {
      hide Filled, BitsOf, Pow2, Joined, Values, IsLookup, ByteBlockSize, BlockSize;
      out := m_outBuf[..];
      FullBlock(out, 8, m_bitPos, Joined(held, m_bitsPerChar));
      JoinedConcat(bytes, out, 8);
      JoinedEmpty(m_bitsPerChar);
      bytes, held := bytes + out, [];
      m_bytePos, m_bitPos := 0, 0;
    }

    /** The end of the message: the complete bytes, without the bits left over. */
    method EndMessage() returns (out: seq<byte>)
      requires Valid()
      modifies this
      ensures Valid() && input == [] && bytes == []
      ensures old(bytes) + out == Decoded(m_lookup, m_bitsPerChar, old(input))
    {
      hide BitsOf, BlockSize, Pow2, Joined, Values, ByteBlockSize, WholeGroups;
      out := m_outBuf[..m_bytePos];
      JoinedEmpty(8);
      ghost var rest := if m_bitPos == 0 then [] else BitsOf(m_outBuf[..][m_bytePos], 8)[..m_bitPos];
      assert Joined(held, m_bitsPerChar) == Joined(out, 8) + rest;
      JoinedConcat(bytes, out, 8);
      assert Joined(bytes + out, 8) + rest == Joined(bytes, 8) + (Joined(out, 8) + rest);
      NarrowBytes(bytes + out);
      WholeGroupsUnique(bytes + out, 8, Joined(Values(m_lookup, input), m_bitsPerChar), rest);
      Restart();
    }

    method Restart()
      requires Configured()
      modifies this
      ensures Valid() && input == [] && bytes == []
    {
      m_bytePos, m_bitPos := 0, 0;
      input, bytes, held := [], [], [];
    }

    /** Put2. */
    method Put2(chunk: seq<byte>, messageEnd: bool) returns (out: seq<byte>)
      requires Valid()
      modifies this, m_outBuf
      ensures Valid()
      ensures !messageEnd ==> input == old(input) + chunk && bytes == old(bytes) + out
      ensures messageEnd ==> input == [] && bytes == []
      ensures messageEnd ==> old(bytes) + out == Decoded(m_lookup, m_bitsPerChar, old(input) + chunk)
    {
      hide Filled, Joined, Values, Decoded, Holds, BlockSize, ByteBlockSize, Pow2;
      out := [];
      for i := 0 to |chunk|
        invariant Valid() && input == old(input) + chunk[..i] && bytes == old(bytes) + out
      {
        var part := TakeCharacter(chunk[i]);
        out := out + part;
      }
      assert chunk[..|chunk|] == chunk;
      if messageEnd {
        ghost var sent := bytes;
        var part := EndMessage();
        assert old(bytes) + (out + part) == sent + part;
        out := out + part;
      }
    }
  }

  lemma LookupBelow(lookup: seq<int>, bits: nat)
    requires IsLookup(lookup, bits)
    ensures |lookup| == 256 && forall i :: 0 <= i < 256 ==> lookup[i] < 256 && lookup[i] < Pow2(bits)
  {
  }

  lemma ValuesNext(lookup: seq<int>, s: seq<byte>, c: byte)
    requires |lookup| == 256 && forall i :: 0 <= i < 256 ==> lookup[i] < 256
    ensures Values(lookup, s + [c]) == Values(lookup, s) + (if lookup[c] < 0 then [] else [lookup[c]])
  {
    assert (s + [c])[..|s|] == s;
  }

  /** A block that lacks a digit has room for it. */
  lemma RoomForDigit(count: nat, bits: nat)
    requires 1 <= bits <= 7 && count < BlockSize(bits)
    ensures count * bits + bits <= 8 * ByteBlockSize(bits)
  {
    BlockBits(bits);
    MulMonotone(bits, count + 1, BlockSize(bits));
  }

  lemma BlockNotFull(count: nat, bits: nat, at: nat, used: nat)
    requires 1 <= bits <= 7 && count * bits == at * 8 + used && at < ByteBlockSize(bits) && used < 8
    ensures count < BlockSize(bits)
  {
    BlockBits(bits);
    CellInside(count, 0, bits, BlockSize(bits));
  }

  /** The decoder's search for its block size. */
  method FindByteBlockSize(bits: nat) returns (size: nat)
    requires 1 <= bits <= 7
    ensures size == ByteBlockSize(bits)
    ensures FillsDigits(size, bits) && forall k :: 0 < k < size ==> !FillsDigits(k, bits)
  {
    var i := bits;
    while i % 8 != 0
      invariant i % bits == 0 && bits <= i <= 8 * ByteBlockSize(bits)
      decreases 8 * ByteBlockSize(bits) - i
    {
      ByteMultipleAhead(i, bits);
      i := i + bits;
    }
    LeastMultipleOfEight(i, bits);
    size := i / 8;
    ByteBlockSizeLeast(bits);
  }

  lemma ByteMultipleAhead(i: nat, bits: nat)
    requires 1 <= bits <= 7 && i % bits == 0 && i <= 8 * ByteBlockSize(bits) && i % 8 != 0
    ensures i + bits <= 8 * ByteBlockSize(bits) && (i + bits) % bits == 0
  {
    WholeBlocks(i, bits);
    BlockBits(bits);
    NextMultiple(i, bits, BlockSize(bits), 8 * ByteBlockSize(bits));
  }

  /** Between a multiple and a larger one there is room for a step. */
  lemma NextMultiple(i: nat, d: nat, k: nat, end: nat)
    requires d > 0 && i % d == 0 && end == k * d && i < end
    ensures i + d <= end
  {
    var q := i / d;
    DivModIdentity(i, d);
    if q >= k { MulMonotone(d, k, q); } else { MulMonotone(d, q + 1, k); }
  }

  lemma LeastMultipleOfEight(i: nat, bits: nat)
    requires 1 <= bits <= 7 && i % bits == 0 && bits <= i <= 8 * ByteBlockSize(bits) && i % 8 == 0
    ensures i == 8 * ByteBlockSize(bits)
  {
    assert bits == 1 || bits == 2 || bits == 3 || bits == 4 || bits == 5 || bits == 6 || bits == 7;
  }

  // ----- the decoding table

  predicate IsAlpha(c: byte) {
    65 <= c <= 90 || 97 <= c <= 122
  }

  function ToUpper(c: byte): byte {
    if 97 <= c <= 122 then c - 32 else c
  }

  function ToLower(c: byte): byte {
    if 65 <= c <= 90 then c + 32 else c
  }

  /** The character c is read as the alphabet's character a. */
  predicate Spells(a: byte, c: byte, caseInsensitive: bool) {
    if caseInsensitive && IsAlpha(a) then c == ToUpper(a) || c == ToLower(a) else c == a
  }

  /** No character is read as two. */
  predicate Unambiguous(alphabet: seq<byte>, caseInsensitive: bool) {
    forall i, j, c: byte :: 0 <= i < j < |alphabet| && Spells(alphabet[i], c, caseInsensitive) ==> !Spells(alphabet[j], c, caseInsensitive)
  }

  /** The table says of every character which digit of the first n it is read as, if any. */
  ghost predicate Reads(lookup: seq<int>, alphabet: seq<byte>, n: nat, caseInsensitive: bool) {
    && |lookup| == 256 && n <= |alphabet|
    && (forall c: byte :: -1 <= lookup[c] < n)
    && (forall c: byte, i :: 0 <= i < n ==> (lookup[c] == i <==> Spells(alphabet[i], c, caseInsensitive)))
  }

  lemma ReadsNext(before: seq<int>, after: seq<int>, alphabet: seq<byte>, n: nat, caseInsensitive: bool)
    requires Reads(before, alphabet, n, caseInsensitive) && Unambiguous(alphabet, caseInsensitive) && n < |alphabet| && |after| == 256
    requires forall c: byte :: after[c] == if Spells(alphabet[n], c, caseInsensitive) then n else before[c]
    ensures Reads(after, alphabet, n + 1, caseInsensitive)
  {
    hide Spells;
  }

  /** InitializeDecodingLookupArray; its assertions ask for an unambiguous alphabet. */
  method InitializeDecodingLookupArray(lookup: array<int>, alphabet: seq<byte>, caseInsensitive: bool)
    requires lookup.Length == 256 && Unambiguous(alphabet, caseInsensitive)
    modifies lookup
    ensures Reads(lookup[..], alphabet, |alphabet|, caseInsensitive)
  {
    hide Unambiguous;
    forall i | 0 <= i < 256 { lookup[i] := -1; }
    for i := 0 to |alphabet|
      invariant Reads(lookup[..], alphabet, i, caseInsensitive)
    {
      ghost var before := lookup[..];
      Enter(lookup, alphabet[i], i, caseInsensitive);
      ReadsNext(before, lookup[..], alphabet, i, caseInsensitive);
    }
  }

  /** The body of the loop. */
  method Enter(lookup: array<int>, a: byte, i: nat, caseInsensitive: bool)
    requires lookup.Length == 256
    modifies lookup
    ensures forall c: byte :: lookup[..][c] == if Spells(a, c, caseInsensitive) then i else old(lookup[..])[c]
  {
    if caseInsensitive && IsAlpha(a) {
      lookup[ToUpper(a)] := i;
      lookup[ToLower(a)] := i;
    } else {
      lookup[a] := i;
    }
  }

  /** A table made from an alphabet of 2^bits characters undoes it. */
  lemma TableUndoes(lookup: seq<int>, alphabet: seq<byte>, bits: nat, caseInsensitive: bool)
    requires 1 <= bits <= 7 && |alphabet| == Pow2(bits) && Reads(lookup, alphabet, |alphabet|, caseInsensitive)
    ensures IsLookup(lookup, bits) && Undoes(lookup, alphabet)
    ensures forall c: byte :: (lookup[c] < 0 <==> forall i :: 0 <= i < |alphabet| ==> !Spells(alphabet[i], c, caseInsensitive))
  {
    Pow2Monotone(bits, 8);
    Pow2OfEight();
    hide Pow2;
    assert forall c: byte :: lookup[c] >= 0 ==> Spells(alphabet[lookup[c]], c, caseInsensitive);
    forall i | 0 <= i < |alphabet|
      ensures lookup[alphabet[i]] == i
    {
      assert Spells(alphabet[i], alphabet[i], caseInsensitive);
    }
  }

  // ----- the three stages in a row

  method EncodeParts(encoder: BaseN_Encoder, parts: seq<seq<byte>>) returns (text: seq<byte>)
    requires encoder.Valid() && IsCode(encoder.m_code) && encoder.input == [] && encoder.text == [] && parts != []
    modifies encoder, encoder.m_outBuf
    ensures encoder.Valid() && text == Encoded(encoder.m_code, Flatten(parts))
  {
    hide BaseN_Encoder.Valid, Encoded, Flatten;
    text := [];
    FlattenNothing();
    for i := 0 to |parts|
      invariant encoder.Valid() && (i < |parts| ==> encoder.input == Flatten(parts[..i]) && encoder.text == text)
      invariant i == |parts| ==> text == Encoded(encoder.m_code, Flatten(parts[..i]))
    {
      FlattenNext(parts, i);
      var out := encoder.Put2(parts[i], i == |parts| - 1);
      text := text + out;
    }
    assert parts[..|parts|] == parts;
  }

  method GroupParts(grouper: Grouper, parts: seq<seq<byte>>) returns (text: seq<byte>)
    requires grouper.Valid() && grouper.input == [] && grouper.text == [] && parts != []
    modifies grouper
    ensures grouper.Valid()
    ensures text == GroupedText(Flatten(parts), grouper.m_groupSize, grouper.m_separator, grouper.m_terminator)
  {
    hide Grouper.Valid, GroupedText, Flatten;
    text := [];
    FlattenNothing();
    for i := 0 to |parts|
      invariant grouper.Valid() && (i < |parts| ==> grouper.input == Flatten(parts[..i]) && grouper.text == text)
      invariant i == |parts| ==> text == GroupedText(Flatten(parts[..i]), grouper.m_groupSize, grouper.m_separator, grouper.m_terminator)
    {
      FlattenNext(parts, i);
      var out := grouper.Put2(parts[i], i == |parts| - 1);
      text := text + out;
    }
    assert parts[..|parts|] == parts;
  }

  method DecodeParts(decoder: BaseN_Decoder, parts: seq<seq<byte>>) returns (bytes: seq<byte>)
    requires decoder.Valid() && decoder.input == [] && decoder.bytes == [] && parts != []
    modifies decoder, decoder.m_outBuf
    ensures decoder.Valid() && bytes == Decoded(decoder.m_lookup, decoder.m_bitsPerChar, Flatten(parts))
  {
    hide BaseN_Decoder.Holds, Decoded, Flatten, Joined, Values, Filled;
    bytes := [];
    FlattenNothing();
    for i := 0 to |parts|
      invariant decoder.Valid() && (i < |parts| ==> decoder.input == Flatten(parts[..i]) && decoder.bytes == bytes)
      invariant i == |parts| ==> bytes == Decoded(decoder.m_lookup, decoder.m_bitsPerChar, Flatten(parts[..i]))
    {
      FlattenNext(parts, i);
      var out := decoder.Put2(parts[i], i == |parts| - 1);
      bytes := bytes + out;
    }
    assert parts[..|parts|] == parts;
  }

  /** On character codes: of an alphabet's character a, the digit is read from a itself and, without regard
      to case, from the letter 32 after a capital and 32 before a small letter; from nothing else. */
  lemma TableOnCodes(lookup: seq<int>, alphabet: seq<byte>, caseInsensitive: bool, i: nat)
    requires Reads(lookup, alphabet, |alphabet|, caseInsensitive) && i < |alphabet|
    ensures lookup[alphabet[i]] == i
    ensures caseInsensitive && 65 <= alphabet[i] <= 90 ==> lookup[alphabet[i] + 32] == i
    ensures caseInsensitive && 97 <= alphabet[i] <= 122 ==> lookup[alphabet[i] - 32] == i
    ensures forall c: byte :: lookup[c] == i ==>
      c == alphabet[i] || (caseInsensitive && ((65 <= alphabet[i] <= 90 && c == alphabet[i] + 32) || (97 <= alphabet[i] <= 122 && c == alphabet[i] - 32)))
  {
    var a := alphabet[i];
    assert Spells(a, a, caseInsensitive);
    if caseInsensitive && 65 <= a <= 90 { assert Spells(a, a + 32, caseInsensitive); }
    if caseInsensitive && 97 <= a <= 122 { assert Spells(a, a - 32, caseInsensitive); }
  }

  /** The same letter, perhaps in the other case, or the same character. */
  predicate SameLetter(c: byte, d: byte) {
    c == d || (65 <= c <= 90 && d == c + 32) || (97 <= c <= 122 && d == c - 32)
  }

  /** On character codes: the same character or, without regard to case, the same letter. */
  lemma SpellsMeans(a: byte, c: byte, caseInsensitive: bool)
    ensures Spells(a, c, caseInsensitive) <==> if caseInsensitive then SameLetter(a, c) else a == c
  {
  }

  /** Unambiguous alphabets are those without two equal characters or, without regard to case, letters. */
  lemma UnambiguousMeans(alphabet: seq<byte>, caseInsensitive: bool)
    ensures Unambiguous(alphabet, caseInsensitive)
      <==> forall i, j :: 0 <= i < j < |alphabet| ==> if caseInsensitive then !SameLetter(alphabet[i], alphabet[j]) else alphabet[i] != alphabet[j]
  {
    forall i, j | 0 <= i < j < |alphabet|
      ensures (exists c: byte :: Spells(alphabet[i], c, caseInsensitive) && Spells(alphabet[j], c, caseInsensitive))
        <==> if caseInsensitive then SameLetter(alphabet[i], alphabet[j]) else alphabet[i] == alphabet[j]
    {
      SpelledTogether(alphabet[i], alphabet[j], caseInsensitive);
    }
  }

  lemma SpelledTogether(a: byte, b: byte, caseInsensitive: bool)
    ensures (exists c: byte :: Spells(a, c, caseInsensitive) && Spells(b, c, caseInsensitive))
      <==> if caseInsensitive then SameLetter(a, b) else a == b
  {
    if (if caseInsensitive then SameLetter(a, b) else a == b) {
      assert Spells(a, a, caseInsensitive) && Spells(b, a, caseInsensitive);
    }
  }

  /** Both cases of a letter are read alike, whether or not the alphabet has it. */
  lemma CasesReadAlike(lookup: seq<int>, alphabet: seq<byte>, c: byte, d: byte)
    requires Reads(lookup, alphabet, |alphabet|, true) && SameLetter(c, d)
    ensures lookup[c] == lookup[d]
  {
    if lookup[c] >= 0 { TableOnCodes(lookup, alphabet, true, lookup[c]); }
    if lookup[d] >= 0 { TableOnCodes(lookup, alphabet, true, lookup[d]); }
  }

  /** A text with letters in the other case has the same digits. */
  lemma {:induction false} ValuesIgnoreCase(lookup: seq<int>, alphabet: seq<byte>, s: seq<byte>, t: seq<byte>)
    requires Reads(lookup, alphabet, |alphabet|, true) && |alphabet| <= 256
    requires |s| == |t| && forall k :: 0 <= k < |s| ==> SameLetter(s[k], t[k])
    ensures forall k :: 0 <= k < 256 ==> lookup[k] < 256
    ensures Values(lookup, s) == Values(lookup, t)
  {
    hide SameLetter;
    AllBelow(lookup, alphabet);
    if s != [] {
      var last := |s| - 1;
      ValuesIgnoreCase(lookup, alphabet, s[..last], t[..last]);
      CasesReadAlike(lookup, alphabet, s[last], t[last]);
    }
  }

  lemma AllBelow(lookup: seq<int>, alphabet: seq<byte>)
    requires Reads(lookup, alphabet, |alphabet|, true) && |alphabet| <= 256
    ensures |lookup| == 256 && forall k :: 0 <= k < 256 ==> lookup[k] < 256
  {
    forall k | 0 <= k < 256
      ensures lookup[k] < 256
    {
      var c: byte := k;
      assert lookup[c] < |alphabet|;
    }
  }

  /** So it decodes to the same bytes. */
  lemma DecodedIgnoresCase(lookup: seq<int>, alphabet: seq<byte>, bits: nat, s: seq<byte>, t: seq<byte>)
    requires 1 <= bits <= 7 && |alphabet| == Pow2(bits) && Reads(lookup, alphabet, |alphabet|, true)
    requires |s| == |t| && forall k :: 0 <= k < |s| ==> SameLetter(s[k], t[k])
    ensures IsLookup(lookup, bits) && Decoded(lookup, bits, s) == Decoded(lookup, bits, t)
  {
    hide SameLetter, Reads, Values, Joined, WholeGroups;
    TableUndoes(lookup, alphabet, bits, true);
    Pow2Monotone(bits, 8);
    Pow2OfEight();
    hide Pow2;
    ValuesIgnoreCase(lookup, alphabet, s, t);
  }

  /** A decoder over such a table, fed letters in either case and in any chunks, gives the same bytes. */
  method DecodeEitherCase(lookup: seq<int>, alphabet: seq<byte>, bits: nat, parts: seq<seq<byte>>, others: seq<seq<byte>>)
    returns (bytes: seq<byte>, same: seq<byte>)
    requires 1 <= bits <= 7 && |alphabet| == Pow2(bits) && Reads(lookup, alphabet, |alphabet|, true) && parts != [] && others != []
    requires |Flatten(parts)| == |Flatten(others)| && forall k :: 0 <= k < |Flatten(parts)| ==> SameLetter(Flatten(parts)[k], Flatten(others)[k])
    ensures same == bytes
  {
    hide SameLetter, Reads, Decoded, BaseN_Decoder.Valid, Flatten, Pow2, IsLookup;
    DecodedIgnoresCase(lookup, alphabet, bits, Flatten(parts), Flatten(others));
    var decoder := new BaseN_Decoder(lookup, bits);
    bytes := DecodeParts(decoder, parts);
    var other := new BaseN_Decoder(lookup, bits);
    same := DecodeParts(other, others);
  }

  /** Encoder, grouper and decoder, each stage fed in chunks of its own. */
  method RoundTrip(code: Code, caseInsensitive: bool, groupSize: nat, separator: seq<byte>, terminator: seq<byte>,
                   parts: seq<seq<byte>>, textCuts: seq<nat>, groupedCuts: seq<nat>) returns (bytes: seq<byte>)
    requires IsCode(code) && Unambiguous(code.alphabet, caseInsensitive) && parts != []
    requires code.padding.Some? ==> NotRead([code.padding.value], code.alphabet, caseInsensitive)
    requires NotRead(separator, code.alphabet, caseInsensitive) && NotRead(terminator, code.alphabet, caseInsensitive)
    ensures bytes == Flatten(parts)
  {
    hide Flatten, GroupedText, Unambiguous, NotRead, Encoded, BaseN_Encoder.Valid, Grouper.Valid;
    var lookup := MakeTable(code, caseInsensitive, separator, terminator);
    var encoder := new BaseN_Encoder(code);
    var text := EncodeParts(encoder, parts);
    var grouper := new Grouper(groupSize, separator, terminator);
    CutFlattens(text, textCuts);
    var grouped := GroupParts(grouper, Cut(text, textCuts));
    bytes := Decode(lookup, code, grouped, groupedCuts);
    DecodeGroupedEncode(code, lookup, groupSize, separator, terminator, Flatten(parts));
  }

  /** The decoder's side, for a table that undoes the code. */
  method Decode(lookup: seq<int>, code: Code, text: seq<byte>, cuts: seq<nat>) returns (bytes: seq<byte>)
    requires IsCode(code) && IsLookup(lookup, code.bits)
    ensures bytes == Decoded(lookup, code.bits, text)
  {
    hide Decoded, Flatten, BaseN_Decoder.Valid, IsLookup, Pow2;
    var decoder := new BaseN_Decoder(lookup, code.bits);
    CutFlattens(text, cuts);
    bytes := DecodeParts(decoder, Cut(text, cuts));
  }

  method MakeTable(code: Code, caseInsensitive: bool, separator: seq<byte>, terminator: seq<byte>) returns (lookup: seq<int>)
    requires IsCode(code) && Unambiguous(code.alphabet, caseInsensitive)
    requires code.padding.Some? ==> NotRead([code.padding.value], code.alphabet, caseInsensitive)
    requires NotRead(separator, code.alphabet, caseInsensitive) && NotRead(terminator, code.alphabet, caseInsensitive)
    ensures IsLookup(lookup, code.bits) && Undoes(lookup, code.alphabet)
    ensures code.padding.Some? ==> lookup[code.padding.value] < 0
    ensures Outside(lookup, separator) && Outside(lookup, terminator)
  {
    hide Unambiguous, Reads, Pow2;
    var table := new int[256];
    InitializeDecodingLookupArray(table, code.alphabet, caseInsensitive);
    lookup := table[..];
    TableUndoes(lookup, code.alphabet, code.bits, caseInsensitive);
    if code.padding.Some? {
      NotReadOutside(lookup, [code.padding.value], code.alphabet, code.bits, caseInsensitive);
      assert [code.padding.value][0] == code.padding.value;
    }
    NotReadOutside(lookup, separator, code.alphabet, code.bits, caseInsensitive);
    NotReadOutside(lookup, terminator, code.alphabet, code.bits, caseInsensitive);
  }

  lemma NotReadOutside(lookup: seq<int>, s: seq<byte>, alphabet: seq<byte>, bits: nat, caseInsensitive: bool)
    requires 1 <= bits <= 7 && |alphabet| == Pow2(bits) && Reads(lookup, alphabet, |alphabet|, caseInsensitive)
    requires NotRead(s, alphabet, caseInsensitive)
    ensures Outside(lookup, s)
  {
    hide Pow2, Spells;
    TableUndoes(lookup, alphabet, bits, caseInsensitive);
  }

  /** None of the characters is read as a digit. */
  predicate NotRead(s: seq<byte>, alphabet: seq<byte>, caseInsensitive: bool) {
    forall i, j :: 0 <= i < |s| && 0 <= j < |alphabet| ==> !Spells(alphabet[j], s[i], caseInsensitive)
  }
}
