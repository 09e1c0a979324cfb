/** The streaming layer of blake2.cpp. The compression function is a parameter. */
module Blake2 {
  import opened Powers
  import opened Bytes
  import opened BlockChaining

  /** h, block, the two counter words and the two finalization flags to the next h. */
  type Compression = (seq<byte>, seq<byte>, nat, nat, bool, bool) -> seq<byte>

  /** Word width in bits, block size and state size in bytes: (64, 128, 64) for BLAKE2b and
      (32, 64, 32) for BLAKE2s. */
  datatype Info = Info(wordBits: nat, blockSize: nat, digestSize: nat)

  const BLAKE2B := Info(64, 128, 64)
  const BLAKE2S := Info(32, 64, 32)

  predicate Known(info: Info) {
    info == BLAKE2B || info == BLAKE2S
  }

  ghost predicate IsCompression(F: Compression, info: Info) {
    forall h, block, t0, t1, f0, f1 :: |F(h, block, t0, t1, f0, f1)| == info.digestSize
  }

  // ----- the specification: section 3.3 of RFC 7693

  /** The low and high word of the byte counter. */
  function CounterLow(info: Info, t: nat): nat {
    t % Pow2(info.wordBits)
  }

  function CounterHigh(info: Info, t: nat): nat {
    t / Pow2(info.wordBits) % Pow2(info.wordBits)
  }

  function CompressAt(F: Compression, info: Info, h: seq<byte>, block: seq<byte>, t: nat, last: bool, lastNode: bool): seq<byte> {
    F(h, block, CounterLow(info, t), CounterHigh(info, t), last, lastNode)
  }

  /** h after every block but the last of data, consumed bytes having gone before. */
  function AllButLast(F: Compression, info: Info, h: seq<byte>, consumed: nat, data: seq<byte>): seq<byte>
    requires info.blockSize > 0
    decreases |data|
  {
    if |data| <= info.blockSize then h
    else
      var next := consumed + info.blockSize;
      AllButLast(F, info, CompressAt(F, info, h, data[..info.blockSize], next, false, false), next, data[info.blockSize..])
  }

  /** The key, zero-padded to a whole block, goes in front of the message. */
  function KeyBlock(info: Info, key: seq<byte>): seq<byte>
    requires |key| <= info.blockSize
  {
    if key == [] then [] else key + Zeros(info.blockSize - |key|)
  }

  /** The hash of a padded key and a message: all blocks in order, the last one zero-padded, counted
      by its real length and flagged. Without key and message it is one block of zeros. */
  function Hash(F: Compression, info: Info, h0: seq<byte>, data: seq<byte>, treeMode: bool): seq<byte>
    requires info.blockSize > 0
  {
    var last := LastBlock(info.blockSize, data);
    CompressAt(F, info, AllButLast(F, info, h0, 0, data), last + Zeros(info.blockSize - |last|), |data|, true, treeMode)
  }

  // ----- interrupting the fold

  /** BLAKE2b has 64-bit words and blocks of 128 bytes, BLAKE2s 32-bit words and blocks of 64; the state
      is eight words. */
  lemma KnownSizes(info: Info)
    ensures Known(info) <==> (info.wordBits == 64 || info.wordBits == 32) && info.blockSize == 2 * info.wordBits && info.digestSize == info.wordBits
  {
  }

  /** The key comes first, zeros fill its block, and there is no block without a key. */
  lemma KeyBlockForm(info: Info, key: seq<byte>)
    requires |key| <= info.blockSize
    ensures key == [] ==> KeyBlock(info, key) == []
    ensures key != [] ==> |KeyBlock(info, key)| == info.blockSize && KeyBlock(info, key)[..|key|] == key
    ensures forall i :: |key| <= i < |KeyBlock(info, key)| ==> KeyBlock(info, key)[i] == 0
  {
  }

  /** h after the first i blocks of section 3.3: each is compressed at the number of bytes up to its end,
      modulo 2^(2w) in two words, with neither flag set. */
  function AfterBlocks(F: Compression, info: Info, h0: seq<byte>, data: seq<byte>, i: nat): seq<byte>
    requires i * info.blockSize <= |data|
  {
    if i == 0 then h0
    else
      BlockBefore(i, info.blockSize);
      var start, end := (i - 1) * info.blockSize, i * info.blockSize;
      F(AfterBlocks(F, info, h0, data, i - 1), data[start..end], end % Pow2(info.wordBits), end / Pow2(info.wordBits) % Pow2(info.wordBits), false, false)
  }

  lemma BlockBefore(i: nat, n: nat)
    requires i > 0
    ensures 0 <= (i - 1) * n && (i - 1) * n + n == i * n
  {
  }

  /** What is left after i blocks continues from them. */
  lemma {:induction false} BlocksOn(F: Compression, info: Info, h0: seq<byte>, data: seq<byte>, i: nat)
    requires 0 < info.blockSize && i * info.blockSize <= |data| && (i > 0 ==> i * info.blockSize < |data|)
    ensures AllButLast(F, info, h0, 0, data) == AllButLast(F, info, AfterBlocks(F, info, h0, data, i), i * info.blockSize, data[i * info.blockSize..])
    ensures LastBlock(info.blockSize, data) == LastBlock(info.blockSize, data[i * info.blockSize..])
  {
    hide AllButLast, LastBlock, Pow2;
    var n := info.blockSize;
    if i == 0 {
      assert data[0..] == data;
    } else {
      BlockBefore(i, n);
      var start := (i - 1) * n;
      BlocksOn(F, info, h0, data, i - 1);
      AllButLastStep(F, info, AfterBlocks(F, info, h0, data, i - 1), start, data[start..]);
      assert data[start..][..n] == data[start..start + n] && data[start..][n..] == data[start + n..];
    }
  }

  /** The hash of data of dd blocks, a partial one counting: the first dd - 1 of them, and the last one
      filled up with zeros, counted by the length of all data, with the final flag, and the last-node
      flag in tree mode only. */
  lemma HashByBlocks(F: Compression, info: Info, h0: seq<byte>, data: seq<byte>, treeMode: bool, dd: nat)
    requires info.blockSize > 0 && dd > 0 && (if data == [] then dd == 1 else (dd - 1) * info.blockSize < |data| <= dd * info.blockSize)
    ensures (dd - 1) * info.blockSize <= |data|
    ensures var last := data[(dd - 1) * info.blockSize..];
      |last| <= info.blockSize && Hash(F, info, h0, data, treeMode)
        == F(AfterBlocks(F, info, h0, data, dd - 1), last + Zeros(info.blockSize - |last|),
             |data| % Pow2(info.wordBits), |data| / Pow2(info.wordBits) % Pow2(info.wordBits), true, treeMode)
  {
    hide AllButLast, LastBlock, Pow2, AfterBlocks;
    if data == [] { assert (dd - 1) * info.blockSize == 0; }
    BlockBefore(dd, info.blockSize);
    BlocksOn(F, info, h0, data, dd - 1);
    var last := data[(dd - 1) * info.blockSize..];
    AllButLastShort(F, info, AfterBlocks(F, info, h0, data, dd - 1), (dd - 1) * info.blockSize, last);
  }

  lemma AllButLastStep(F: Compression, info: Info, h: seq<byte>, consumed: nat, data: seq<byte>)
    requires 0 < info.blockSize < |data|
    ensures var n := info.blockSize;
      && AllButLast(F, info, h, consumed, data) == AllButLast(F, info, CompressAt(F, info, h, data[..n], consumed + n, false, false), consumed + n, data[n..])
      && LastBlock(n, data) == LastBlock(n, data[n..])
  {
  }

  lemma AllButLastShort(F: Compression, info: Info, h: seq<byte>, consumed: nat, data: seq<byte>)
    requires info.blockSize > 0 && |data| <= info.blockSize
    ensures AllButLast(F, info, h, consumed, data) == h && LastBlock(info.blockSize, data) == data
  {
  }

  lemma {:induction false} AllButLastAppend(F: Compression, info: Info, h: seq<byte>, consumed: nat, a: seq<byte>, b: seq<byte>)
    requires info.blockSize > 0
    ensures var last := LastBlock(info.blockSize, a);
            && AllButLast(F, info, h, consumed, a + b)
               == AllButLast(F, info, AllButLast(F, info, h, consumed, a), consumed + |a| - |last|, last + b)
            && LastBlock(info.blockSize, a + b) == LastBlock(info.blockSize, last + b)
    decreases |a|
  {
    hide AllButLast, LastBlock, CompressAt;
    var n := info.blockSize;
    if |a| > n {
      AllButLastStep(F, info, h, consumed, a);
      AllButLastStep(F, info, h, consumed, a + b);
      assert (a + b)[..n] == a[..n] && (a + b)[n..] == a[n..] + b;
      AllButLastAppend(F, info, CompressAt(F, info, h, a[..n], consumed + n, false, false), consumed + n, a[n..], b);
    } else {
      AllButLastShort(F, info, h, consumed, a);
    }
  }

  /** Part of the data is compressed into h, held waits, rest is still to come. */
  ghost predicate Midway(F: Compression, info: Info, h0: seq<byte>, data: seq<byte>, h: seq<byte>, held: seq<byte>, rest: seq<byte>) {
    && info.blockSize > 0 && |held| + |rest| <= |data|
    && AllButLast(F, info, h0, 0, data) == AllButLast(F, info, h, |data| - |held| - |rest|, held + rest)
    && LastBlock(info.blockSize, data) == LastBlock(info.blockSize, held + rest)
  }

  lemma MidwayStart(F: Compression, info: Info, h0: seq<byte>, data: seq<byte>, input: seq<byte>)
    requires info.blockSize > 0
    ensures Midway(F, info, h0, data + input, AllButLast(F, info, h0, 0, data), LastBlock(info.blockSize, data), input)
  {
    AllButLastAppend(F, info, h0, 0, data, input);
  }

  /** A block completed from held and the front of rest is compressed when more follows. */
  lemma MidwayCompress(F: Compression, info: Info, h0: seq<byte>, data: seq<byte>, h: seq<byte>, held: seq<byte>, rest: seq<byte>)
    requires Midway(F, info, h0, data, h, held, rest)
    requires |held| <= info.blockSize < |held| + |rest|
    ensures var fill := info.blockSize - |held|;
            var t := |data| - |held| - |rest| + info.blockSize;
            Midway(F, info, h0, data, CompressAt(F, info, h, held + rest[..fill], t, false, false), [], rest[fill..])
  {
    var n := info.blockSize;
    var fill := n - |held|;
    assert (held + rest)[..n] == held + rest[..fill] && (held + rest)[n..] == rest[fill..] == [] + rest[fill..];
  }

  lemma MidwayHold(F: Compression, info: Info, h0: seq<byte>, data: seq<byte>, h: seq<byte>, held: seq<byte>, rest: seq<byte>)
    requires Midway(F, info, h0, data, h, held, rest) && |held| + |rest| <= info.blockSize
    ensures AllButLast(F, info, h0, 0, data) == h && LastBlock(info.blockSize, data) == held + rest
  {
  }

  // ----- the counter

  /** Adding in the low word and carrying when it wraps adds in the double word. */
  lemma CounterAdds(info: Info, t: nat, count: nat)
    requires count < Pow2(info.wordBits)
    ensures var low := (CounterLow(info, t) + count) % Pow2(info.wordBits);
            && low == CounterLow(info, t + count)
            && (CounterHigh(info, t) + if low < count then 1 else 0) % Pow2(info.wordBits) == CounterHigh(info, t + count)
  {
    AddWithCarry(t, count, Pow2(info.wordBits));
  }

  lemma AddWithCarry(t: nat, count: nat, m: nat)
    requires count < m
    ensures var low := (t % m + count) % m;
            && low == (t + count) % m
            && (t / m % m + if low < count then 1 else 0) % m == (t + count) / m % m
  {
    var q, r := t / m, t % m;
    DivModIdentity(t, m);
    if r + count >= m {
      assert m * (q + 1) == m * q + m;
      DivModUnique(t + count, m, q + 1, r + count - m);
      DivModUnique(r + count, m, 1, r + count - m);
      ModAdds(q, 1, m);
    } else {
      DivModUnique(t + count, m, q, r + count);
      DivModUnique(r + count, m, 0, r + count);
      ModAdds(q, 0, m);
    }
  }

  lemma ModAdds(q: nat, c: nat, m: nat)
    requires m > 0
    ensures (q % m + c) % m == (q + c) % m
  {
    DivModIdentity(q, m);
    DivModIdentity(q % m + c, m);
    var k := q / m + (q % m + c) / m;
    assert m * (q / m) + m * ((q % m + c) / m) == m * k;
    DivModUnique(q + c, m, k, (q % m + c) % m);
  }

  // ----- the object

  class BLAKE2 {
    const F: Compression
    const info: Info
    const h0: seq<byte>
    const m_key: seq<byte>
    const m_treeMode: bool
    var h: seq<byte>
    var t0: nat
    var t1: nat
    var f0: bool
    var f1: bool
    const buffer: array<byte>
    var length: nat
    ghost var message: seq<byte>

    ghost predicate Configured()
      reads this
    {
      && Known(info) && IsCompression(F, info) && buffer.Length == info.blockSize
      && |h0| == info.digestSize && (m_key == [] || |m_key| == info.blockSize)
    }

    /** h holds the blocks before held, t counts their bytes, held waits in the buffer. */
    ghost predicate Holds(x: seq<byte>, consumed: nat, held: seq<byte>)
      reads this, buffer
    {
      && Configured() && !f0 && !f1
      && h == x && t0 == CounterLow(info, consumed) && t1 == CounterHigh(info, consumed)
      && length == |held| <= info.blockSize && buffer[..length] == held
    }

    ghost predicate Streams(data: seq<byte>)
      reads this, buffer
    {
      && Known(info)
      && var held := LastBlock(info.blockSize, data);
         Holds(AllButLast(F, info, h0, 0, data), |data| - |held|, held)
    }

    /** The padded key followed by the message so far is what has been streamed. */
    ghost predicate Valid()
      reads this, buffer
    {
      Streams(m_key + message)
    }

    constructor (F: Compression, info: Info, h0: seq<byte>, key: seq<byte>, treeMode: bool)
      requires Known(info) && IsCompression(F, info) && |h0| == info.digestSize && |key| <= info.digestSize
      ensures Valid() && message == [] && fresh(buffer)
      ensures this.F == F && this.info == info && this.h0 == h0 && m_treeMode == treeMode
      ensures m_key == KeyBlock(info, key)
    {
      this.F, this.info, this.h0, m_treeMode := F, info, h0, treeMode;
      m_key := KeyBlock(info, key);
      h, t0, t1, f0, f1, length := h0, 0, 0, false, false, 0;
      buffer := new byte[info.blockSize](_ => 0);
      message := [];
      new;
      Restart();
    }

    /** Restart(): the initial state, with the key streamed again. */
    method Restart()
      requires Configured()
      modifies this, buffer
      ensures Valid() && message == []
    {
      hide IsCompression;
      t0, t1, f0, f1, length := 0, 0, false, false, 0;
      h := h0;
      message := [];
      NothingStreamed(F, info, h0);
      assert [] + m_key == m_key && m_key + [] == m_key;
      if |m_key| > 0 {
        Stream([], m_key);
      }
    }

    method IncrementCounter(count: nat, ghost consumed: nat)
      requires Known(info) && count <= info.blockSize
      requires t0 == CounterLow(info, consumed) && t1 == CounterHigh(info, consumed)
      modifies this`t0, this`t1
      ensures t0 == CounterLow(info, consumed + count) && t1 == CounterHigh(info, consumed + count)
    {
      hide CounterLow, CounterHigh, Pow2;
      BlockBelowWord(info);
      CounterAdds(info, consumed, count);
      t0 := (t0 + count) % Pow2(info.wordBits);
      t1 := (t1 + if t0 < count then 1 else 0) % Pow2(info.wordBits);
    }

    /** Compress(block) with the state's own counter and flags. */
    method Compress(block: seq<byte>)
      requires |block| == info.blockSize
      modifies this`h
      ensures h == F(old(h), block, t0, t1, f0, f1)
    {
      h := F(h, block, t0, t1, f0, f1);
    }

    /** The body of Update, for whatever has been streamed before. */
    method Stream(ghost data: seq<byte>, input: seq<byte>)
      requires Streams(data)
      modifies this`h, this`t0, this`t1, this`length, buffer
      ensures Streams(data + input)
    {
      hide IsCompression, AllButLast, LastBlock, Midway, CounterLow, CounterHigh;
      ghost var total := data + input;
      ghost var held := LastBlock(info.blockSize, data);
      MidwayStart(F, info, h0, data, input);
      var rest := input;
      if length + |rest| > info.blockSize {
        var fill := info.blockSize - length;
        forall i | 0 <= i < fill { buffer[length + i] := rest[i]; }
        assert buffer[..] == held + rest[..fill];
        ghost var before := |total| - |held| - |rest|;
        MidwayCompress(F, info, h0, total, h, held, rest);
        IncrementCounter(info.blockSize, before);
        Compress(buffer[..]);
        length := 0;
        rest := rest[fill..];
        held := [];
        rest := CompressRest(total, rest);
      }
      MidwayHold(F, info, h0, total, h, held, rest);
      if |rest| > 0 {
        CopyTail(rest, held);
      }
      assert held + rest == LastBlock(info.blockSize, total);
    }

    /** The inner loop: whole blocks straight from the input while more than one block remains. */
    method CompressRest(ghost total: seq<byte>, input: seq<byte>) returns (rest: seq<byte>)
      requires input != [] && |input| <= |total| && length == 0
      requires Holds(h, |total| - |input|, []) && Midway(F, info, h0, total, h, [], input)
      modifies this`h, this`t0, this`t1
      ensures 0 < |rest| <= info.blockSize && |rest| <= |total|
      ensures Holds(h, |total| - |rest|, []) && Midway(F, info, h0, total, h, [], rest)
    {
      hide IsCompression, AllButLast, LastBlock, Midway, CounterLow, CounterHigh;
      rest := input;
      while |rest| > info.blockSize
        invariant 0 < |rest| <= |total|
        invariant Holds(h, |total| - |rest|, []) && Midway(F, info, h0, total, h, [], rest)
      {
        MidwayCompress(F, info, h0, total, h, [], rest);
        assert [] + rest[..info.blockSize] == rest[..info.blockSize];
        IncrementCounter(info.blockSize, |total| - |rest|);
        Compress(rest[..info.blockSize]);
        rest := rest[info.blockSize..];
      }
    }

    /** Copies what is left behind the bytes already waiting. */
    method CopyTail(rest: seq<byte>, ghost held: seq<byte>)
      requires Configured() && |held| + |rest| <= info.blockSize && length == |held| && buffer[..length] == held
      modifies this`length, buffer
      ensures length == |held| + |rest| && buffer[..length] == held + rest
    {
      hide IsCompression;
      forall i | 0 <= i < |rest| { buffer[length + i] := rest[i]; }
      length := length + |rest|;
    }

    /** Any chunk of message. */
    method Update(input: seq<byte>)
      requires Valid()
      modifies this, buffer
      ensures Valid() && message == old(message) + input
    {
      hide IsCompression, AllButLast, LastBlock, CounterLow, CounterHigh;
      Stream(m_key + message, input);
      assert m_key + message + input == m_key + (message + input);
      message := message + input;
    }

    /** The hash of key and message, cut to size; a size above the digest size is refused. */
    method TruncatedFinal(size: nat) returns (ok: bool, hash: seq<byte>)
      requires Valid()
      modifies this, buffer
      ensures Valid() && ok == (size <= info.digestSize)
      ensures ok ==> message == []
      ensures ok ==> hash == Hash(F, info, h0, m_key + old(message), m_treeMode)[..size]
      ensures !ok ==> message == old(message)
    {
      hide AllButLast, LastBlock, CounterLow, CounterHigh;
      if size > info.digestSize { return false, []; }
      ghost var data := m_key + message;
      ghost var last := LastBlock(info.blockSize, data);
      f0 := true;
      if m_treeMode { f1 := true; }
      IncrementCounter(length, |data| - |last|);
      forall i | length <= i < info.blockSize { buffer[i] := 0; }
      assert buffer[..] == last + Zeros(info.blockSize - |last|);
      Compress(buffer[..]);
      ok, hash := true, h[..size];
      Restart();
    }
  }

  lemma NothingStreamed(F: Compression, info: Info, h0: seq<byte>)
    requires info.blockSize > 0
    ensures AllButLast(F, info, h0, 0, []) == h0 && LastBlock(info.blockSize, []) == []
    ensures CounterLow(info, 0) == 0 && CounterHigh(info, 0) == 0
  {
    DivModUnique(0, Pow2(info.wordBits), 0, 0);
  }

  lemma BlockBelowWord(info: Info)
    requires Known(info)
    ensures info.blockSize < Pow2(info.wordBits)
  {
    assert Pow2(4) == 16;
    Pow2Add(4, 4);
    Pow2Monotone(8, info.wordBits);
  }

  /** The two counter words hold the byte count modulo 2^(2w). */
  lemma CounterIsDoubleWord(info: Info, t: nat)
    ensures CounterLow(info, t) + Pow2(info.wordBits) * CounterHigh(info, t) == t % (Pow2(info.wordBits) * Pow2(info.wordBits))
  {
    var m := Pow2(info.wordBits);
    var q := t / m;
    DivModIdentity(t, m);
    DivModIdentity(q, m);
    MulAssoc(m, m, q / m);
    assert m * (m * (q / m) + q % m) == m * (m * (q / m)) + m * (q % m);
    MulMonotone(m, q % m, m - 1);
    assert m * (m - 1) == m * m - m;
    DivModUnique(t, m * m, q / m, m * (q % m) + t % m);
  }
}
