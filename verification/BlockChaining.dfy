/** Cipher block chaining as a keyless fold: what AdvancedProcessBlocks with BT_XorInput and
    BT_DontIncrementInOutPointers computes over a run of data (cryptlib.cpp). */
module BlockChaining {
  import opened Powers
  import opened Bytes

  type Cipher = seq<byte> -> seq<byte>

  /** A cipher on blocks of n bytes. */
  ghost predicate IsCipher(E: Cipher, n: nat) {
    n > 0 && forall s :: |s| == n ==> |E(s)| == n
  }

  /** Chains the whole blocks at the front of data into the register x. */
  function Absorb(E: Cipher, n: nat, x: seq<byte>, data: seq<byte>): (r: seq<byte>)
    requires IsCipher(E, n) && |x| == n
    ensures |r| == n
    decreases |data|
  {
    if |data| < n then x else Absorb(E, n, E(XorBytes(x, data[..n])), data[n..])
  }

  /** The bytes of data after its last whole block. */
  function Rest(n: nat, data: seq<byte>): (r: seq<byte>)
    requires n > 0
    ensures |r| < n && |r| <= |data|
    decreases |data|
  {
    if |data| < n then data else Rest(n, data[n..])
  }

  /** The last 1 to n bytes of a nonempty message, nothing of the empty one. */
  function LastBlock(n: nat, message: seq<byte>): (r: seq<byte>)
    requires n > 0
    ensures |r| <= n && |r| <= |message| && (message != [] ==> r != [])
    decreases |message|
  {
    if |message| <= n then message else LastBlock(n, message[n..])
  }

  /** Chaining may be interrupted anywhere, carrying the unfinished block along. */
  lemma {:induction false} AbsorbAppend(E: Cipher, n: nat, x: seq<byte>, a: seq<byte>, b: seq<byte>)
    requires IsCipher(E, n) && |x| == n
    ensures Absorb(E, n, x, a + b) == Absorb(E, n, Absorb(E, n, x, a), Rest(n, a) + b)
    decreases |a|
  {
    if |a| >= n {
      assert (a + b)[..n] == a[..n] && (a + b)[n..] == a[n..] + b;
      AbsorbAppend(E, n, E(XorBytes(x, a[..n])), a[n..], b);
    }
  }

  lemma {:induction false} RestAppend(n: nat, a: seq<byte>, b: seq<byte>)
    requires n > 0
    ensures Rest(n, a + b) == Rest(n, Rest(n, a) + b)
    decreases |a|
  {
    if |a| >= n {
      assert (a + b)[n..] == a[n..] + b;
      RestAppend(n, a[n..], b);
    }
  }

  lemma AbsorbBlock(E: Cipher, n: nat, x: seq<byte>, block: seq<byte>)
    requires IsCipher(E, n) && |x| == n && |block| == n
    ensures Absorb(E, n, x, block) == E(XorBytes(x, block)) && Rest(n, block) == []
  {
    assert block[..n] == block && block[n..] == [];
  }

  /** What is left over is what division leaves. */
  lemma {:induction false} RestModulo(n: nat, data: seq<byte>)
    requires n > 0
    ensures |Rest(n, data)| == |data| % n && data[|data| - |Rest(n, data)|..] == Rest(n, data)
    decreases |data|
  {
    if |data| >= n {
      RestModulo(n, data[n..]);
      OneLess(|data|, n);
      hide Rest;
      var left := |Rest(n, data[n..])|;
      assert data[n..][|data| - n - left..] == data[|data| - left..];
    } else {
      DivModUnique(|data|, n, 0, |data|);
    }
  }

  lemma OneLess(count: nat, n: nat)
    requires 0 < n <= count
    ensures (count - n) % n == count % n
  {
    DivModIdentity(count - n, n);
    DivModUnique(count, n, (count - n) / n + 1, (count - n) % n);
  }

  /** The first block of a run. */
  lemma AbsorbFirst(E: Cipher, n: nat, x: seq<byte>, block: seq<byte>, data: seq<byte>)
    requires IsCipher(E, n) && |x| == n && |block| == n
    ensures |E(XorBytes(x, block))| == n && Absorb(E, n, x, block + data) == Absorb(E, n, E(XorBytes(x, block)), data)
  {
    assert (block + data)[..n] == block && (block + data)[n..] == data;
  }

  lemma NothingOver(n: nat, data: seq<byte>)
    requires n > 0 && |data| % n == 0
    ensures Rest(n, data) == []
  {
    RestModulo(n, data);
  }

  /** Cipher block chaining from the other end: the last block is xored into the value of those before it
      and enciphered. */
  lemma AbsorbLast(E: Cipher, n: nat, x: seq<byte>, data: seq<byte>, block: seq<byte>)
    requires IsCipher(E, n) && |x| == n && |block| == n && |data| % n == 0
    ensures Absorb(E, n, x, data + block) == E(XorBytes(Absorb(E, n, x, data), block))
  {
    hide Absorb, Rest, XorBytes, IsCipher;
    CipherLength(E, n, x);
    NothingOver(n, data);
    AbsorbAppend(E, n, x, data, block);
    assert [] + block == block;
    AbsorbBlock(E, n, Absorb(E, n, x, data), block);
  }

  /** A block that has been completed from a carried part. */
  lemma AbsorbCompleted(E: Cipher, n: nat, x: seq<byte>, carried: seq<byte>, b: seq<byte>)
    requires IsCipher(E, n) && |x| == n && |carried| < n <= |carried| + |b|
    ensures var fill := n - |carried|;
            && Absorb(E, n, x, carried + b) == Absorb(E, n, E(XorBytes(x, carried + b[..fill])), b[fill..])
            && Rest(n, carried + b) == Rest(n, b[fill..])
  {
    var fill := n - |carried|;
    assert (carried + b)[..n] == carried + b[..fill] && (carried + b)[n..] == b[fill..];
  }

  /** AdvancedProcessBlocks over a register: one cipher call per whole block, and the number of
      bytes left over. */
  method AdvancedProcessBlocks(E: Cipher, n: nat, register: seq<byte>, data: seq<byte>) returns (result: seq<byte>, leftOver: nat)
    requires IsCipher(E, n) && |register| == n
    ensures result == Absorb(E, n, register, data)
    ensures leftOver == |Rest(n, data)| && leftOver <= |data|
    ensures data[|data| - leftOver..] == Rest(n, data)
  {
    CipherLength(E, n, register);
    hide IsCipher;
    result := register;
    var position := 0;
    while |data| - position >= n
      invariant 0 <= position <= |data| && |result| == n
      invariant Absorb(E, n, result, data[position..]) == Absorb(E, n, register, data)
      invariant Rest(n, data[position..]) == Rest(n, data)
    {
      ghost var todo := data[position..];
      assert todo[..n] == data[position..position + n] && todo[n..] == data[position + n..];
      CipherLength(E, n, XorBytes(result, data[position..position + n]));
      result := E(XorBytes(result, data[position..position + n]));
      position := position + n;
    }
    leftOver := |data| - position;
    assert data[|data| - leftOver..] == data[position..];
  }

  lemma CipherLength(E: Cipher, n: nat, s: seq<byte>)
    requires IsCipher(E, n) && |s| == n
    ensures |E(s)| == n && n > 0
  {
  }
}
