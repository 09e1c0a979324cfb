/** Blowfish (blowfish.cpp) over any P-array and S-boxes, for any even number of rounds. */
module Blowfish {
  import opened Bytes
  import opened Words32
  import opened Feistel

  /** The round function: four table lookups, added and xored in turn. */
  function F(s: seq<word32>, x: word32): word32
    requires |s| == 1024
  {
    Add32(Xor32(Add32(s[Byte(x, 3)], s[256 + (Byte(x, 2) as int)]), s[512 + (Byte(x, 1) as int)]), s[768 + (Byte(x, 0) as int)])
  }

  ghost function RoundWith(s: seq<word32>, key: word32): Round
    requires |s| == 1024
  {
    (x: word32) => Xor32(F(s, x), key)
  }

  /** The rounds under p[1] to p[n]. */
  ghost function Rounds(s: seq<word32>, p: seq<word32>): (r: seq<Round>)
    requires |s| == 1024 && |p| >= 2
    ensures |r| == |p| - 2
  {
    seq(|p| - 2, k requires 0 <= k < |p| - 2 => RoundWith(s, p[k + 1]))
  }

  /** The two output words: the whitened input through the rounds, and whitened again. */
  ghost function Crypt(s: seq<word32>, p: seq<word32>, block: (word32, word32)): (word32, word32)
    requires |s| == 1024 && |p| >= 2
  {
    var done := After(Rounds(s, p), |p| - 2, Xor32(block.0, p[0]), block.1);
    (Xor32(done.1, p[|p| - 1]), done.0)
  }

  function Reversed(p: seq<word32>): (r: seq<word32>)
    ensures |r| == |p|
  {
    seq(|p|, i requires 0 <= i < |p| => p[|p| - 1 - i])
  }

  /** The reversed P-array inverts the cipher. */
  lemma CryptBack(s: seq<word32>, p: seq<word32>, block: (word32, word32))
    requires |s| == 1024 && |p| >= 2
    ensures Crypt(s, Reversed(p), Crypt(s, p, block)) == block
  {
    hide After, Xor32, RoundWith;
    var n := |p| - 2;
    var last := Xor32(block.0, p[0]);
    var done := After(Rounds(s, p), n, last, block.1);
    XorTwice(done.1, p[|p| - 1]);
    assert Backwards(Rounds(s, Reversed(p)), Rounds(s, p), n);
    Undoes(Rounds(s, Reversed(p)), Rounds(s, p), n, last, block.1);
    XorTwice(block.0, p[0]);
  }

  // ----- the round function, by what changes in it

  function Combine(a: word32, b: word32, c: word32, d: word32): word32 {
    Add32(Xor32(Add32(a, b), c), d)
  }

  lemma CombineAlone(a: word32)
    ensures Combine(a, 0, 0, 0) == Combine(0, a, 0, 0) == Combine(0, 0, a, 0) == Combine(0, 0, 0, a) == a
  {
    hide Add32, Xor32;
    Xor32Zero(a);
    Xor32Zero(0);
    WithZero(a);
    WithZero(0);
  }

  lemma CombineShifts(a: word32, b: word32, c: word32, d: word32, k: word32)
    ensures Combine(a, b, c, Add32(d, k)) == Add32(Combine(a, b, c, d), k)
    ensures Combine(a, b, Xor32(c, k), 0) == Xor32(Combine(a, b, c, 0), k)
    ensures Combine(Add32(a, k), Sub32(b, k), c, d) == Combine(a, b, c, d)
  {
    hide Add32, Sub32, Xor32;
    var x := Xor32(Add32(a, b), c);
    AddAssoc(x, d, k);
    Xor32Assoc(Add32(a, b), c, k);
    WithZero(x);
    WithZero(Xor32(x, k));
    SumShifts(a, b, k);
  }

  predicate IsTable(t: seq<word32>) {
    |t| == 256
  }

  function ZeroTable(): (r: seq<word32>)
    ensures IsTable(r)
  {
    seq(256, _ => 0)
  }

  /** Every entry changed by k. */
  function Changed(t: seq<word32>, change: (word32, word32) -> word32, k: word32): (r: seq<word32>)
    requires IsTable(t)
    ensures IsTable(r)
  {
    seq(256, i requires 0 <= i < 256 => change(t[i], k))
  }

  lemma FOfTables(a: seq<word32>, b: seq<word32>, c: seq<word32>, d: seq<word32>, x: word32)
    requires IsTable(a) && IsTable(b) && IsTable(c) && IsTable(d)
    ensures F(a + b + c + d, x) == Combine(a[Byte(x, 3)], b[Byte(x, 2)], c[Byte(x, 1)], d[Byte(x, 0)])
  {
    hide Byte, Add32, Xor32;
  }

  /** Each table reads its byte of the word, the first the most significant one. */
  lemma FReads(t: seq<word32>, x: word32)
    requires IsTable(t)
    ensures var z := ZeroTable();
      && F(t + z + z + z, x) == t[Byte(x, 3)] && F(z + t + z + z, x) == t[Byte(x, 2)]
      && F(z + z + t + z, x) == t[Byte(x, 1)] && F(z + z + z + t, x) == t[Byte(x, 0)]
  {
    hide F, Byte, Combine;
    var z := ZeroTable();
    FOfTables(t, z, z, z, x);
    FOfTables(z, t, z, z, x);
    FOfTables(z, z, t, z, x);
    FOfTables(z, z, z, t, x);
    CombineAlone(t[Byte(x, 3)]);
    CombineAlone(t[Byte(x, 2)]);
    CombineAlone(t[Byte(x, 1)]);
    CombineAlone(t[Byte(x, 0)]);
  }

  /** The fourth table is added last, the third xored before that, and the first two are added. */
  lemma FCombines(a: seq<word32>, b: seq<word32>, c: seq<word32>, d: seq<word32>, x: word32, k: word32)
    requires IsTable(a) && IsTable(b) && IsTable(c) && IsTable(d)
    ensures F(a + b + c + Changed(d, Add32, k), x) == Add32(F(a + b + c + d, x), k)
    ensures F(a + b + Changed(c, Xor32, k) + ZeroTable(), x) == Xor32(F(a + b + c + ZeroTable(), x), k)
    ensures F(Changed(a, Add32, k) + Changed(b, Sub32, k) + c + d, x) == F(a + b + c + d, x)
  {
    hide F, Byte, Combine, Add32, Sub32, Xor32;
    var z := ZeroTable();
    FOfTables(a, b, c, d, x);
    FOfTables(a, b, c, z, x);
    FOfTables(a, b, c, Changed(d, Add32, k), x);
    FOfTables(a, b, Changed(c, Xor32, k), z, x);
    FOfTables(Changed(a, Add32, k), Changed(b, Sub32, k), c, d, x);
    CombineShifts(a[Byte(x, 3)], b[Byte(x, 2)], c[Byte(x, 1)], d[Byte(x, 0)], k);
  }

  // ----- the cipher as it is published

  /** Round i: xL = xL xor P[i], xR = F(xL) xor xR, and the halves change places. */
  ghost function Published(s: seq<word32>, p: seq<word32>, n: nat, left: word32, right: word32): (word32, word32)
    requires |s| == 1024 && n <= |p|
    decreases n
  {
    if n == 0 then (left, right)
    else
      var (l, r) := Published(s, p, n - 1, left, right);
      var keyed := Xor32(l, p[n - 1]);
      (Xor32(F(s, keyed), r), keyed)
  }

  lemma {:induction false} AfterIsPublished(s: seq<word32>, p: seq<word32>, n: nat, left: word32, right: word32)
    requires |s| == 1024 && n + 2 <= |p|
    ensures var (l, r) := Published(s, p, n, left, right);
      After(Rounds(s, p), n, Xor32(left, p[0]), right) == (Xor32(l, p[n]), r)
  {
    hide F, Xor32, After;
    if n == 0 {
      NoRounds(Rounds(s, p), Xor32(left, p[0]), right);
    } else {
      AfterIsPublished(s, p, n - 1, left, right);
      NextRound(Rounds(s, p), n - 1, Xor32(left, p[0]), right);
      var (l, r) := Published(s, p, n - 1, left, right);
      var f := F(s, Xor32(l, p[n - 1]));
      Xor32Comm(f, r);
      Xor32Assoc(r, f, p[n]);
    }
  }

  /** After the last round the exchange is undone and the last two keys are xored in. */
  lemma CryptIsPublished(s: seq<word32>, p: seq<word32>, left: word32, right: word32)
    requires |s| == 1024 && |p| >= 2
    ensures var (l, r) := Published(s, p, |p| - 2, left, right);
      Crypt(s, p, (left, right)) == (Xor32(r, p[|p| - 1]), Xor32(l, p[|p| - 2]))
  {
    hide F, Xor32, After, Published;
    AfterIsPublished(s, p, |p| - 2, left, right);
  }

  class Cipher {
    /** Even; FixedRounds<16> in the program. */
    const rounds: nat
    const pbox: array<word32>
    const sbox: array<word32>

    ghost predicate Valid() {
      rounds % 2 == 0 && pbox.Length == rounds + 2 && sbox.Length == 1024 && pbox != sbox
    }

    constructor (rounds: nat, pbox: array<word32>, sbox: array<word32>)
      requires rounds % 2 == 0 && pbox.Length == rounds + 2 && sbox.Length == 1024 && pbox != sbox
      ensures Valid() && this.rounds == rounds && this.pbox == pbox && this.sbox == sbox
    {
      this.rounds, this.pbox, this.sbox := rounds, pbox, sbox;
    }

    /** ProcessAndXorBlock on the two words of a block. */
    method ProcessBlock(left0: word32, right0: word32) returns (out1: word32, out2: word32)
      requires Valid()
      ensures (out1, out2) == Crypt(sbox[..], pbox[..], (left0, right0))
    {
      hide After, F, Xor32;
      var left, right := left0, right0;
      left := Xor32(left, pbox[0]);
      ghost var keyed, start := Rounds(sbox[..], pbox[..]), left;
      NoRounds(keyed, left, right);
      for i := 0 to rounds / 2
        invariant After(keyed, 2 * i, start, right0) == (left, right)
      {
        NextRound(keyed, 2 * i, start, right0);
        NextRound(keyed, 2 * i + 1, start, right0);
        right := Xor32(right, Xor32(F(sbox[..], left), pbox[2 * i + 1]));
        left := Xor32(left, Xor32(F(sbox[..], right), pbox[2 * i + 2]));
      }
      right := Xor32(right, pbox[rounds + 1]);
      out1, out2 := right, left;
    }

    /** The end of UncheckedSetKey for a decryption object. */
    method ReverseKeys()
      requires Valid()
      modifies pbox
      ensures pbox[..] == Reversed(old(pbox[..]))
    {
      for i := 0 to (rounds + 2) / 2
        invariant forall k :: 0 <= k < pbox.Length ==>
          pbox[k] == if k < i || rounds + 1 - k < i then old(pbox[rounds + 1 - k]) else old(pbox[k])
      {
        pbox[i], pbox[rounds + 1 - i] := pbox[rounds + 1 - i], pbox[i];
      }
    }
  }

  /** A decryption object inverts an encryption object made from the same key. */
  method RoundTrip(encryption: Cipher, decryption: Cipher, left: word32, right: word32) returns (out1: word32, out2: word32)
    requires encryption.Valid() && decryption.Valid() && encryption.rounds == decryption.rounds
    requires encryption.pbox != decryption.pbox && decryption.pbox != encryption.sbox
    requires encryption.pbox[..] == decryption.pbox[..] && encryption.sbox[..] == decryption.sbox[..]
    modifies decryption.pbox
    ensures out1 == left && out2 == right
  {
    hide Crypt, Reversed;
    decryption.ReverseKeys();
    var c1, c2 := encryption.ProcessBlock(left, right);
    out1, out2 := decryption.ProcessBlock(c1, c2);
    CryptBack(encryption.sbox[..], encryption.pbox[..], (left, right));
  }
}
