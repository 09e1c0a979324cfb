/** Numbers as strings of bits, most significant bit first, and the bitwise steps that move them. */
module BitStrings {
  import opened Powers
  import opened Bytes

  /** The low n bits of v. */
  function BitsOf(v: nat, n: nat): (r: seq<bool>)
    ensures |r| == n
  {
    if n == 0 then [] else BitsOf(v / 2, n - 1) + [v % 2 == 1]
  }

  function Value(bits: seq<bool>): (r: nat)
    ensures r < Pow2(|bits|)
  {
    if bits == [] then 0 else 2 * Value(bits[..|bits| - 1]) + (if bits[|bits| - 1] then 1 else 0)
  }

  function Falses(n: nat): (r: seq<bool>)
    ensures |r| == n
  {
    seq(n, _ => false)
  }

  /** The n-bit strings of the elements, one after the other. */
  function Joined(s: seq<byte>, n: nat): seq<bool> {
    if s == [] then [] else Joined(s[..|s| - 1], n) + BitsOf(s[|s| - 1], n)
  }

  lemma {:induction false} BitsOfValue(bits: seq<bool>)
    ensures BitsOf(Value(bits), |bits|) == bits
  {
    if bits != [] {
      var front := bits[..|bits| - 1];
      BitsOfValue(front);
      assert Value(bits) / 2 == Value(front);
      assert bits == front + [bits[|bits| - 1]];
    }
  }

  lemma {:induction false} ValueOfBits(v: nat, n: nat)
    requires v < Pow2(n)
    ensures Value(BitsOf(v, n)) == v
  {
    if n > 0 {
      ValueOfBits(v / 2, n - 1);
      assert BitsOf(v, n)[..n - 1] == BitsOf(v / 2, n - 1);
    }
  }

  lemma {:induction false} BitsOfZero(n: nat)
    ensures BitsOf(0, n) == Falses(n)
  {
    if n > 0 { BitsOfZero(n - 1); }
  }

  /** Shifting right drops the last bits. */
  lemma {:induction false} ShrBits(v: nat, drop: nat, n: nat)
    requires drop <= n
    ensures BitsOf(Shr(v, drop), n - drop) == BitsOf(v, n)[..n - drop]
  {
    if drop > 0 {
      ShrBits(v / 2, drop - 1, n - 1);
      assert BitsOf(v, n)[..n - drop] == BitsOf(v / 2, n - 1)[..n - drop];
    }
  }

  lemma {:induction false} ShrSmall(v: nat, drop: nat, n: nat)
    requires drop <= n && v < Pow2(n)
    ensures Shr(v, drop) < Pow2(n - drop)
  {
    if drop > 0 { ShrSmall(v / 2, drop - 1, n - 1); }
  }

  /** Shifting left appends zero bits. */
  lemma {:induction false} ShlBits(v: nat, l: nat, n: nat)
    ensures BitsOf(Shl(v, l), n + l) == BitsOf(v, n) + Falses(l)
  {
    if l > 0 {
      ShlBits(v, l - 1, n);
      assert Falses(l) == Falses(l - 1) + [false];
    }
  }

  /** A narrower word is the end of the wider one. */
  lemma {:induction false} NarrowBits(v: nat, n: nat, m: nat)
    requires m <= n
    ensures BitsOf(v, m) == BitsOf(v, n)[n - m..]
  {
    if m > 0 {
      NarrowBits(v / 2, n - 1, m - 1);
      assert BitsOf(v, n)[n - m..] == BitsOf(v / 2, n - 1)[n - m..] + [v % 2 == 1];
    }
  }

  /** A small number starts with zeros. */
  lemma {:induction false} SmallBits(v: nat, n: nat, m: nat)
    requires m <= n && v < Pow2(m)
    ensures BitsOf(v, n) == Falses(n - m) + BitsOf(v, m)
  {
    if m == 0 {
      BitsOfZero(n);
    } else {
      SmallBits(v / 2, n - 1, m - 1);
    }
  }

  /** A high part shifted up and a low part below it. */
  lemma {:induction false} BitsOfSum(high: nat, low: nat, n: nat, l: nat)
    requires low < Pow2(l)
    ensures BitsOf(Shl(high, l) + low, n + l) == BitsOf(high, n) + BitsOf(low, l)
  {
    if l > 0 {
      BitsOfSum(high, low / 2, n, l - 1);
      assert (Shl(high, l) + low) / 2 == Shl(high, l - 1) + low / 2;
    }
  }

  lemma {:induction false} LowBits(v: nat, n: nat)
    ensures BitsOf(Low(v, n), n) == BitsOf(v, n)
  {
    if n > 0 { LowBits(v / 2, n - 1); }
  }

  // ----- bitwise or

  function Or(a: nat, b: nat): nat
    decreases a + b
  {
    if a == 0 then b else if b == 0 then a
    else 2 * Or(a / 2, b / 2) + (if a % 2 == 1 || b % 2 == 1 then 1 else 0)
  }

  lemma OrStep(a: nat, b: nat)
    ensures Or(a, b) == 2 * Or(a / 2, b / 2) + (if a % 2 == 1 || b % 2 == 1 then 1 else 0)
  {
    OrZero(a);
    OrZero(b);
    OrZero(a / 2);
    OrZero(b / 2);
    if a > 0 && b > 0 { OrBoth(a, b); }
    hide Or;
    assert a == 2 * (a / 2) + a % 2 && b == 2 * (b / 2) + b % 2;
  }

  lemma OrZero(a: nat)
    ensures Or(a, 0) == a && Or(0, a) == a
  {
  }

  lemma OrBoth(a: nat, b: nat)
    requires a > 0 && b > 0
    ensures Or(a, b) == 2 * Or(a / 2, b / 2) + (if a % 2 == 1 || b % 2 == 1 then 1 else 0)
  {
  }

  lemma {:induction false} OrBound(a: nat, b: nat, n: nat)
    requires a < Pow2(n) && b < Pow2(n)
    ensures Or(a, b) < Pow2(n)
  {
    if n > 0 {
      OrStep(a, b);
      OrBound(a / 2, b / 2, n - 1);
    }
  }

  function OrByte(a: byte, b: byte): byte {
    Pow2OfEight();
    OrBound(a, b, 8);
    Or(a, b)
  }

  lemma {:induction false} OrBits(a: nat, b: nat, n: nat, i: nat)
    requires i < n
    ensures BitsOf(Or(a, b), n)[i] == (BitsOf(a, n)[i] || BitsOf(b, n)[i])
  {
    hide Or;
    OrStep(a, b);
    if i < n - 1 { OrBits(a / 2, b / 2, n - 1, i); }
  }

  /** Or into a word whose low bits are still free. */
  lemma OrIntoFree(a: nat, b: nat, n: nat, used: nat, head: seq<bool>, tail: seq<bool>)
    requires used <= n && |head| == used && |tail| == n - used
    requires BitsOf(a, n) == head + Falses(n - used) && BitsOf(b, n) == Falses(used) + tail
    ensures BitsOf(Or(a, b), n) == head + tail
  {
    hide BitsOf;
    forall i | 0 <= i < n
      ensures BitsOf(Or(a, b), n)[i] == (head + tail)[i]
    {
      OrBits(a, b, n, i);
    }
  }

  // ----- joining

  lemma JoinedAppend(s: seq<byte>, v: byte, n: nat)
    ensures Joined(s + [v], n) == Joined(s, n) + BitsOf(v, n)
  {
    assert (s + [v])[..|s|] == s;
  }

  lemma {:induction false} JoinedConcat(s: seq<byte>, t: seq<byte>, n: nat)
    ensures Joined(s + t, n) == Joined(s, n) + Joined(t, n)
    decreases |t|
  {
    if t == [] {
      JoinedEmpty(n);
      assert s + t == s;
    } else {
      hide Joined, BitsOf;
      var front, last := t[..|t| - 1], t[|t| - 1];
      assert t == front + [last] && s + t == s + front + [last];
      JoinedConcat(s, front, n);
      JoinedAppend(s + front, last, n);
      JoinedAppend(front, last, n);
    }
  }

  lemma JoinedEmpty(n: nat)
    ensures Joined([], n) == []
  {
  }

  lemma {:induction false} JoinedLength(s: seq<byte>, n: nat)
    ensures |Joined(s, n)| == |s| * n
  {
    if s != [] {
      JoinedLength(s[..|s| - 1], n);
      assert |s| * n == (|s| - 1) * n + n;
    }
  }

  // ----- regrouping

  /** A byte made of at most eight bits. */
  function ByteOf(bits: seq<bool>): (r: byte)
    requires |bits| <= 8
    ensures r < Pow2(|bits|)
  {
    Pow2Monotone(|bits|, 8);
    Pow2OfEight();
    Value(bits)
  }

  /** The bits in groups of n, the last one filled up with zeros. */
  function Digits(bits: seq<bool>, n: nat): seq<byte>
    requires 0 < n <= 8
    decreases |bits|
  {
    if bits == [] then [] else if |bits| <= n then [ByteOf(bits + Falses(n - |bits|))]
    else [ByteOf(bits[..n])] + Digits(bits[n..], n)
  }

  /** The complete groups of n, dropping the bits left over. */
  function WholeGroups(bits: seq<bool>, n: nat): seq<byte>
    requires 0 < n <= 8
    decreases |bits|
  {
    if |bits| < n then [] else [ByteOf(bits[..n])] + WholeGroups(bits[n..], n)
  }

  /** How many zeros fill up the last group of n. */
  function FillOf(count: nat, n: nat): (r: nat)
    requires n > 0
    ensures r < n
  {
    if count == 0 then 0 else if count <= n then n - count else FillOf(count - n, n)
  }

  /** The elements of s fit in n bits. */
  predicate Narrow(s: seq<byte>, n: nat) {
    forall i :: 0 <= i < |s| ==> s[i] < Pow2(n)
  }

  lemma {:induction false} JoinedFront(s: seq<byte>, n: nat)
    requires s != []
    ensures Joined(s, n) == BitsOf(s[0], n) + Joined(s[1..], n)
  {
    assert s == [s[0]] + s[1..];
    JoinedConcat([s[0]], s[1..], n);
    assert [s[0]][..0] == [];
  }

  /** Elements whose joined bits are the given ones, up to a zero fill, are their digits. */
  lemma {:induction false} DigitsUnique(s: seq<byte>, n: nat, bits: seq<bool>, fill: nat)
    requires 0 < n <= 8 && fill < n && Narrow(s, n) && Joined(s, n) == bits + Falses(fill)
    ensures s == Digits(bits, n)
    decreases |s|
  {
    hide Pow2, BitsOf, Value;
    if s == [] {
      assert bits == [];
    } else {
      JoinedFront(s, n);
      JoinedLength(s[1..], n);
      ValueOfBits(s[0], n);
      if |s| == 1 {
        assert s[1..] == [];
        assert bits + Falses(fill) == BitsOf(s[0], n);
      } else {
        LongerThanOne(|s|, n);
        var whole := bits + Falses(fill);
        assert whole[..n] == BitsOf(s[0], n) && whole[n..] == Joined(s[1..], n);
        assert bits[..n] == whole[..n] && bits[n..] + Falses(fill) == whole[n..];
        DigitsUnique(s[1..], n, bits[n..], fill);
      }
    }
  }

  lemma LongerThanOne(count: nat, n: nat)
    requires count > 1
    ensures (count - 1) * n >= n
  {
    MulMonotone(n, 1, count - 1);
  }

  lemma {:induction false} WholeGroupsUnique(s: seq<byte>, n: nat, bits: seq<bool>, rest: seq<bool>)
    requires 0 < n <= 8 && |rest| < n && Narrow(s, n) && Joined(s, n) + rest == bits
    ensures s == WholeGroups(bits, n)
    decreases |s|
  {
    hide Pow2, BitsOf, Value, ByteOf, Joined;
    if s == [] {
      NoDigits(n);
      assert bits == rest;
    } else {
      JoinedFront(s, n);
      ByteOfBits(s[0], n);
      assert bits == BitsOf(s[0], n) + (Joined(s[1..], n) + rest);
      assert bits[..n] == BitsOf(s[0], n) && bits[n..] == Joined(s[1..], n) + rest;
      WholeGroupsUnique(s[1..], n, bits[n..], rest);
    }
  }

  lemma ByteOfBits(v: byte, n: nat)
    requires n <= 8 && v < Pow2(n)
    ensures ByteOf(BitsOf(v, n)) == v
  {
    ValueOfBits(v, n);
  }

  /** Digits stand for the bits they were made from, up to a zero fill of less than a digit. */
  lemma {:induction false} DigitsJoin(bits: seq<bool>, n: nat)
    requires 0 < n <= 8
    ensures Narrow(Digits(bits, n), n) && Joined(Digits(bits, n), n) == bits + Falses(FillOf(|bits|, n))
    decreases |bits|
  {
    hide Joined, BitsOf, ByteOf, Digits, Pow2, FillOf;
    if bits == [] {
      NoDigits(n);
    } else if |bits| <= n {
      OneDigit(bits, n);
    } else {
      DigitsJoin(bits[n..], n);
      MoreDigits(bits, n);
      MoreNarrow(bits, n);
      assert bits[..n] + (bits[n..] + Falses(FillOf(|bits|, n))) == bits + Falses(FillOf(|bits|, n));
    }
  }

  lemma OneDigit(bits: seq<bool>, n: nat)
    requires 0 < |bits| <= n <= 8
    ensures Narrow(Digits(bits, n), n) && Joined(Digits(bits, n), n) == bits + Falses(FillOf(|bits|, n))
  {
    hide Joined, BitsOf;
    DigitJoins(bits + Falses(n - |bits|));
  }

  lemma MoreDigits(bits: seq<bool>, n: nat)
    requires 0 < n <= 8 && n < |bits|
    ensures Joined(Digits(bits, n), n) == bits[..n] + Joined(Digits(bits[n..], n), n)
  {
    hide Joined, BitsOf, Digits, ByteOf, Pow2, Narrow;
    DigitsStep(bits, n);
    DigitJoins(bits[..n]);
    FirstDigit(ByteOf(bits[..n]), Digits(bits[n..], n), n);
  }

  lemma MoreNarrow(bits: seq<bool>, n: nat)
    requires 0 < n <= 8 && n < |bits| && Narrow(Digits(bits[n..], n), n)
    ensures Narrow(Digits(bits, n), n) && FillOf(|bits|, n) == FillOf(|bits[n..]|, n)
  {
    hide Digits, ByteOf, Pow2;
    DigitsStep(bits, n);
  }

  lemma DigitsStep(bits: seq<bool>, n: nat)
    requires 0 < n <= 8 && n < |bits|
    ensures Digits(bits, n) == [ByteOf(bits[..n])] + Digits(bits[n..], n) && ByteOf(bits[..n]) < Pow2(n)
  {
    hide ByteOf, Pow2;
  }

  lemma FirstDigit(d: byte, rest: seq<byte>, n: nat)
    ensures Joined([d] + rest, n) == Joined([d], n) + Joined(rest, n)
  {
    JoinedConcat([d], rest, n);
  }

  lemma NoDigits(n: nat)
    requires 0 < n <= 8
    ensures Digits([], n) == [] && Joined([], n) == [] && FillOf(0, n) == 0
  {
  }

  lemma DigitJoins(bits: seq<bool>)
    requires |bits| <= 8
    ensures Joined([ByteOf(bits)], |bits|) == bits
  {
    BitsOfValue(bits);
    assert [ByteOf(bits)][..0] == [];
  }

  /** Regrouping bytes into digits and back. */
  lemma RegroupBack(s: seq<byte>, n: nat)
    requires 0 < n <= 8
    ensures WholeGroups(Joined(Digits(Joined(s, 8), n), n), 8) == s
  {
    hide Digits, WholeGroups, Joined, Pow2;
    var bits := Joined(s, 8);
    DigitsJoin(bits, n);
    NarrowBytes(s);
    WholeGroupsUnique(s, 8, Joined(Digits(bits, n), n), Falses(FillOf(|bits|, n)));
  }

  lemma NarrowBytes(s: seq<byte>)
    ensures Narrow(s, 8)
  {
    Pow2OfEight();
  }
}
