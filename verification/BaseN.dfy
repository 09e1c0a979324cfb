/** Codecs for bases that are powers of two (basecode.cpp): what encoding and decoding are, apart
    from blocks, chunks and cells. */
module BaseN {
  import opened Powers
  import opened Bytes
  import opened BitStrings
  import opened Options

  /** Characters for the digits of a base 2^bits, and the padding character if there is one. */
  datatype Code = Code(bits: nat, alphabet: seq<byte>, padding: Option<byte>)

  /** Log2Base must be between 1 and 7 and the alphabet has one character a digit. */
  predicate IsCode(c: Code) {
    1 <= c.bits <= 7 && |c.alphabet| == Pow2(c.bits)
  }

  /** Least common multiple of eight and the digit's width, in digits. */
  function BlockSize(bits: nat): (r: nat)
    requires 1 <= bits <= 7
    ensures r > 0
  {
    if bits == 4 then 2 else if bits == 2 then 4 else if bits == 6 then 4 else 8
  }

  /** Bytes to a block of output of the decoder. */
  function ByteBlockSize(bits: nat): (r: nat)
    requires 1 <= bits <= 7
    ensures r > 0
  {
    if bits == 6 then 3 else if bits % 2 == 1 then bits else 1
  }

  function Mapped(alphabet: seq<byte>, digits: seq<byte>): (r: seq<byte>)
    requires forall i :: 0 <= i < |digits| ==> digits[i] < |alphabet|
    ensures |r| == |digits|
  {
    seq(|digits|, i requires 0 <= i < |digits| => alphabet[digits[i]])
  }

  function Repeat(b: byte, n: nat): (r: seq<byte>)
    ensures |r| == n
  {
    seq(n, _ => b)
  }

  /** How many more digits complete the last block. */
  function Missing(count: nat, block: nat): (r: nat)
    requires block > 0
    ensures r < block
  {
    if count % block == 0 then 0 else block - count % block
  }

  function DigitsOf(s: seq<byte>, bits: nat): (r: seq<byte>)
    requires 1 <= bits <= 7
    ensures Narrow(r, bits)
  {
    DigitsJoin(Joined(s, 8), bits);
    Digits(Joined(s, 8), bits)
  }

  /** The text for a string: its bits regrouped, a partial digit filled with zero bits, and a partial
      block filled with padding. */
  function Encoded(c: Code, s: seq<byte>): seq<byte>
    requires IsCode(c)
  {
    var d := DigitsOf(s, c.bits);
    Mapped(c.alphabet, d) +
      (if c.padding.Some? then Repeat(c.padding.value, Missing(|d|, BlockSize(c.bits))) else [])
  }

  /** The digits in a text: characters without a digit are skipped. */
  function Values(lookup: seq<int>, s: seq<byte>): seq<byte>
    requires |lookup| == 256 && forall i :: 0 <= i < 256 ==> lookup[i] < 256
  {
    if s == [] then []
    else
      var v := lookup[s[|s| - 1]];
      Values(lookup, s[..|s| - 1]) + (if v < 0 then [] else [v])
  }

  /** A table of -1 and digits. */
  predicate IsLookup(lookup: seq<int>, bits: nat) {
    |lookup| == 256 && Pow2(bits) <= 256 && forall i :: 0 <= i < 256 ==> lookup[i] < Pow2(bits)
  }

  /** What a text stands for: the whole bytes in its digits' bits. */
  function Decoded(lookup: seq<int>, bits: nat, s: seq<byte>): seq<byte>
    requires IsLookup(lookup, bits)
  {
    WholeGroups(Joined(Values(lookup, s), bits), 8)
  }

  lemma {:induction false} ValuesAppend(lookup: seq<int>, s: seq<byte>, t: seq<byte>)
    requires |lookup| == 256 && forall i :: 0 <= i < 256 ==> lookup[i] < 256
    ensures Values(lookup, s + t) == Values(lookup, s) + Values(lookup, t)
  {
    if t == [] {
      assert s + t == s;
    } else {
      var front := t[..|t| - 1];
      ValuesAppend(lookup, s, front);
      assert (s + t)[..|s + t| - 1] == s + front;
    }
  }

  /** Characters outside the alphabet contribute nothing. */
  lemma {:induction false} ValuesOutside(lookup: seq<int>, s: seq<byte>)
    requires |lookup| == 256 && forall i :: 0 <= i < 256 ==> lookup[i] < 256
    requires forall i :: 0 <= i < |s| ==> lookup[s[i]] < 0
    ensures Values(lookup, s) == []
  {
    if s != [] { ValuesOutside(lookup, s[..|s| - 1]); }
  }

  /** The table undoes the alphabet. */
  predicate Undoes(lookup: seq<int>, alphabet: seq<byte>) {
    |lookup| == 256 && forall i :: 0 <= i < |alphabet| ==> lookup[alphabet[i]] == i
  }

  lemma {:induction false} ValuesOfMapped(lookup: seq<int>, alphabet: seq<byte>, d: seq<byte>)
    requires Undoes(lookup, alphabet) && (forall i :: 0 <= i < 256 ==> lookup[i] < 256)
    requires forall i :: 0 <= i < |d| ==> d[i] < |alphabet|
    ensures Values(lookup, Mapped(alphabet, d)) == d
  {
    if d != [] {
      var front := d[..|d| - 1];
      ValuesOfMapped(lookup, alphabet, front);
      assert Mapped(alphabet, d)[..|d| - 1] == Mapped(alphabet, front);
    }
  }

  /** Some character stands for it. */
  predicate Outside(lookup: seq<int>, s: seq<byte>) {
    |lookup| == 256 && forall i :: 0 <= i < |s| ==> lookup[s[i]] < 0
  }

  lemma EncodedValues(c: Code, lookup: seq<int>, s: seq<byte>)
    requires IsCode(c) && IsLookup(lookup, c.bits) && Undoes(lookup, c.alphabet)
    requires c.padding.Some? ==> lookup[c.padding.value] < 0
    ensures Values(lookup, Encoded(c, s)) == DigitsOf(s, c.bits)
  {
    hide Digits, Joined, Pow2, Values, Mapped;
    var d := DigitsOf(s, c.bits);
    ValuesOfMapped(lookup, c.alphabet, d);
    if c.padding.Some? {
      var fill := Repeat(c.padding.value, Missing(|d|, BlockSize(c.bits)));
      ValuesOutside(lookup, fill);
      ValuesAppend(lookup, Mapped(c.alphabet, d), fill);
    } else {
      ValuesAppend(lookup, Mapped(c.alphabet, d), []);
      assert Mapped(c.alphabet, d) + [] == Mapped(c.alphabet, d);
    }
  }

  /** Decoding undoes encoding. */
  lemma DecodeEncode(c: Code, lookup: seq<int>, s: seq<byte>)
    requires IsCode(c) && IsLookup(lookup, c.bits) && Undoes(lookup, c.alphabet)
    requires c.padding.Some? ==> lookup[c.padding.value] < 0
    ensures Decoded(lookup, c.bits, Encoded(c, s)) == s
  {
    hide Digits, Joined, Pow2, Values, Encoded;
    EncodedValues(c, lookup, s);
    RegroupBack(s, c.bits);
  }

  // ----- grouping

  /** The text with a separator between every two groups of g characters. */
  function Grouped(s: seq<byte>, g: nat, separator: seq<byte>): seq<byte>
    requires g > 0
    decreases |s|
  {
    if |s| <= g then s else s[..g] + separator + Grouped(s[g..], g, separator)
  }

  /** Separators outside the alphabet leave the digits alone. */
  lemma {:induction false} ValuesOfGrouped(lookup: seq<int>, s: seq<byte>, g: nat, separator: seq<byte>)
    requires g > 0 && Outside(lookup, separator) && forall i :: 0 <= i < 256 ==> lookup[i] < 256
    ensures Values(lookup, Grouped(s, g, separator)) == Values(lookup, s)
    decreases |s|
  {
    if |s| > g {
      ValuesOfGrouped(lookup, s[g..], g, separator);
      ValuesOutside(lookup, separator);
      ValuesAppend(lookup, s[..g] + separator, Grouped(s[g..], g, separator));
      ValuesAppend(lookup, s[..g], separator);
      ValuesAppend(lookup, s[..g], s[g..]);
      assert s[..g] + s[g..] == s;
    }
  }

  /** What the Grouper makes of a text; a group size of zero means no groups. */
  function GroupedText(s: seq<byte>, g: nat, separator: seq<byte>, terminator: seq<byte>): seq<byte> {
    (if g == 0 then s else Grouped(s, g, separator)) + terminator
  }

  /** Encoder, grouper, decoder. */
  lemma DecodeGroupedEncode(c: Code, lookup: seq<int>, g: nat, separator: seq<byte>, terminator: seq<byte>, s: seq<byte>)
    requires IsCode(c) && IsLookup(lookup, c.bits) && Undoes(lookup, c.alphabet)
    requires c.padding.Some? ==> lookup[c.padding.value] < 0
    requires Outside(lookup, separator) && Outside(lookup, terminator)
    ensures Decoded(lookup, c.bits, GroupedText(Encoded(c, s), g, separator, terminator)) == s
  {
    hide Digits, Joined, Pow2, Values, Encoded, Grouped;
    var text := Encoded(c, s);
    DecodeEncode(c, lookup, s);
    if g > 0 { ValuesOfGrouped(lookup, text, g, separator); }
    ValuesOutside(lookup, terminator);
    var grouped := if g == 0 then text else Grouped(text, g, separator);
    ValuesAppend(lookup, grouped, terminator);
    assert Values(lookup, grouped + terminator) == Values(lookup, text) + [] == Values(lookup, text);
  }

  // ----- RFC 4648

  /** Section 4 of RFC 4648: 24 bits at a time, and the two final cases with one or two pads. */
  function Base64(alphabet: seq<byte>, pad: byte, s: seq<byte>): seq<byte>
    requires |alphabet| == 64
    decreases |s|
  {
    if s == [] then []
    else if |s| == 1 then [alphabet[s[0] / 4], alphabet[s[0] % 4 * 16], pad, pad]
    else if |s| == 2 then [alphabet[s[0] / 4], alphabet[s[0] % 4 * 16 + s[1] / 16], alphabet[s[1] % 16 * 4], pad]
    else [alphabet[s[0] / 4], alphabet[s[0] % 4 * 16 + s[1] / 16], alphabet[s[1] % 16 * 4 + s[2] / 64], alphabet[s[2] % 64]]
         + Base64(alphabet, pad, s[3..])
  }

  /** The digits of section 4 of RFC 4648, before any pad. */
  function SixBitDigits(s: seq<byte>): seq<byte>
    decreases |s|
  {
    if s == [] then []
    else if |s| == 1 then [s[0] / 4, s[0] % 4 * 16]
    else if |s| == 2 then [s[0] / 4, s[0] % 4 * 16 + s[1] / 16, s[1] % 16 * 4]
    else ThreeByteDigits(s[0], s[1], s[2]) + SixBitDigits(s[3..])
  }

  lemma PowersOfTwo()
    ensures Pow2(2) == 4 && Pow2(4) == 16 && Pow2(6) == 64
  {
    assert Pow2(3) == 8;
    assert Pow2(5) == 32;
  }

  /** Cutting a number at a bit. */
  lemma CutBits(high: nat, low: nat, n: nat, l: nat, scale: nat)
    requires low < scale && Pow2(l) == scale
    ensures BitsOf(high * scale + low, n + l) == BitsOf(high, n) + BitsOf(low, l)
  {
    hide BitsOf, Pow2;
    ShlIsTimes(high, l);
    BitsOfSum(high, low, n, l);
  }

  /** The first two digits. */
  lemma FirstDigits(a: byte, b: nat)
    requires b < 16
    ensures BitsOf(a, 8) == BitsOf(a / 4, 6) + BitsOf(a % 4, 2)
    ensures BitsOf(a % 4 * 16 + b, 6) == BitsOf(a % 4, 2) + BitsOf(b, 4)
  {
    hide BitsOf;
    PowersOfTwo();
    CutBits(a / 4, a % 4, 6, 2, 4);
    CutBits(a % 4, b, 2, 4, 16);
  }

  /** The second and third digits. */
  lemma MiddleDigits(b: byte, c: nat)
    requires c < 4
    ensures BitsOf(b, 8) == BitsOf(b / 16, 4) + BitsOf(b % 16, 4)
    ensures BitsOf(b % 16 * 4 + c, 6) == BitsOf(b % 16, 4) + BitsOf(c, 2)
  {
    hide BitsOf;
    PowersOfTwo();
    CutBits(b / 16, b % 16, 4, 4, 16);
    CutBits(b % 16, c, 4, 2, 4);
  }

  lemma LastDigits(c: byte)
    ensures BitsOf(c, 8) == BitsOf(c / 64, 2) + BitsOf(c % 64, 6)
  {
    hide BitsOf;
    PowersOfTwo();
    CutBits(c / 64, c % 64, 2, 6, 64);
  }

  lemma JoinedOne(a: byte, n: nat)
    ensures Joined([a], n) == BitsOf(a, n)
  {
    assert [a][..0] == [];
  }

  lemma JoinedTwo(a: byte, b: byte, n: nat)
    ensures Joined([a, b], n) == BitsOf(a, n) + BitsOf(b, n)
  {
    JoinedOne(a, n);
    JoinedAppend([a], b, n);
  }

  lemma JoinedThree(a: byte, b: byte, c: byte, n: nat)
    ensures Joined([a, b, c], n) == BitsOf(a, n) + BitsOf(b, n) + BitsOf(c, n)
  {
    JoinedTwo(a, b, n);
    JoinedAppend([a, b], c, n);
    assert [a, b] + [c] == [a, b, c];
  }

  lemma JoinedFour(a: byte, b: byte, c: byte, d: byte, n: nat)
    ensures Joined([a, b, c, d], n) == BitsOf(a, n) + BitsOf(b, n) + BitsOf(c, n) + BitsOf(d, n)
  {
    JoinedThree(a, b, c, n);
    JoinedAppend([a, b, c], d, n);
    assert [a, b, c] + [d] == [a, b, c, d];
  }

  lemma OneByte(a: byte)
    ensures Joined(SixBitDigits([a]), 6) == Joined([a], 8) + Falses(4)
  {
    hide BitsOf, Joined;
    JoinedOne(a, 8);
    JoinedTwo(a / 4, a % 4 * 16, 6);
    FirstDigits(a, 0);
    BitsOfZero(4);
  }

  lemma TwoBytes(a: byte, b: byte)
    ensures Joined(SixBitDigits([a, b]), 6) == Joined([a, b], 8) + Falses(2)
  {
    hide BitsOf, Joined;
    JoinedTwo(a, b, 8);
    JoinedThree(a / 4, a % 4 * 16 + b / 16, b % 16 * 4, 6);
    FirstDigits(a, b / 16);
    MiddleDigits(b, 0);
    BitsOfZero(2);
  }

  lemma ThreeBytes(a: byte, b: byte, c: byte)
    ensures Joined(ThreeByteDigits(a, b, c), 6) == Joined([a, b, c], 8)
  {
    hide BitsOf, Joined;
    JoinedThree(a, b, c, 8);
    JoinedFour(a / 4, a % 4 * 16 + b / 16, b % 16 * 4 + c / 64, c % 64, 6);
    FirstDigits(a, b / 16);
    MiddleDigits(b, c / 64);
    LastDigits(c);
  }

  /** Zero bits that fill up the last digit. */
  function SixBitFill(count: nat): nat {
    if count % 3 == 0 then 0 else if count % 3 == 1 then 4 else 2
  }

  lemma {:induction false} SixBitDigitsJoin(s: seq<byte>)
    ensures Joined(SixBitDigits(s), 6) == Joined(s, 8) + Falses(SixBitFill(|s|))
    decreases |s|
  {
    hide BitsOf, Joined, SixBitDigits, SixBitFill;
    if |s| < 3 {
      LastBytesJoin(s);
    } else {
      SixBitDigitsJoin(s[3..]);
      SameFill(s);
      ThreeBytesOn(s);
      AppendEqually(Joined(s[..3], 8), Joined(s[3..], 8), Falses(SixBitFill(|s|)));
    }
  }

  lemma AppendEqually(front: seq<bool>, middle: seq<bool>, back: seq<bool>)
    ensures front + (middle + back) == front + middle + back
  {
  }

  lemma SameFill(s: seq<byte>)
    requires |s| >= 3
    ensures SixBitFill(|s[3..]|) == SixBitFill(|s|)
  {
  }

  lemma LastBytesJoin(s: seq<byte>)
    requires |s| < 3
    ensures Joined(SixBitDigits(s), 6) == Joined(s, 8) + Falses(SixBitFill(|s|))
  {
    hide BitsOf, Joined, SixBitDigits, Falses;
    if s == [] {
      JoinedNothing();
    } else if |s| == 1 {
      assert s == [s[0]];
      OneByte(s[0]);
    } else {
      assert s == [s[0], s[1]];
      TwoBytes(s[0], s[1]);
    }
  }

  lemma ThreeBytesOn(s: seq<byte>)
    requires |s| >= 3
    ensures Joined(SixBitDigits(s), 6) == Joined(s[..3], 8) + Joined(SixBitDigits(s[3..]), 6)
    ensures Joined(s, 8) == Joined(s[..3], 8) + Joined(s[3..], 8)
  {
    hide BitsOf, Joined, SixBitDigits, ThreeByteDigits;
    var d, rest := ThreeByteDigits(s[0], s[1], s[2]), SixBitDigits(s[3..]);
    SixBitDigitsOn(s);
    JoinedConcat(d, rest, 6);
    ThreeBytesFront(s);
    SplitJoins(s, 3);
  }

  lemma ThreeBytesFront(s: seq<byte>)
    requires |s| >= 3
    ensures Joined(ThreeByteDigits(s[0], s[1], s[2]), 6) == Joined(s[..3], 8)
  {
    hide BitsOf, Joined, ThreeByteDigits;
    ThreeBytes(s[0], s[1], s[2]);
    assert [s[0], s[1], s[2]] == s[..3];
  }

  lemma SplitJoins(s: seq<byte>, i: nat)
    requires i <= |s|
    ensures Joined(s, 8) == Joined(s[..i], 8) + Joined(s[i..], 8)
  {
    hide BitsOf, Joined;
    JoinedConcat(s[..i], s[i..], 8);
    assert s[..i] + s[i..] == s;
  }

  function ThreeByteDigits(a: byte, b: byte, c: byte): seq<byte> {
    [a / 4, a % 4 * 16 + b / 16, b % 16 * 4 + c / 64, c % 64]
  }

  lemma SixBitDigitsOn(s: seq<byte>)
    requires |s| >= 3
    ensures SixBitDigits(s) == ThreeByteDigits(s[0], s[1], s[2]) + SixBitDigits(s[3..])
  {
  }

  lemma JoinedNothing()
    ensures Joined(SixBitDigits([]), 6) == Joined([], 8) + Falses(0)
  {
  }

  /** The two final cases. */
  lemma Base64Ends(alphabet: seq<byte>, pad: byte, s: seq<byte>)
    requires |alphabet| == 64 && |s| < 3
    ensures forall i :: 0 <= i < |SixBitDigits(s)| ==> SixBitDigits(s)[i] < 64
    ensures Base64(alphabet, pad, s) == Mapped(alphabet, SixBitDigits(s)) + Repeat(pad, Missing(|SixBitDigits(s)|, 4))
  {
  }

  lemma {:induction false} SixBitDigitsSmall(s: seq<byte>)
    ensures forall i :: 0 <= i < |SixBitDigits(s)| ==> SixBitDigits(s)[i] < 64
    decreases |s|
  {
    if |s| >= 3 {
      SixBitDigitsSmall(s[3..]);
      SixBitDigitsOn(s);
      hide SixBitDigits;
    }
  }

  lemma MappedAppend(alphabet: seq<byte>, s: seq<byte>, t: seq<byte>)
    requires (forall i :: 0 <= i < |s| ==> s[i] < |alphabet|) && (forall i :: 0 <= i < |t| ==> t[i] < |alphabet|)
    ensures forall i :: 0 <= i < |s + t| ==> (s + t)[i] < |alphabet|
    ensures Mapped(alphabet, s + t) == Mapped(alphabet, s) + Mapped(alphabet, t)
  {
  }

  lemma {:induction false} Base64IsMapped(alphabet: seq<byte>, pad: byte, s: seq<byte>)
    requires |alphabet| == 64
    ensures forall i :: 0 <= i < |SixBitDigits(s)| ==> SixBitDigits(s)[i] < 64
    ensures Base64(alphabet, pad, s) == Mapped(alphabet, SixBitDigits(s)) + Repeat(pad, Missing(|SixBitDigits(s)|, 4))
    decreases |s|
  {
    hide Base64, SixBitDigits, Mapped, Missing;
    SixBitDigitsSmall(s);
    if |s| >= 3 {
      Base64IsMapped(alphabet, pad, s[3..]);
      SixBitDigitsOn(s);
      Base64On(alphabet, pad, s);
      MappedAppend(alphabet, ThreeByteDigits(s[0], s[1], s[2]), SixBitDigits(s[3..]));
      FourMore(|SixBitDigits(s[3..])|);
    } else {
      Base64Ends(alphabet, pad, s);
    }
  }

  lemma Base64On(alphabet: seq<byte>, pad: byte, s: seq<byte>)
    requires |alphabet| == 64 && |s| >= 3
    ensures Base64(alphabet, pad, s) == Mapped(alphabet, ThreeByteDigits(s[0], s[1], s[2])) + Base64(alphabet, pad, s[3..])
  {
  }

  lemma FourMore(count: nat)
    ensures Missing(4 + count, 4) == Missing(count, 4)
  {
  }

  /** With 64 characters and padding the text is the base 64 encoding of RFC 4648. */
  lemma EncodedIsBase64(c: Code, s: seq<byte>)
    requires IsCode(c) && c.bits == 6 && c.padding.Some?
    ensures |c.alphabet| == 64 && Encoded(c, s) == Base64(c.alphabet, c.padding.value, s)
  {
    hide BitsOf, Joined, Digits, SixBitDigits, Base64;
    PowersOfTwo();
    SixBitDigitsJoin(s);
    Base64IsMapped(c.alphabet, c.padding.value, s);
    DigitsUnique(SixBitDigits(s), 6, Joined(s, 8), SixBitFill(|s|));
  }

  /** The terminator comes after everything else. */
  lemma TerminatorLast(s: seq<byte>, g: nat, separator: seq<byte>, terminator: seq<byte>)
    ensures var text := GroupedText(s, g, separator, terminator);
      |terminator| <= |text| && text[|text| - |terminator|..] == terminator
    ensures var text := GroupedText(s, g, separator, terminator);
      text[..|text| - |terminator|] == if g == 0 then s else Grouped(s, g, separator)
  {
    hide Grouped;
  }

  /** With padding the text is whole blocks, and less than a block of it is padding. */
  lemma PaddedToBlocks(c: Code, s: seq<byte>)
    requires IsCode(c) && c.padding.Some?
    ensures var digits := |DigitsOf(s, c.bits)|;
      && |Encoded(c, s)| % BlockSize(c.bits) == 0 && digits <= |Encoded(c, s)| < digits + BlockSize(c.bits)
      && forall i :: digits <= i < |Encoded(c, s)| ==> Encoded(c, s)[i] == c.padding.value
  {
    hide DigitsOf, BlockSize, Mapped, Pow2;
    MissingCompletes(|DigitsOf(s, c.bits)|, BlockSize(c.bits));
  }

  lemma MissingCompletes(count: nat, block: nat)
    requires block > 0
    ensures (count + Missing(count, block)) % block == 0
  {
    DivModIdentity(count, block);
    if count % block != 0 { DivModUnique(count + Missing(count, block), block, count / block + 1, 0); }
  }

  // ----- the other base of RFC 4648 with whole characters to a byte

  /** Section 8 of RFC 4648: two digits to a byte, the high half first. */
  function Base16(alphabet: seq<byte>, s: seq<byte>): seq<byte>
    requires |alphabet| == 16
  {
    if s == [] then [] else Base16(alphabet, s[..|s| - 1]) + [alphabet[s[|s| - 1] / 16], alphabet[s[|s| - 1] % 16]]
  }

  function Nibbles(s: seq<byte>): seq<byte> {
    if s == [] then [] else Nibbles(s[..|s| - 1]) + [s[|s| - 1] / 16, s[|s| - 1] % 16]
  }

  lemma NibblesOn(s: seq<byte>)
    requires s != []
    ensures Nibbles(s) == Nibbles(s[..|s| - 1]) + [s[|s| - 1] / 16, s[|s| - 1] % 16]
  {
  }

  lemma TwoNibbles(b: byte)
    ensures Joined([b / 16, b % 16], 4) == BitsOf(b, 8)
  {
    hide Joined, BitsOf;
    JoinedTwo(b / 16, b % 16, 4);
    PowersOfTwo();
    CutBits(b / 16, b % 16, 4, 4, 16);
  }

  lemma {:induction false} NibblesJoin(s: seq<byte>)
    ensures Joined(Nibbles(s), 4) == Joined(s, 8)
  {
    hide Joined, BitsOf, Nibbles;
    if s == [] {
      NoNibbles();
    } else {
      NibblesJoin(s[..|s| - 1]);
      OneMoreByte(s[..|s| - 1], s[|s| - 1]);
      assert s[..|s| - 1] + [s[|s| - 1]] == s;
    }
  }

  lemma NoNibbles()
    ensures Joined(Nibbles([]), 4) == Joined([], 8)
  {
    JoinedEmpty(4);
    JoinedEmpty(8);
  }

  lemma OneMoreByte(front: seq<byte>, b: byte)
    requires Joined(Nibbles(front), 4) == Joined(front, 8)
    ensures Joined(Nibbles(front + [b]), 4) == Joined(front + [b], 8)
  {
    hide Joined, BitsOf, Nibbles;
    var s := front + [b];
    assert s[..|s| - 1] == front;
    NibblesOn(s);
    JoinedConcat(Nibbles(front), [b / 16, b % 16], 4);
    TwoNibbles(b);
    JoinedAppend(front, b, 8);
  }

  lemma {:induction false} NibblesSmall(s: seq<byte>)
    ensures |Nibbles(s)| % 2 == 0 && forall i :: 0 <= i < |Nibbles(s)| ==> Nibbles(s)[i] < 16
  {
    if s != [] {
      NibblesSmall(s[..|s| - 1]);
      NibblesOn(s);
      hide Nibbles;
    }
  }

  lemma {:induction false} Base16IsMapped(alphabet: seq<byte>, s: seq<byte>)
    requires |alphabet| == 16
    ensures forall i :: 0 <= i < |Nibbles(s)| ==> Nibbles(s)[i] < 16
    ensures Base16(alphabet, s) == Mapped(alphabet, Nibbles(s))
  {
    if s != [] {
      var front, b := s[..|s| - 1], s[|s| - 1];
      Base16IsMapped(alphabet, front);
      NibblesSmall(s);
      MappedAppend(alphabet, Nibbles(front), [b / 16, b % 16]);
    }
  }

  /** With sixteen characters the text is the base 16 encoding of RFC 4648, padding or not. */
  lemma EncodedIsBase16(c: Code, s: seq<byte>)
    requires IsCode(c) && c.bits == 4
    ensures |c.alphabet| == 16 && Encoded(c, s) == Base16(c.alphabet, s)
  {
    hide BitsOf, Joined, Digits, Nibbles, Base16, Mapped;
    PowersOfTwo();
    NibblesJoin(s);
    NibblesSmall(s);
    Base16IsMapped(c.alphabet, s);
    assert Joined(s, 8) + Falses(0) == Joined(s, 8);
    DigitsUnique(Nibbles(s), 4, Joined(s, 8), 0);
    assert Mapped(c.alphabet, Nibbles(s)) + [] == Mapped(c.alphabet, Nibbles(s));
  }
}
