/** DEREncodeUnsigned and BERDecodeUnsigned (asn.h) for words of any size. */
module AsnUnsigned {
  import opened Powers
  import opened Bytes
  import opened AsnLength
  import opened Options

  const BOOLEAN: byte := 1
  const INTEGER: byte := 2

  /** Content octets: all ones or zero for a BOOLEAN, otherwise the bytes of the number without
      leading zeros, after one zero byte when the top bit would read as a sign. */
  function Content(w: nat, tag: byte): seq<byte> {
    if tag == BOOLEAN then [if w == 0 then 0 else 255]
    else if w == 0 then [0]
    else if TopByte(w) >= 128 then [0] + BigEndian(w, BytePrecision(w))
    else BigEndian(w, BytePrecision(w))
  }

  /** The most significant byte that is not zero. */
  function TopByte(w: nat): byte {
    if w < 256 then w else TopByte(w / 256)
  }

  /** The number a string of content octets stands for, section 8.3.3 of X.690. */
  function TwosComplement(c: seq<byte>): int {
    if c == [] then 0
    else FromBigEndian(c) - (if c[0] >= 128 then Pow256(|c|) else 0)
  }

  /** Section 8.3.2 of X.690: at least one octet, and the first nine bits not all alike. */
  predicate Minimal(c: seq<byte>) {
    |c| > 0 && (|c| > 1 ==> !(c[0] == 0 && c[1] < 128) && !(c[0] == 255 && c[1] >= 128))
  }

  lemma {:induction false} TopByteLeads(w: nat)
    requires w > 0
    ensures BigEndian(w, BytePrecision(w)) != [] && BigEndian(w, BytePrecision(w))[0] == TopByte(w) > 0
  {
    if w >= 256 { TopByteLeads(w / 256); }
  }

  lemma ReadsBack(w: nat)
    ensures FromBigEndian(BigEndian(w, BytePrecision(w))) == w
  {
    PrecisionBounds(w);
    BigEndianReads(w, BytePrecision(w));
  }

  lemma ZeroInFront(s: seq<byte>)
    ensures FromBigEndian([0] + s) == FromBigEndian(s)
  {
    FromBigEndianAppend([0], s);
    assert [0][..0] == [];
    assert FromBigEndian([0]) == 0;
  }

  /** For every tag but BOOLEAN the content is the shortest two's complement form of the number. */
  lemma ContentIsMinimal(w: nat, tag: byte)
    requires tag != BOOLEAN
    ensures Minimal(Content(w, tag)) && TwosComplement(Content(w, tag)) == w == FromBigEndian(Content(w, tag))
  {
    hide BigEndian, Pow256, FromBigEndian;
    if w == 0 {
      ZeroInFront([]);
      assert [0] + [] == [0];
      NothingRead();
    } else {
      TopByteLeads(w);
      ReadsBack(w);
      ZeroInFront(BigEndian(w, BytePrecision(w)));
    }
  }

  /** The whole encoding. */
  function DerUnsigned(w: nat, tag: byte): seq<byte> {
    [tag] + DerLength(|Content(w, tag)|) + Content(w, tag)
  }

  lemma {:induction false} PrecisionFits(w: nat, size: nat)
    requires w < Pow256(size)
    ensures BytePrecision(w) <= size
  {
    if w > 0 { PrecisionFits(w / 256, size - 1); }
  }

  lemma ContentFits(w: nat, tag: byte, size: nat)
    requires w < Pow256(size) && size > 0
    ensures |Content(w, tag)| <= size + 1
  {
    PrecisionFits(w, size);
  }

  // ----- writing

  /** Leading zeros of a fixed-size word. */
  lemma {:induction false} LeadingZeros(w: nat, size: nat)
    requires w < Pow256(size)
    ensures BytePrecision(w) <= size
    ensures BigEndian(w, size) == Zeros(size - BytePrecision(w)) + BigEndian(w, BytePrecision(w))
  {
    hide BytePrecision;
    PrecisionFits(w, size);
    if w == 0 {
      NoPrecision();
      ZeroWord(size);
    } else {
      PrecisionStep(w);
      LeadingZeros(w / 256, size - 1);
    }
  }

  lemma NoPrecision()
    ensures BytePrecision(0) == 0
  {
  }

  lemma PrecisionStep(w: nat)
    requires w > 0
    ensures BytePrecision(w) == 1 + BytePrecision(w / 256)
  {
  }

  lemma {:induction false} ZeroWord(size: nat)
    ensures BigEndian(0, size) == Zeros(size)
  {
    if size > 0 { ZeroWord(size - 1); }
  }

  /** The buffer of DEREncodeUnsigned: a zero byte, then the word. */
  method FillBuffer(w: nat, size: nat) returns (buf: array<byte>)
    ensures fresh(buf) && buf.Length == size + 1 && buf[..] == [0] + BigEndian(w, size)
  {
    hide BigEndian;
    buf := new byte[size + 1](_ => 0);
    ghost var word := BigEndian(w, size);
    for i := 0 to size
      invariant buf[0] == 0 && forall j :: 0 <= j < i ==> buf[j + 1] == word[j]
    {
      BigEndianAt(w, size, i);
      buf[i + 1] := Shr(w, (size - 1 - i) * 8) % 256;
    }
    assert buf[1..] == word;
  }

  /** How many of the buffer's last bytes are the content. */
  method CountBytes(buf: array<byte>, w: nat, size: nat) returns (bc: nat)
    requires size > 0 && w < Pow256(size) && buf.Length == size + 1 && buf[..] == [0] + BigEndian(w, size)
    ensures bc <= size + 1 && buf[size + 1 - bc..] == Content(w, INTEGER)
  {
    hide BigEndian, Pow256, BytePrecision, TopByte;
    LeadingZeros(w, size);
    ghost var k := BytePrecision(w);
    ghost var significant := BigEndian(w, k);
    if w == 0 { NoPrecision(); } else { TopByteLeads(w); }
    bc := size;
    while bc > 1 && buf[size + 1 - bc] == 0
      invariant 1 <= bc <= size && k <= bc
    {
      bc := bc - 1;
    }
    ghost var start := size + 1 - bc;
    assert buf[..] == Zeros(size + 1 - k) + significant;
    assert w > 0 ==> bc == k;
    assert w > 0 ==> buf[start..] == significant;
    assert w == 0 ==> bc == 1 && buf[start] == 0;
    if buf[size + 1 - bc] >= 128 { bc := bc + 1; }
  }

  /** DEREncodeUnsigned; returns the number of bytes written. */
  method DEREncodeUnsigned(out: ByteQueue, w: nat, size: nat, tag: byte) returns (count: nat)
    requires 0 < size < LWORD - 1 && w < Pow256(size)
    modifies out
    ensures |Content(w, tag)| < LWORD
    ensures out.contents == old(out.contents) + DerUnsigned(w, tag) && count == |DerUnsigned(w, tag)|
  {
    hide BigEndian, Pow256, DerLength, TopByte, BytePrecision;
    var buf := FillBuffer(w, size);
    var bc;
    if tag == BOOLEAN {
      buf[size] := if w == 0 then 0 else 0xff;
      bc := 1;
    } else {
      bc := CountBytes(buf, w, size);
    }
    ContentFits(w, tag, size);
    assert buf[size + 1 - bc..] == Content(w, tag);
    out.Put(tag);
    var lengthBytes := DERLengthEncode(out, bc);
    out.PutBytes(buf[size + 1 - bc..]);
    count := 1 + lengthBytes + bc;
  }

  // ----- reading

  /** The number that stands at the front of a string, and the number of bytes it takes: the tag, any
      definite length, and content whose unsigned value fits in the word and lies in the range. */
  function ParseUnsigned(s: seq<byte>, tag: byte, size: nat, min: nat, max: nat): Option<(nat, nat)> {
    if s == [] || s[0] != tag || !ParseLength(s[1..]).Definite? then None
    else
      var field := ParseLength(s[1..]);
      var start := 1 + field.size;
      if start + field.length > |s| then None
      else
        var v := FromBigEndian(s[start..start + field.length]);
        if v < Pow256(size) && min <= v <= max then Some((v, start + field.length)) else None
  }

  /** Decoding undoes encoding for every word size and number, whatever follows. */
  lemma DecodeEncoded(w: nat, size: nat, tag: byte, min: nat, max: nat, rest: seq<byte>)
    requires tag != BOOLEAN && w < Pow256(size) && min <= w <= max && |Content(w, tag)| < LWORD
    ensures ParseUnsigned(DerUnsigned(w, tag) + rest, tag, size, min, max) == Some((w, |DerUnsigned(w, tag)|))
  {
    hide BigEndian, Pow256, DerLength, FromBigEndian, ParseLength, Content;
    var c := Content(w, tag);
    var s := DerUnsigned(w, tag) + rest;
    assert s[1..] == DerLength(|c|) + (c + rest);
    ParseDerLength(|c|, c + rest);
    var start := 1 + |DerLength(|c|)|;
    assert s[start..start + |c|] == c;
    ContentIsMinimal(w, tag);
  }

  /** Content octets that section 8.3 of X.690 allows for a number. */
  predicate Allowed(c: seq<byte>, v: int) {
    Minimal(c) && TwosComplement(c) == v
  }

  /** A string that starts with a nonzero byte is the shortest form of its number. */
  lemma ShortestForm(s: seq<byte>)
    requires s != [] && s[0] > 0
    ensures var v := FromBigEndian(s); v > 0 && BytePrecision(v) == |s| && BigEndian(v, |s|) == s && TopByte(v) == s[0]
  {
    hide FromBigEndian, BigEndian, Pow256, BytePrecision, TopByte;
    var v := FromBigEndian(s);
    FromBigEndianBound(s);
    LeadingByte(s);
    PrecisionFits(v, |s|);
    PrecisionBounds(v);
    if BytePrecision(v) < |s| { Pow256Monotone(BytePrecision(v), |s| - 1); }
    BigEndianWrites(s);
    TopByteLeads(v);
  }

  /** Allowed content of a number that is not negative is the content the encoder writes. */
  lemma OneMinimalForm(c: seq<byte>, tag: byte)
    requires tag != BOOLEAN && Minimal(c) && c[0] < 128
    ensures c == Content(FromBigEndian(c), tag)
  {
    hide FromBigEndian, BigEndian, BytePrecision, TopByte;
    if c[0] > 0 {
      ShortestForm(c);
    } else {
      var tail := c[1..];
      assert c == [0] + tail;
      ZeroInFront(tail);
      if tail == [] {
        NothingRead();
      } else {
        ShortestForm(tail);
      }
    }
  }

  /** The decoder takes content as unsigned, in any length and even none. What it returns for a string
      it accepts is what section 8.3 of X.690 says exactly when the content is minimal and its sign bit
      is clear, and that is exactly the content the encoder writes. */
  lemma AcceptedConforms(s: seq<byte>, tag: byte, size: nat, min: nat, max: nat)
    requires tag != BOOLEAN && ParseUnsigned(s, tag, size, min, max).Some?
    ensures var c, v := ContentOf(s), ParseUnsigned(s, tag, size, min, max).value.0;
      && (Allowed(c, v) <==> Minimal(c) && c[0] < 128)
      && (Allowed(c, v) <==> c == Content(v, tag))
  {
    hide ParseLength, FromBigEndian, BigEndian, BytePrecision, TopByte;
    var c, v := ContentOf(s), ParseUnsigned(s, tag, size, min, max).value.0;
    ContentIsMinimal(v, tag);
    if Minimal(c) && c[0] < 128 { OneMinimalForm(c, tag); }
    if c == Content(v, tag) { ContentIsUnsigned(v, tag); }
  }

  lemma ContentIsUnsigned(v: nat, tag: byte)
    requires tag != BOOLEAN
    ensures Content(v, tag) != [] && Content(v, tag)[0] < 128
  {
    hide BigEndian;
    if v > 0 { TopByteLeads(v); }
  }

  /** The content octets of an element of definite length. */
  function ContentOf(s: seq<byte>): seq<byte>
    requires s != [] && ParseLength(s[1..]).Definite? && 1 + ParseLength(s[1..]).size + ParseLength(s[1..]).length <= |s|
  {
    var field := ParseLength(s[1..]);
    s[1 + field.size..1 + field.size + field.length]
  }

  /** What an accepted string is: the tag asked for, a definite length, and big-endian content whose value
      is the one returned, within the word and the range. */
  lemma ParsedUnsigned(s: seq<byte>, tag: byte, size: nat, min: nat, max: nat)
    requires ParseUnsigned(s, tag, size, min, max).Some?
    ensures var v, count := ParseUnsigned(s, tag, size, min, max).value.0, ParseUnsigned(s, tag, size, min, max).value.1;
      && s != [] && s[0] == tag && min <= v <= max && v < Pow256(size) && count <= |s|
      && ParseLength(s[1..]).Definite? && v == FromBigEndian(ContentOf(s))
      && count == 1 + ParseLength(s[1..]).size + |ContentOf(s)| && |ContentOf(s)| == ParseLength(s[1..]).length
  {
    hide ParseLength, Pow256, FromBigEndian;
  }

  /** The encodings of true, of 128 as an INTEGER and of 1 as an ENUMERATED. */
  lemma KnownUnsigned()
    ensures DerUnsigned(7, 1) == [1, 1, 255] && DerUnsigned(128, 2) == [2, 2, 0, 128] && DerUnsigned(1, 10) == [10, 1, 1]
  {
    assert BytePrecision(128) == 1 && BytePrecision(1) == 1;
    assert BigEndian(128, 1) == [128] && BigEndian(1, 1) == [1];
  }

  /** Three inputs it accepts that section 8.3 does not allow: no content, a needless zero in front of 5,
      and -1 read as 255. */
  lemma LaxContent()
    ensures ParseUnsigned([INTEGER, 0], INTEGER, 4, 0, 1000) == Some((0, 2)) && !Allowed([], 0)
    ensures ParseUnsigned([INTEGER, 2, 0, 5], INTEGER, 4, 0, 1000) == Some((5, 4)) && !Allowed([0, 5], 5)
    ensures ParseUnsigned([INTEGER, 1, 255], INTEGER, 4, 0, 1000) == Some((255, 3)) && TwosComplement([255]) == -1
  {
    AtLeastByte(1);
    Pow256Monotone(1, 4);
    assert Pow256(1) == 256 * Pow256(0);
    SmallReads();
    hide Pow256, FromBigEndian;
    var s: seq<byte> := [INTEGER, 1, 255];
    assert s[2..3] == [255];
    var t: seq<byte> := [INTEGER, 0];
    assert t[2..2] == [];
    var u: seq<byte> := [INTEGER, 2, 0, 5];
    assert u[2..4] == [0, 5];
  }

  lemma SmallReads()
    ensures FromBigEndian([]) == 0 && FromBigEndian([255]) == 255 && FromBigEndian([0, 5]) == 5
  {
    assert [255][..0] == [] && [5][..0] == [];
    ZeroInFront([5]);
    assert [0] + [5] == [0, 5];
  }

  /** A BOOLEAN comes back as 0 or 255, so only those two survive. */
  lemma BooleanDecodes(w: nat, size: nat, rest: seq<byte>)
    requires 0 < size && w < Pow256(size)
    ensures var r := ParseUnsigned(DerUnsigned(w, BOOLEAN) + rest, BOOLEAN, size, 0, Pow256(size) - 1);
      r == Some((if w == 0 then 0 else 255, 3)) && (r.value.0 == w <==> w == 0 || w == 255)
  {
    hide BigEndian;
    var c := Content(w, BOOLEAN);
    var s := DerUnsigned(w, BOOLEAN) + rest;
    ParseDerLength(1, c + rest);
    assert s[1..] == DerLength(1) + (c + rest);
    assert ParseLength(s[1..]) == Definite(1, 1);
    assert s[2..3] == c && c[..0] == [];
    assert FromBigEndian(c) == c[0];
    AtLeastByte(size);
  }

  lemma AtLeastByte(size: nat)
    requires size > 0
    ensures Pow256(size) >= 256
  {
  }

  lemma {:induction false} LeadingByte(s: seq<byte>)
    requires s != [] && s[0] > 0
    ensures FromBigEndian(s) >= Pow256(|s| - 1)
  {
    if |s| > 1 { LeadingByte(s[..|s| - 1]); }
  }

  lemma DropZero(s: seq<byte>, i: nat)
    requires i < |s| && s[i] == 0
    ensures FromBigEndian(s[i..]) == FromBigEndian(s[i + 1..])
  {
    ZeroInFront(s[i + 1..]);
    assert s[i..] == [0] + s[i + 1..];
  }

  /** The two loops over the content: leading zeros beyond the word are dropped, the rest is read. */
  method ReadContent(buf: seq<byte>, size: nat) returns (ok: bool, w: nat)
    ensures ok == (FromBigEndian(buf) < Pow256(size)) && (ok ==> w == FromBigEndian(buf))
  {
    hide FromBigEndian, Pow256;
    var bc: nat, ptr: nat := |buf|, 0;
    w := 0;
    assert buf[0..] == buf;
    while bc > size && buf[ptr] == 0
      invariant ptr + bc == |buf| && FromBigEndian(buf[ptr..]) == FromBigEndian(buf)
      decreases bc
    {
      DropZero(buf, ptr);
      bc := bc - 1;
      ptr := ptr + 1;
    }
    if bc > size {
      LeadingByte(buf[ptr..]);
      Pow256Monotone(size, bc - 1);
      return false, 0;
    }
    NothingRead();
    ghost var content := buf[ptr..];
    for i := 0 to bc
      invariant w == FromBigEndian(content[..i])
    {
      NextByte(content, i);
      w := w * 256 + buf[ptr + i];
    }
    assert content[..bc] == content;
    FromBigEndianBound(content);
    Pow256Monotone(bc, size);
    ok := true;
  }

  /** BERDecodeUnsigned. */
  method BERDecodeUnsigned(input: ByteQueue, tag: byte, size: nat, min: nat, max: nat) returns (r: Option<nat>)
    modifies input
    ensures var parsed := ParseUnsigned(old(input.contents), tag, size, min, max);
      && (r.Some? <==> parsed.Some?)
      && (r.Some? ==> r.value == parsed.value.0 && parsed.value.1 <= |old(input.contents)| && input.contents == old(input.contents)[parsed.value.1..])
  {
    hide FromBigEndian, Pow256, ParseLength;
    ghost var s := input.contents;
    var got, b := input.Get();
    if !got || b != tag { return None; }
    assert s[1..] == input.contents;
    var field := BERLengthDecode(input);
    if !field.Definite? { return None; }
    var buf := input.GetBytes(field.length);
    if |buf| != field.length { return None; }
    ghost var start := 1 + field.size;
    assert s[start..] == buf + input.contents;
    assert s[start..start + field.length] == buf && input.contents == s[start + field.length..];
    var ok, w := ReadContent(buf, size);
    if !ok || w < min || w > max { return None; }
    r := Some(w);
  }
}
