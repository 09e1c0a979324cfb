/** Object identifiers (asn.cpp), section 8.19 of ITU-T X.690. */
module AsnOid {
  import opened Powers
  import opened Bytes
  import opened AsnLength
  import opened Options

  const OBJECT_IDENTIFIER: byte := 6

  /** The range of word32. */
  const WORD32 := 0x1_0000_0000

  /** Seven bits to an octet, each with its top bit set. */
  function Continued(v: nat): seq<byte> {
    if v == 0 then [] else Continued(v / 128) + [128 + v % 128]
  }

  /** An arc: base 128, the last octet with its top bit clear. */
  function Arc(v: nat): seq<byte> {
    Continued(v / 128) + [v % 128]
  }

  /** The number that a run of octets stands for, seven bits each. */
  function FromSeptets(s: seq<byte>): nat {
    if s == [] then 0 else 128 * FromSeptets(s[..|s| - 1]) + s[|s| - 1] % 128
  }

  /** The number of octets up to and including the first with its top bit clear; zero if there is none. */
  function ArcSize(s: seq<byte>): (r: nat)
    ensures r <= |s| && (r > 0 ==> s[r - 1] < 128 && forall i :: 0 <= i < r - 1 ==> s[i] >= 128)
    ensures r == 0 ==> forall i :: 0 <= i < |s| ==> s[i] >= 128
  {
    if s == [] then 0 else if s[0] < 128 then 1
    else
      var tail := ArcSize(s[1..]);
      if tail == 0 then 0 else tail + 1
  }

  /** An arc of at most 32 bits at the front of a string, and its size. */
  function ParseArc(s: seq<byte>): Option<(nat, nat)> {
    var size := ArcSize(s);
    if size > 0 && FromSeptets(s[..size]) < WORD32 then Some((FromSeptets(s[..size]), size)) else None
  }

  lemma {:induction false} ContinuedReads(v: nat)
    ensures FromSeptets(Continued(v)) == v
    ensures forall i :: 0 <= i < |Continued(v)| ==> Continued(v)[i] >= 128
  {
    if v > 0 {
      ContinuedReads(v / 128);
      ContinuedStep(v);
      hide Continued, FromSeptets;
      var front := Continued(v / 128);
      NextSeptet(Continued(v), |front|);
      assert Continued(v)[..|front|] == front && Continued(v)[..|front| + 1] == Continued(v);
      LastSeptet(v);
    }
  }

  lemma LastSeptet(v: nat)
    ensures (128 + v % 128) % 128 == v % 128 && 128 * (v / 128) + v % 128 == v
  {
  }

  lemma {:induction false} ArcSizeIs(s: seq<byte>, n: nat)
    requires n < |s| && s[n] < 128 && forall i :: 0 <= i < n ==> s[i] >= 128
    ensures ArcSize(s) == n + 1
  {
    if n > 0 { ArcSizeIs(s[1..], n - 1); }
  }

  /** Every 32-bit arc comes back, whatever follows. */
  lemma ParseEncodedArc(v: nat, rest: seq<byte>)
    requires v < WORD32
    ensures ParseArc(Arc(v) + rest) == Some((v, |Arc(v)|))
  {
    hide Continued, FromSeptets;
    ContinuedReads(v / 128);
    var n := |Continued(v / 128)|;
    var s := Arc(v) + rest;
    ArcSizeIs(s, n);
    assert s[..n + 1] == Arc(v);
    ArcReads(v);
  }

  lemma ArcReads(v: nat)
    ensures FromSeptets(Arc(v)) == v
  {
    hide FromSeptets, Continued;
    var front := Continued(v / 128);
    ContinuedReads(v / 128);
    NextSeptet(Arc(v), |front|);
    assert Arc(v)[..|front|] == front && Arc(v)[..|front| + 1] == Arc(v);
  }

  // ----- writing an arc

  /** The bit position of the top septet: RoundUpToMultipleOf(max(7, BitPrecision(v)), 7) - 7. */
  function TopSeptet(v: nat): (r: nat)
    ensures r % 7 == 0
  {
    (if BitCount(v) <= 7 then 7 else (BitCount(v) + 6) / 7 * 7) - 7
  }

  lemma TopSeptetBounds(v: nat)
    ensures Shr(v, TopSeptet(v)) < 128
    ensures TopSeptet(v) > 0 ==> Shr(v, TopSeptet(v)) > 0
  {
    hide Shr, BitCount;
    var i := TopSeptet(v);
    ShiftedOut(v, i + 7);
    ShrSeven(v, i);
    if i > 0 {
      BitCountPositive(v);
      TopBit(v);
      ShrShr(v, i, BitCount(v) - 1 - i);
      if Shr(v, i) == 0 { ShrOfZero(BitCount(v) - 1 - i); }
    }
  }

  lemma BitCountPositive(v: nat)
    requires BitCount(v) > 0
    ensures v > 0
  {
  }

  lemma ShrSeven(v: nat, i: nat)
    ensures Shr(v, i + 7) == Shr(v, i) / 128
  {
    ShrShr(v, i, 7);
    ShrIsDiv(Shr(v, i), 7);
    assert Pow2(7) == 128;
  }

  /** OID::EncodeValue. */
  method EncodeValue(bt: ByteQueue, v: nat)
    modifies bt
    ensures bt.contents == old(bt.contents) + Arc(v)
  {
    hide Continued, Shr, TopSeptet;
    var i := TopSeptet(v);
    TopSeptetBounds(v);
    NothingContinued();
    ghost var whole := i;
    ShrSeven(v, i);
    while i != 0
      invariant i % 7 == 0 && i <= whole
      invariant i > 0 ==> Shr(v, i) > 0
      invariant bt.contents == old(bt.contents) + Continued(Shr(v, i + 7))
      decreases i
    {
      bt.Put(128 + Shr(v, i) % 128);
      ContinuedStep(Shr(v, i));
      ShrSeven(v, i);
      ShrSeven(v, i - 7);
      i := i - 7;
    }
    ShrSeven(v, 0);
    ShrByZero(v);
    bt.Put(v % 128);
  }

  lemma NothingContinued()
    ensures Continued(0) == []
  {
  }

  lemma ContinuedStep(v: nat)
    requires v > 0
    ensures Continued(v) == Continued(v / 128) + [128 + v % 128]
  {
  }

  // ----- reading an arc

  lemma NextSeptet(s: seq<byte>, n: nat)
    requires n < |s|
    ensures FromSeptets(s[..n + 1]) == 128 * FromSeptets(s[..n]) + s[n] % 128
  {
    assert s[..n + 1][..n] == s[..n];
  }

  lemma {:induction false} SeptetsGrow(s: seq<byte>, m: nat, n: nat)
    requires m <= n <= |s|
    ensures FromSeptets(s[..m]) <= FromSeptets(s[..n])
    decreases n
  {
    hide FromSeptets;
    if m < n {
      SeptetsGrow(s, m, n - 1);
      NextSeptet(s, n - 1);
    }
  }

  /** With the top seven bits in use there is no room for another septet. */
  lemma ArcTooLong(s: seq<byte>, n: nat)
    requires n < |s| && (forall i :: 0 <= i < n ==> s[i] >= 128) && FromSeptets(s[..n]) >= WORD32 / 128
    ensures ParseArc(s) == None
  {
    hide FromSeptets;
    var size := ArcSize(s);
    if size > 0 {
      assert size > n;
      NextSeptet(s, n);
      SeptetsGrow(s, n + 1, size);
    }
  }

  /** OID::DecodeValue. */
  method DecodeValue(bt: ByteQueue) returns (r: Option<(nat, nat)>)
    modifies bt
    ensures r == ParseArc(old(bt.contents))
    ensures r.Some? ==> 0 < r.value.1 <= |old(bt.contents)| && bt.contents == old(bt.contents)[r.value.1..]
  {
    hide FromSeptets;
    ghost var s := bt.contents;
    var v: nat, i: nat := 0, 0;
    NoSeptets();
    while true
      invariant i <= |s| && bt.contents == s[i..] && v == FromSeptets(s[..i]) < WORD32
      invariant forall j :: 0 <= j < i ==> s[j] >= 128
      decreases |s| - i
    {
      var ok, b := bt.Get();
      if !ok { return None; }
      i := i + 1;
      if v >= WORD32 / 128 {
        ArcTooLong(s, i - 1);
        return None;
      }
      NextSeptet(s, i - 1);
      v := v * 128 + b % 128;
      if b < 128 {
        ArcSizeIs(s, i - 1);
        return Some((v, i));
      }
    }
  }

  lemma NoSeptets()
    ensures FromSeptets([]) == 0
  {
  }

  // ----- whole identifiers

  function Arcs(values: seq<nat>): seq<byte> {
    if values == [] then [] else Arcs(values[..|values| - 1]) + Arc(values[|values| - 1])
  }

  /** The first two arcs share an octet, cut to eight bits. */
  function FirstOctet(values: seq<nat>): byte
    requires |values| >= 2
  {
    (values[0] * 40 + values[1]) % 256
  }

  function Content(values: seq<nat>): seq<byte>
    requires |values| >= 2
  {
    [FirstOctet(values)] + Arcs(values[2..])
  }

  function DerOid(values: seq<nat>): seq<byte>
    requires |values| >= 2
  {
    [OBJECT_IDENTIFIER] + DerLength(|Content(values)|) + Content(values)
  }

  /** Arcs that take up exactly the given number of octets. */
  function ParseArcs(s: seq<byte>, length: nat): Option<seq<nat>>
    decreases length
  {
    if length == 0 then Some([])
    else
      var first := ParseArc(s);
      if first.None? || first.value.1 > length then None
      else Prepend([first.value.0], ParseArcs(s[first.value.1..], length - first.value.1))
  }

  function Prepend(values: seq<nat>, tail: Option<seq<nat>>): Option<seq<nat>> {
    if tail.None? then None else Some(values + tail.value)
  }

  /** The arcs in content octets of the given length. */
  function ParseContent(s: seq<byte>, length: nat): Option<seq<nat>> {
    if length < 1 || s == [] then None else Prepend([s[0] / 40, s[0] % 40], ParseArcs(s[1..], length - 1))
  }

  /** The identifier at the front of a string, and its size. */
  function ParseOid(s: seq<byte>): Option<(seq<nat>, nat)> {
    if s == [] || s[0] != OBJECT_IDENTIFIER || !ParseLength(s[1..]).Definite? || 1 + ParseLength(s[1..]).size > |s| then None
    else
      var start := 1 + ParseLength(s[1..]).size;
      var arcs := ParseContent(s[start..], ParseLength(s[1..]).length);
      if arcs.None? then None else Some((arcs.value, start + ParseLength(s[1..]).length))
  }

  lemma {:induction false} ArcsFront(values: seq<nat>)
    requires values != []
    ensures Arcs(values) == Arc(values[0]) + Arcs(values[1..])
  {
    hide Arc;
    if |values| == 1 {
      NoArcs(values[0]);
      assert values == [values[0]];
    } else {
      var front := values[..|values| - 1];
      ArcsFront(front);
      assert front[1..] == values[1..][..|values[1..]| - 1];
    }
  }

  lemma NoArcs(v: nat)
    ensures Arcs([]) == [] && Arcs([v]) == Arc(v)
  {
    assert [v][..0] == [];
  }

  predicate AreWords(values: seq<nat>) {
    forall i :: 0 <= i < |values| ==> values[i] < WORD32
  }

  lemma {:induction false} ParseEncodedArcs(values: seq<nat>, rest: seq<byte>)
    requires AreWords(values)
    ensures ParseArcs(Arcs(values) + rest, |Arcs(values)|) == Some(values)
    decreases |values|
  {
    hide Arc, Arcs, ParseArc, ParseArcs;
    if values == [] {
      NoArcs(0);
      NothingToParse(Arcs(values) + rest);
    } else {
      var tail := values[1..];
      var s := Arcs(values) + rest;
      ArcsFront(values);
      ArcNotEmpty(values[0]);
      ParseEncodedArc(values[0], Arcs(tail) + rest);
      assert s == Arc(values[0]) + (Arcs(tail) + rest) && s[|Arc(values[0])|..] == Arcs(tail) + rest;
      ArcsStep(s, |Arcs(values)|, ParseArc(s));
      ParseEncodedArcs(tail, rest);
      assert [values[0]] + tail == values;
    }
  }

  lemma NothingToParse(s: seq<byte>)
    ensures ParseArcs(s, 0) == Some([])
  {
  }

  lemma ArcNotEmpty(v: nat)
    ensures |Arc(v)| > 0
  {
  }

  /** What decoding makes of an encoding: all of it is used, and the arcs after the second come back. */
  lemma ParseDerOid(values: seq<nat>, rest: seq<byte>)
    requires |values| >= 2 && AreWords(values) && |Content(values)| < LWORD
    ensures var b := FirstOctet(values);
      ParseOid(DerOid(values) + rest) == Some(([b / 40, b % 40] + values[2..], |DerOid(values)|))
  {
    hide Arcs, ParseArcs, DerLength, ParseLength, FirstOctet;
    var c := Content(values);
    var s := DerOid(values) + rest;
    ParseDerLength(|c|, c + rest);
    assert s[1..] == DerLength(|c|) + (c + rest);
    var start := 1 + |DerLength(|c|)|;
    assert s[start..] == c + rest && s[start] == FirstOctet(values);
    assert s[start + 1..] == Arcs(values[2..]) + rest;
    ParseEncodedArcs(values[2..], rest);
    assert s[start..][1..] == Arcs(values[2..]) + rest;
  }

  lemma SharedIsFirst(values: seq<nat>)
    requires |values| >= 2
    ensures FirstOctet(values) == (values[0] * 40 + values[1]) % 256
  {
  }

  /** What the shared octet gives back. */
  lemma SharedOctet(first: nat, second: nat)
    ensures var b := (first * 40 + second) % 256;
      b / 40 == first && b % 40 == second <==> second < 40 && 40 * first + second <= 255
  {
    var b := (first * 40 + second) % 256;
    if second < 40 && 40 * first + second <= 255 { DivModUnique(b, 40, first, second); }
  }

  /** The identifiers that survive: second arc below 40, first octet not cut. */
  lemma OidRoundTrip(values: seq<nat>, rest: seq<byte>)
    requires |values| >= 2 && AreWords(values) && |Content(values)| < LWORD
    ensures ParseOid(DerOid(values) + rest).Some? && ParseOid(DerOid(values) + rest).value.1 == |DerOid(values)|
    ensures ParseOid(DerOid(values) + rest).value.0 == values <==> values[1] < 40 && 40 * values[0] + values[1] <= 255
  {
    hide DerOid, ParseOid, Content, FirstOctet;
    ParseDerOid(values, rest);
    var b := FirstOctet(values);
    SharedOctet(values[0], values[1]);
    SharedIsFirst(values);
    var back := [b / 40, b % 40] + values[2..];
    assert back[0] == b / 40 && back[1] == b % 40;
    assert values == [values[0], values[1]] + values[2..];
  }

  /** What an accepted string is: identifier octet 6, a definite length of at least one, a first octet that
      is 40 times the first arc plus the second, which is below 40, and arcs of at most 32 bits. */
  lemma ParsedOid(s: seq<byte>)
    requires ParseOid(s).Some?
    ensures var values, size := ParseOid(s).value.0, ParseOid(s).value.1; var field := ParseLength(s[1..]);
      && s != [] && s[0] == 0x06 && field.Definite? && field.length >= 1 && size == 1 + field.size + field.length <= |s|
      && |values| >= 2 && values[1] < 40 && s[1 + field.size] == 40 * values[0] + values[1]
      && forall i :: 0 <= i < |values| ==> values[i] < 0x1_0000_0000
  {
    hide ParseLength, ParseArcs;
    var field := ParseLength(s[1..]);
    var start := 1 + field.size;
    var arcs := ParseArcs(s[start..][1..], field.length - 1);
    ParsedArcs(s[start..][1..], field.length - 1);
    assert ParseOid(s).value.0 == [s[start] / 40, s[start] % 40] + arcs.value;
  }

  lemma {:induction false} ParsedArcs(s: seq<byte>, length: nat)
    requires ParseArcs(s, length).Some?
    ensures length <= |s| && AreWords(ParseArcs(s, length).value)
    decreases length
  {
    hide ParseArc, FromSeptets;
    if length > 0 {
      ParsedArc(s);
      ParsedArcs(s[ParseArc(s).value.1..], length - ParseArc(s).value.1);
    }
  }

  lemma ParsedArc(s: seq<byte>)
    requires ParseArc(s).Some?
    ensures ParseArc(s).value.0 < WORD32 && 0 < ParseArc(s).value.1 <= |s|
  {
    hide FromSeptets;
  }

  /** RSA Data Security's arc. */
  lemma KnownOid()
    ensures DerOid([1, 2, 840, 113549]) == [0x06, 0x06, 0x2a, 0x86, 0x48, 0x86, 0xf7, 0x0d]
  {
    KnownArcs();
    ArcsOfTwo(840, 113549);
    hide Arc, Arcs;
    var values: seq<nat> := [1, 2, 840, 113549];
    assert values[2..] == [840, 113549];
    assert Content(values) == [0x2a, 0x86, 0x48, 0x86, 0xf7, 0x0d];
    assert DerLength(6) == [6];
  }

  /** The two arcs at the border of 32 bits. */
  lemma LargestArc()
    ensures ParseArc([0x8f, 0xff, 0xff, 0xff, 0x7f]) == Some((0xffff_ffff, 5))
    ensures ParseArc([0x90, 0x80, 0x80, 0x80, 0x00]) == None
  {
    hide FromSeptets, ArcSize;
    var last, beyond: seq<byte> := [0x8f, 0xff, 0xff, 0xff, 0x7f], [0x90, 0x80, 0x80, 0x80, 0x00];
    ArcSizeIs(last, 4);
    ArcSizeIs(beyond, 4);
    FiveSeptets(0x8f, 0xff, 0xff, 0xff, 0x7f);
    FiveSeptets(0x90, 0x80, 0x80, 0x80, 0x00);
    assert last[..5] == last && beyond[..5] == beyond;
  }

  lemma KnownArcs()
    ensures Arc(840) == [0x86, 0x48] && Arc(113549) == [0x86, 0xf7, 0x0d]
  {
    assert Continued(6) == [0x86] by { assert Continued(0) == []; }
    assert Continued(887) == [0x86, 0xf7];
  }

  lemma ArcsOfTwo(a: nat, b: nat)
    ensures Arcs([a, b]) == Arc(a) + Arc(b)
  {
    hide Arc;
    NoArcs(a);
    assert [a, b][..1] == [a];
  }

  lemma FiveSeptets(a: byte, b: byte, c: byte, d: byte, e: byte)
    ensures FromSeptets([a, b, c, d, e]) == 128 * (128 * (128 * (128 * (a % 128) + b % 128) + c % 128) + d % 128) + e % 128
  {
    var s := [a, b, c, d, e];
    NoSeptets();
    NextSeptet(s, 0);
    NextSeptet(s, 1);
    NextSeptet(s, 2);
    NextSeptet(s, 3);
    NextSeptet(s, 4);
    hide FromSeptets;
    assert s[..0] == [] && s[..5] == s;
  }

  class OID {
    var m_values: seq<nat>

    constructor (values: seq<nat>)
      ensures m_values == values
    {
      m_values := values;
    }

    /** OID::DEREncode, whose assertion asks for two arcs. */
    method DEREncode(bt: ByteQueue)
      requires |m_values| >= 2 && |Content(m_values)| < LWORD
      modifies bt
      ensures bt.contents == old(bt.contents) + DerOid(m_values)
    {
      hide Arc, Arcs, DerLength;
      var temp := new ByteQueue();
      temp.Put((m_values[0] * 40 + m_values[1]) % 256);
      NoArcs(0);
      assert m_values[2..2] == [];
      for i := 2 to |m_values|
        invariant fresh(temp) && temp.contents == [FirstOctet(m_values)] + Arcs(m_values[2..i]) && bt.contents == old(bt.contents)
      {
        ArcsNext(m_values, i);
        EncodeValue(temp, m_values[i]);
      }
      assert m_values[2..|m_values|] == m_values[2..];
      bt.Put(OBJECT_IDENTIFIER);
      var _ := DERLengthEncode(bt, |temp.contents|);
      bt.PutBytes(temp.contents);
    }

    /** OID::BERDecode. */
    method BERDecode(bt: ByteQueue) returns (ok: bool)
      modifies this, bt
      ensures var parsed := ParseOid(old(bt.contents));
        && ok == parsed.Some?
        && (ok ==> m_values == parsed.value.0 && parsed.value.1 <= |old(bt.contents)| && bt.contents == old(bt.contents)[parsed.value.1..])
    {
      hide ParseContent, ParseLength;
      ghost var s := bt.contents;
      var got, b := bt.Get();
      if !got || b != OBJECT_IDENTIFIER { return false; }
      assert s[1..] == bt.contents;
      var field := BERLengthDecode(bt);
      if !field.Definite? { return false; }
      ghost var start := 1 + field.size;
      assert bt.contents == s[start..];
      ok := DecodeContent(bt, field.length);
      if ok { assert s[start..][field.length..] == s[start + field.length..]; }
    }

    /** What follows the length octets. */
    method DecodeContent(bt: ByteQueue, length: nat) returns (ok: bool)
      modifies this, bt
      ensures var parsed := ParseContent(old(bt.contents), length);
        && ok == parsed.Some?
        && (ok ==> m_values == parsed.value && length <= |old(bt.contents)| && bt.contents == old(bt.contents)[length..])
    {
      hide ParseArcs;
      ghost var s := bt.contents;
      if length < 1 { return false; }
      var got, b := bt.Get();
      if !got { return false; }
      assert bt.contents == s[1..] && b == s[0];
      m_values := [b / 40, b % 40];
      ok := DecodeArcs(bt, length - 1);
    }

    /** The loop over the remaining arcs. */
    method DecodeArcs(bt: ByteQueue, length0: nat) returns (ok: bool)
      modifies this, bt
      ensures var parsed := ParseArcs(old(bt.contents), length0);
        && ok == parsed.Some?
        && (ok ==> m_values == old(m_values) + parsed.value && length0 <= |old(bt.contents)| && bt.contents == old(bt.contents)[length0..])
    {
      hide ParseArc;
      ghost var s, arcs: seq<nat> := bt.contents, [];
      var length: nat := length0;
      PrependTwice([], [], ParseArcs(s, length));
      while length > 0
        invariant length <= length0 && length0 - length <= |s| && bt.contents == s[length0 - length..]
        invariant m_values == old(m_values) + arcs
        invariant ParseArcs(s, length0) == Prepend(arcs, ParseArcs(bt.contents, length))
      {
        var r := DecodeValue(bt);
        ArcsStep(s[length0 - length..], length, r);
        if r.None? || r.value.1 > length { return false; }
        PrependTwice(arcs, [r.value.0], ParseArcs(bt.contents, length - r.value.1));
        m_values := m_values + [r.value.0];
        arcs := arcs + [r.value.0];
        length := length - r.value.1;
      }
      ok := true;
    }
  }

  lemma PrependTwice(a: seq<nat>, b: seq<nat>, tail: Option<seq<nat>>)
    ensures Prepend(a, Prepend(b, tail)) == Prepend(a + b, tail)
    ensures Prepend([], tail) == tail
  {
    if tail.Some? { assert [] + tail.value == tail.value && a + (b + tail.value) == a + b + tail.value; }
  }

  lemma ArcsStep(s: seq<byte>, length: nat, first: Option<(nat, nat)>)
    requires length > 0 && first == ParseArc(s)
    ensures ParseArcs(s, length) ==
      if first.None? || first.value.1 > length then None
      else Prepend([first.value.0], ParseArcs(s[first.value.1..], length - first.value.1))
  {
  }

  lemma ArcsNext(values: seq<nat>, i: nat)
    requires 2 <= i < |values|
    ensures Arcs(values[2..i + 1]) == Arcs(values[2..i]) + Arc(values[i])
  {
    assert values[2..i + 1][..i - 2] == values[2..i];
  }
}
