/** DERReencode and the general decoder and encoder (asn.cpp): indefinite lengths into definite ones. */
module AsnReencode {
  import opened Powers
  import opened Bytes
  import opened AsnLength
  import opened Options

  /** A BER element as DERReencode takes it apart: content of definite length is left as it is, behind
      whatever length octets it came with; content of indefinite length is a list of elements. */
  datatype Tree = Leaf(tag: byte, field: seq<byte>, content: seq<byte>) | Node(tag: byte, children: seq<Tree>)

  /** The CONSTRUCTED flag. */
  predicate IsConstructed(tag: byte) {
    tag / 32 % 2 == 1
  }

  /** Length octets that are a definite length and nothing more. */
  predicate Denotes(field: seq<byte>, length: nat) {
    ParseLength(field) == Definite(length, |field|)
  }

  /** An element that reads as end-of-content octets. */
  predicate LooksLikeEnd(t: Tree) {
    t.Leaf? && t.tag == 0 && t.field == [0]
  }

  /** Section 8.1.3 of X.690: the length octets fit, indefinite lengths are for constructed elements,
      and no element inside reads as the end. */
  predicate WellFormed(t: Tree) {
    match t
    case Leaf(tag, field, content) => Denotes(field, |content|)
    case Node(tag, children) => IsConstructed(tag) && forall c :: c in children ==> WellFormed(c) && !LooksLikeEnd(c)
  }

  /** The encoding an element came in. */
  function Ber(t: Tree): seq<byte> {
    match t
    case Leaf(tag, field, content) => [tag] + field + content
    case Node(tag, children) => [tag, 128] + BerAll(children) + [0, 0]
  }

  function BerAll(ts: seq<Tree>): seq<byte> {
    if ts == [] then [] else Ber(ts[0]) + BerAll(ts[1..])
  }

  /** Tag, distinguished length octets and content; CurrentSize() is an lword. */
  function Framed(tag: byte, body: seq<byte>): seq<byte> {
    [tag] + DerLength(|body| % LWORD) + body
  }

  /** The same tags, leaves and order under the distinguished length octets. */
  function Der(t: Tree): seq<byte> {
    match t
    case Leaf(tag, field, content) => Framed(tag, content)
    case Node(tag, children) => Framed(tag, DerAll(children))
  }

  function DerAll(ts: seq<Tree>): seq<byte> {
    if ts == [] then [] else Der(ts[0]) + DerAll(ts[1..])
  }

  // ----- taking an encoding apart

  /** The element at the front of a string, and its size. */
  function ParseTree(s: seq<byte>): (r: Option<(Tree, nat)>)
    ensures r.Some? ==> 2 <= r.value.1 <= |s|
    decreases |s|, 0
  {
    if s == [] then None
    else
      match ParseLength(s[1..])
      case Definite(length, size) =>
        FieldInside(s[1..]);
        if 1 + size + length > |s| then None
        else Some((Leaf(s[0], s[1..1 + size], s[1 + size..1 + size + length]), 1 + size + length))
      case Indefinite =>
        if !IsConstructed(s[0]) then None
        else
          var inside := ParseChildren(s[2..]);
          if inside.None? then None else Some((Node(s[0], inside.value.0), 2 + inside.value.1))
      case _ => None
  }

  /** Elements up to the end-of-content octets, and the size of all. */
  function ParseChildren(s: seq<byte>): (r: Option<(seq<Tree>, nat)>)
    ensures r.Some? ==> 2 <= r.value.1 <= |s|
    decreases |s|, 1
  {
    if |s| >= 2 && s[0] == 0 && s[1] == 0 then Some(([], 2))
    else
      var first := ParseTree(s);
      if first.None? then None
      else Prepend([first.value.0], first.value.1, ParseChildren(s[first.value.1..]))
  }

  function Prepend(ts: seq<Tree>, size: nat, tail: Option<(seq<Tree>, nat)>): (r: Option<(seq<Tree>, nat)>) {
    if tail.None? then None else Some((ts + tail.value.0, size + tail.value.1))
  }

  lemma FieldInside(s: seq<byte>)
    ensures ParseLength(s).Definite? ==> 0 < ParseLength(s).size <= |s|
  {
    hide FromBigEndian;
  }

  /** Length octets read the same whatever follows. */
  lemma LengthPrefix(field: seq<byte>, length: nat, rest: seq<byte>)
    requires Denotes(field, length)
    ensures ParseLength(field + rest) == Definite(length, |field|)
  {
    hide FromBigEndian;
    if field[0] > 128 { assert (field + rest)[1..field[0] - 127] == field[1..field[0] - 127]; }
  }

  lemma LengthExact(s: seq<byte>)
    requires ParseLength(s).Definite?
    ensures 0 < ParseLength(s).size <= |s| && Denotes(s[..ParseLength(s).size], ParseLength(s).length)
  {
    hide FromBigEndian;
    if s[0] > 128 {
      var size := ParseLength(s).size;
      assert s[..size][1..s[0] - 127] == s[1..s[0] - 127];
    }
  }

  /** Length octets are never a lone zero unless they denote it. */
  lemma ZeroField(field: seq<byte>, length: nat)
    requires Denotes(field, length)
    ensures field != [] && (field[0] == 0 ==> field == [0] && length == 0)
  {
    hide FromBigEndian;
  }

  lemma LeafParses(t: Tree, rest: seq<byte>)
    requires t.Leaf? && WellFormed(t)
    ensures ParseTree(Ber(t) + rest) == Some((t, |Ber(t)|))
  {
    hide ParseLength, ParseChildren, BerAll;
    var s := Ber(t) + rest;
    LengthPrefix(t.field, |t.content|, t.content + rest);
    assert s[1..] == t.field + (t.content + rest);
    assert s[1..1 + |t.field|] == t.field && s[1 + |t.field|..1 + |t.field| + |t.content|] == t.content;
  }

  lemma NodeParses(t: Tree, rest: seq<byte>)
    requires t.Node? && WellFormed(t)
    requires ParseChildren(BerAll(t.children) + [0, 0] + rest) == Some((t.children, |BerAll(t.children)| + 2))
    ensures ParseTree(Ber(t) + rest) == Some((t, |Ber(t)|))
  {
    hide ParseChildren, BerAll;
    var s := Ber(t) + rest;
    assert s[2..] == BerAll(t.children) + [0, 0] + rest;
    assert s[1..][0] == 128;
  }

  lemma ChildBegins(t: Tree)
    requires WellFormed(t) && !LooksLikeEnd(t)
    ensures |Ber(t)| >= 2 && !(Ber(t)[0] == 0 && Ber(t)[1] == 0)
  {
    hide BerAll, ParseLength;
    if t.Leaf? { ZeroField(t.field, |t.content|); }
  }

  /** The parse of an encoding is the element it encodes. */
  lemma {:induction false} BerParses(t: Tree, rest: seq<byte>)
    requires WellFormed(t)
    ensures ParseTree(Ber(t) + rest) == Some((t, |Ber(t)|))
    decreases t
  {
    if t.Leaf? {
      LeafParses(t, rest);
    } else {
      ChildrenParse(t.children, rest);
      NodeParses(t, rest);
    }
  }

  lemma {:induction false} ChildrenParse(ts: seq<Tree>, rest: seq<byte>)
    requires forall c :: c in ts ==> WellFormed(c) && !LooksLikeEnd(c)
    ensures ParseChildren(BerAll(ts) + [0, 0] + rest) == Some((ts, |BerAll(ts)| + 2))
    decreases ts
  {
    hide ParseTree, WellFormed, LooksLikeEnd, Ber;
    if ts == [] {
      assert BerAll(ts) + [0, 0] + rest == [0, 0] + rest;
    } else {
      var tail := BerAll(ts[1..]) + [0, 0] + rest;
      var s := BerAll(ts) + [0, 0] + rest;
      assert s == Ber(ts[0]) + tail;
      assert s[|Ber(ts[0])|..] == tail;
      ChildBegins(ts[0]);
      BerParses(ts[0], tail);
      ChildrenParse(ts[1..], rest);
      assert [ts[0]] + ts[1..] == ts;
    }
  }

  /** What has been parsed is a well-formed encoding. */
  lemma {:induction false} ParsedIsBer(s: seq<byte>)
    requires ParseTree(s).Some?
    ensures WellFormed(ParseTree(s).value.0) && s[..ParseTree(s).value.1] == Ber(ParseTree(s).value.0)
    decreases |s|, 0
  {
    hide ParseChildren, BerAll, FromBigEndian;
    FieldInside(s[1..]);
    if ParseLength(s[1..]).Definite? {
      LengthExact(s[1..]);
      var size := ParseLength(s[1..]).size;
      assert s[1..1 + size] == s[1..][..size];
    } else {
      ParsedAreBer(s[2..]);
      assert s[..2] == [s[0], 128];
      var n := ParseTree(s).value.1;
      assert s[..n] == s[..2] + s[2..][..n - 2];
    }
  }

  lemma {:induction false} ParsedAreBer(s: seq<byte>)
    requires ParseChildren(s).Some?
    ensures var ts, n := ParseChildren(s).value.0, ParseChildren(s).value.1;
      && (forall c :: c in ts ==> WellFormed(c) && !LooksLikeEnd(c))
      && s[..n] == BerAll(ts) + [0, 0]
    decreases |s|, 1
  {
    hide ParseTree, WellFormed, LooksLikeEnd, Ber;
    if |s| >= 2 && s[0] == 0 && s[1] == 0 {
      assert s[..2] == [] + [0, 0];
    } else {
      var first := ParseTree(s).value;
      ParsedIsBer(s);
      ParsedNotEnd(s);
      var rest := s[first.1..];
      ParsedAreBer(rest);
      var tail := ParseChildren(rest).value;
      assert ([first.0] + tail.0)[1..] == tail.0;
      assert s[..first.1 + tail.1] == s[..first.1] + rest[..tail.1];
    }
  }

  lemma ParsedNotEnd(s: seq<byte>)
    requires ParseTree(s).Some? && !(|s| >= 2 && s[0] == 0 && s[1] == 0)
    ensures !LooksLikeEnd(ParseTree(s).value.0)
  {
    hide ParseLength, ParseChildren;
    FieldInside(s[1..]);
  }

  // ----- sizes

  /** The result is at most two and a half times as long. */
  lemma {:induction false} DerSize(t: Tree)
    requires WellFormed(t)
    ensures 2 * |Der(t)| <= 5 * |Ber(t)|
    decreases t
  {
    hide ParseLength, DerLength;
    if t.Leaf? {
      DerLengthShortest(|t.content|, t.field);
    } else {
      DerAllSize(t.children);
      DerLengthBound(|DerAll(t.children)| % LWORD);
    }
  }

  lemma {:induction false} DerAllSize(ts: seq<Tree>)
    requires forall c :: c in ts ==> WellFormed(c)
    ensures 2 * |DerAll(ts)| <= 5 * |BerAll(ts)|
    decreases ts
  {
    hide WellFormed, Ber, Der;
    if ts != [] {
      DerSize(ts[0]);
      DerAllSize(ts[1..]);
    }
  }

  /** No length in the result is cut to 64 bits. */
  predicate LengthsFit(t: Tree) {
    match t
    case Leaf(tag, field, content) => |content| < LWORD
    case Node(tag, children) => |DerAll(children)| < LWORD && forall c :: c in children ==> LengthsFit(c)
  }

  /** A source of less than 2^62 bytes cannot reach that limit. */
  lemma {:induction false} LengthsFitInMemory(t: Tree)
    requires WellFormed(t) && |Ber(t)| < LWORD / 4
    ensures LengthsFit(t)
    decreases t
  {
    hide ParseLength, DerAll, BerAll;
    if t.Node? {
      DerAllSize(t.children);
      forall c | c in t.children
        ensures LengthsFit(c)
      {
        ChildShorter(t.children, c);
        LengthsFitInMemory(c);
      }
    }
  }

  lemma {:induction false} ChildShorter(ts: seq<Tree>, c: Tree)
    requires c in ts
    ensures |Ber(c)| <= |BerAll(ts)|
    decreases ts
  {
    hide Ber;
    if c != ts[0] { ChildShorter(ts[1..], c); }
  }

  lemma DerLengthBound(n: nat)
    requires n < LWORD
    ensures 1 <= |DerLength(n)| <= 9
  {
    PrecisionOfWord(n);
  }

  // ----- doing it again

  /** Re-encoding what has been re-encoded changes nothing. */
  lemma ReencodedStays(t: Tree, rest: seq<byte>)
    requires |Der(t)| < LWORD
    ensures ParseTree(Der(t) + rest).Some? && ParseTree(Der(t) + rest).value.1 == |Der(t)|
    ensures Der(ParseTree(Der(t) + rest).value.0) == Der(t)
  {
    hide ParseTree, DerLength, DerAll;
    ResultParses(t, rest);
  }

  // ----- nothing is lost

  /** The same nesting. */
  predicate SameShape(t: Tree, u: Tree) {
    match (t, u)
    case (Leaf(_, _, _), Leaf(_, _, _)) => true
    case (Node(_, ts), Node(_, us)) => |ts| == |us| && forall i :: 0 <= i < |ts| ==> SameShape(ts[i], us[i])
    case _ => false
  }

  /** The same tags, leaves and order; only the length octets of the leaves may differ. */
  predicate SameElement(t: Tree, u: Tree) {
    match (t, u)
    case (Leaf(tag, _, content), Leaf(tag', _, content')) => tag == tag' && content == content'
    case (Node(tag, ts), Node(tag', us)) => tag == tag' && |ts| == |us| && forall i :: 0 <= i < |ts| ==> SameElement(ts[i], us[i])
    case _ => false
  }

  /** A tag, length octets and content can be told apart. */
  lemma FrameDetermines(tag: byte, body: seq<byte>, tag': byte, body': seq<byte>, rest: seq<byte>, rest': seq<byte>)
    requires |body| < LWORD && |body'| < LWORD
    requires Framed(tag, body) + rest == Framed(tag', body') + rest'
    ensures tag == tag' && body == body' && rest == rest'
  {
    hide DerLength, ParseLength;
    var s := [tag] + DerLength(|body|) + body + rest;
    assert s[0] == tag && s[0] == tag';
    ParseDerLength(|body|, body + rest);
    ParseDerLength(|body'|, body' + rest');
    assert s[1..] == DerLength(|body|) + (body + rest);
    assert s[1..] == DerLength(|body'|) + (body' + rest');
    assert s[1 + |DerLength(|body|)|..] == body + rest;
    assert s[1 + |DerLength(|body|)|..] == body' + rest';
    assert (body + rest)[..|body|] == body && (body + rest)[|body|..] == rest;
    assert (body' + rest')[..|body'|] == body' && (body' + rest')[|body'|..] == rest';
  }

  /** Elements of the same nesting with the same result are the same element. */
  lemma {:induction false} DerDetermines(t: Tree, u: Tree, rest: seq<byte>, rest': seq<byte>)
    requires SameShape(t, u) && |Der(t)| < LWORD && |Der(u)| < LWORD && Der(t) + rest == Der(u) + rest'
    ensures SameElement(t, u) && rest == rest'
    decreases t
  {
    hide DerLength, DerAll;
    if t.Leaf? {
      FrameDetermines(t.tag, t.content, u.tag, u.content, rest, rest');
    } else {
      FrameDetermines(t.tag, DerAll(t.children), u.tag, DerAll(u.children), rest, rest');
      DerAllDetermines(t.children, u.children, [], []);
    }
  }

  lemma {:induction false} DerAllDetermines(ts: seq<Tree>, us: seq<Tree>, rest: seq<byte>, rest': seq<byte>)
    requires |ts| == |us| && (forall i :: 0 <= i < |ts| ==> SameShape(ts[i], us[i]))
    requires |DerAll(ts)| < LWORD && |DerAll(us)| < LWORD && DerAll(ts) + rest == DerAll(us) + rest'
    ensures (forall i :: 0 <= i < |ts| ==> SameElement(ts[i], us[i])) && rest == rest'
    decreases ts
  {
    hide Der, SameShape, SameElement;
    if ts == [] {
      assert rest == [] + rest == [] + rest' == rest';
    } else {
      assert DerAll(ts) + rest == Der(ts[0]) + (DerAll(ts[1..]) + rest);
      assert DerAll(us) + rest' == Der(us[0]) + (DerAll(us[1..]) + rest');
      DerDetermines(ts[0], us[0], DerAll(ts[1..]) + rest, DerAll(us[1..]) + rest');
      DerAllDetermines(ts[1..], us[1..], rest, rest');
    }
  }

  // ----- the result taken apart again

  /** The constructed bit, bit 6 of the identifier octet (section 8.1.2.5 of X.690). */
  lemma ConstructedBit(tag: byte)
    ensures IsConstructed(tag) <==> exists high: nat :: 64 * high + 32 <= tag < 64 * high + 64
  {
    if IsConstructed(tag) {
      assert 64 * (tag / 64) + 32 <= tag < 64 * (tag / 64) + 64;
    }
  }

  /** Identifier octet, 128, the elements and two zero octets (sections 8.1.3.6 and 8.1.5 of X.690). */
  lemma IndefiniteForm(t: Tree)
    requires t.Node?
    ensures var s := Ber(t);
      |s| >= 4 && s[0] == t.tag && s[1] == 0x80 && s[|s| - 2..] == [0, 0] && s[2..|s| - 2] == BerAll(t.children)
  {
    hide BerAll;
  }

  /** A result is one element of definite length: the source's tag, the shortest length, the content. */
  lemma ResultParses(t: Tree, rest: seq<byte>)
    requires |Der(t)| < LWORD
    ensures var body := if t.Leaf? then t.content else DerAll(t.children);
      ParseTree(Der(t) + rest) == Some((Leaf(t.tag, DerLength(|body|), body), |Der(t)|))
  {
    hide ParseLength, DerLength, DerAll;
    var body := if t.Leaf? then t.content else DerAll(t.children);
    var field := DerLength(|body|);
    assert Der(t) == Framed(t.tag, body) == [t.tag] + field + body;
    ParseDerLength(|body|, []);
    assert field + [] == field;
    LeafParses(Leaf(t.tag, field, body), rest);
  }

  /** Reading a string of elements of definite length whose nesting is known: the content of each node is
      read as its children, which must use it up. */
  function TakeApart(shape: Tree, s: seq<byte>): (r: Option<(Tree, nat)>)
    ensures r.Some? ==> r.value.1 <= |s|
    decreases shape
  {
    var whole := ParseTree(s);
    if whole.None? || whole.value.0.Node? then None
    else
      match shape
      case Leaf(_, _, _) => whole
      case Node(_, shapes) =>
        var inside := TakeAllApart(shapes, whole.value.0.content);
        if inside.None? then None else Some((Node(whole.value.0.tag, inside.value), whole.value.1))
  }

  function TakeAllApart(shapes: seq<Tree>, s: seq<byte>): Option<seq<Tree>>
    decreases shapes
  {
    if shapes == [] then if s == [] then Some([]) else None
    else
      var first := TakeApart(shapes[0], s);
      if first.None? then None
      else
        var others := TakeAllApart(shapes[1..], s[first.value.1..]);
        if others.None? then None else Some([first.value.0] + others.value)
  }

  /** Taking the result apart gives the source's tags, leaves and order, and uses up all of it. */
  lemma {:induction false} ResultTakesApart(t: Tree, rest: seq<byte>)
    requires |Der(t)| < LWORD
    ensures var r := TakeApart(t, Der(t) + rest); r.Some? && r.value.1 == |Der(t)| && SameElement(t, r.value.0)
    decreases t
  {
    hide ParseTree, DerLength, DerAll;
    ResultParses(t, rest);
    if t.Node? { AllTakeApart(t.children); }
  }

  lemma {:induction false} AllTakeApart(ts: seq<Tree>)
    requires |DerAll(ts)| < LWORD
    ensures var r := TakeAllApart(ts, DerAll(ts));
      r.Some? && |r.value| == |ts| && forall i :: 0 <= i < |ts| ==> SameElement(ts[i], r.value[i])
    decreases ts
  {
    hide Der, TakeApart, SameElement;
    if ts != [] {
      var tail := DerAll(ts[1..]);
      ResultTakesApart(ts[0], tail);
      AllTakeApart(ts[1..]);
      assert (Der(ts[0]) + tail)[|Der(ts[0])|..] == tail;
    }
  }

  /** A sequence of the number 5, before and after. */
  lemma SmallExample()
    ensures var t := Node(0x30, [Leaf(2, [1], [5])]);
      Ber(t) == [0x30, 0x80, 2, 1, 5, 0, 0] && Der(t) == [0x30, 3, 2, 1, 5]
  {
    var leaf := Leaf(2, [1], [5]);
    assert DerLength(1) == [1] && DerLength(3) == [3];
    assert Ber(leaf) == [2, 1, 5] && Der(leaf) == [2, 1, 5];
    AllOfOne(leaf);
    hide BerAll, DerAll, DerLength;
  }

  lemma AllOfOne(t: Tree)
    ensures BerAll([t]) == Ber(t) && DerAll([t]) == Der(t)
  {
    hide Ber, Der;
    assert [t][1..] == [];
    assert Ber(t) + [] == Ber(t) && Der(t) + [] == Der(t);
  }

  // ----- the program

  /** BERGeneralDecoder: the tag and length octets off a queue, then the content. */
  class BERGeneralDecoder {
    const m_inQueue: ByteQueue
    var m_finished: bool
    var m_definiteLength: bool
    var m_length: nat

    constructor (inQueue: ByteQueue)
      ensures m_inQueue == inQueue && !m_finished
    {
      m_inQueue := inQueue;
      m_finished, m_definiteLength, m_length := false, false, 0;
    }

    /** Init. */
    method Init(asnTag: byte) returns (ok: bool)
      modifies this, m_inQueue
      ensures var s := old(m_inQueue.contents);
        if s == [] || s[0] != asnTag then !ok
        else match ParseLength(s[1..])
          case Definite(length, size) => ok && m_definiteLength && m_length == length && 1 + size <= |s| && m_inQueue.contents == s[1 + size..]
          case Indefinite => ok == IsConstructed(asnTag) && (ok ==> !m_definiteLength && s[1..] == [128] + m_inQueue.contents)
          case _ => !ok
    {
      hide FromBigEndian, ParseLength;
      ghost var s := m_inQueue.contents;
      var got, b := m_inQueue.Get();
      if !got || b != asnTag { return false; }
      assert s[1..] == m_inQueue.contents;
      var field := BERLengthDecode(m_inQueue);
      if field.Definite? {
        m_definiteLength, m_length := true, field.length;
      } else if field.Indefinite? {
        m_definiteLength := false;
        if !IsConstructed(asnTag) { return false; }
      } else {
        return false;
      }
      ok := true;
    }

    /** EndReached. */
    method EndReached() returns (r: bool)
      ensures r == if m_definiteLength then m_length == 0
                   else |m_inQueue.contents| >= 2 && m_inQueue.contents[0] == 0 && m_inQueue.contents[1] == 0
    {
      if m_definiteLength { return m_length == 0; }
      var word := m_inQueue.contents;
      r := |word| >= 2 && word[..2] == [0, 0];
    }

    /** TransferTo, of as much of the definite length as the queue has. */
    method TransferTo(target: ByteQueue)
      requires m_definiteLength && target != m_inQueue
      modifies this`m_length, m_inQueue, target
      ensures var n := if old(m_length) <= |old(m_inQueue.contents)| then old(m_length) else |old(m_inQueue.contents)|;
        && target.contents == old(target.contents) + old(m_inQueue.contents)[..n]
        && m_inQueue.contents == old(m_inQueue.contents)[n..] && m_length == old(m_length) - n
    {
      var s := m_inQueue.GetBytes(m_length);
      target.PutBytes(s);
      m_length := m_length - |s|;
    }

    /** MessageEnd. */
    method MessageEnd() returns (ok: bool)
      modifies this`m_finished, m_inQueue
      ensures if m_definiteLength then ok == (m_length == 0) && m_inQueue.contents == old(m_inQueue.contents)
        else ok <==> |old(m_inQueue.contents)| >= 2 && old(m_inQueue.contents)[..2] == [0, 0]
      ensures !m_definiteLength && ok ==> old(m_inQueue.contents) == [0, 0] + m_inQueue.contents
    {
      m_finished := true;
      if m_definiteLength { return m_length == 0; }
      var word := m_inQueue.GetBytes(2);
      ok := word == [0, 0];
    }
  }

  /** DERGeneralEncoder: collects the content, then puts tag, length and content. */
  class DERGeneralEncoder {
    const m_queue: ByteQueue
    const m_outQueue: ByteQueue
    const m_asnTag: byte
    var m_finished: bool

    constructor (outQueue: ByteQueue, asnTag: byte)
      ensures m_outQueue == outQueue && m_asnTag == asnTag && !m_finished
      ensures fresh(m_queue) && m_queue.contents == []
    {
      m_queue := new ByteQueue();
      m_outQueue, m_asnTag, m_finished := outQueue, asnTag, false;
    }

    /** MessageEnd. */
    method MessageEnd()
      requires m_queue != m_outQueue
      modifies this`m_finished, m_outQueue
      ensures m_outQueue.contents == old(m_outQueue.contents) + Framed(m_asnTag, m_queue.contents)
    {
      hide DerLength;
      m_finished := true;
      var length := |m_queue.contents| % LWORD;
      m_outQueue.Put(m_asnTag);
      var _ := DERLengthEncode(m_outQueue, length);
      m_outQueue.PutBytes(m_queue.contents);
    }
  }

  /** Content of definite length is handed on as it is. */
  method ReencodeLeaf(ghost s: seq<byte>, decoder: BERGeneralDecoder, encoder: DERGeneralEncoder) returns (ok: bool)
    requires s != [] && s[0] == encoder.m_asnTag && ParseLength(s[1..]).Definite?
    requires decoder.m_definiteLength && decoder.m_length == ParseLength(s[1..]).length
    requires 1 + ParseLength(s[1..]).size <= |s| && decoder.m_inQueue.contents == s[1 + ParseLength(s[1..]).size..]
    requires encoder.m_queue.contents == [] && encoder.m_queue != decoder.m_inQueue && encoder.m_queue != encoder.m_outQueue && encoder.m_outQueue != decoder.m_inQueue
    modifies decoder, decoder.m_inQueue, encoder, encoder.m_queue, encoder.m_outQueue
    ensures var parsed := ParseTree(s);
      && ok == parsed.Some?
      && (ok ==> decoder.m_inQueue.contents == s[parsed.value.1..])
      && (ok ==> encoder.m_outQueue.contents == old(encoder.m_outQueue.contents) + Der(parsed.value.0))
  {
    hide ParseLength, DerLength;
    decoder.TransferTo(encoder.m_queue);
    ok := decoder.MessageEnd();
    if !ok { return; }
    encoder.MessageEnd();
  }

  lemma DerAllAppend(ts: seq<Tree>, t: Tree)
    ensures DerAll(ts + [t]) == DerAll(ts) + Der(t)
    decreases |ts|
  {
    hide Der;
    if ts == [] {
      assert [t][1..] == [] && ts + [t] == [t];
    } else {
      assert (ts + [t])[1..] == ts[1..] + [t];
      DerAllAppend(ts[1..], t);
    }
  }

  lemma PrependTwice(a: seq<Tree>, m: nat, b: seq<Tree>, n: nat, tail: Option<(seq<Tree>, nat)>)
    ensures Prepend(a, m, Prepend(b, n, tail)) == Prepend(a + b, m + n, tail) && Prepend([], 0, tail) == tail
  {
    if tail.Some? { assert a + (b + tail.value.0) == a + b + tail.value.0 && [] + tail.value.0 == tail.value.0; }
  }

  lemma ChildrenStep(s: seq<byte>)
    requires !(|s| >= 2 && s[0] == 0 && s[1] == 0)
    ensures ParseChildren(s) == var first := ParseTree(s);
      if first.None? then None else Prepend([first.value.0], first.value.1, ParseChildren(s[first.value.1..]))
  {
    hide ParseTree;
  }

  lemma ChildrenEnd(s: seq<byte>)
    requires |s| >= 2 && s[0] == 0 && s[1] == 0
    ensures ParseChildren(s) == Some(([], 2))
  {
  }

  /** The loop over the elements of an indefinite content. */
  method ReencodeChildren(decoder: BERGeneralDecoder, encoder: ByteQueue) returns (ok: bool, ghost ts: seq<Tree>)
    requires !decoder.m_definiteLength && encoder != decoder.m_inQueue && encoder.contents == []
    modifies decoder.m_inQueue, encoder
    ensures var parsed := ParseChildren(old(decoder.m_inQueue.contents));
      && ok == parsed.Some?
      && (ok ==> ts == parsed.value.0 && encoder.contents == DerAll(ts))
      && (ok ==> decoder.m_inQueue.contents == old(decoder.m_inQueue.contents)[parsed.value.1 - 2..])
      && (ok ==> |decoder.m_inQueue.contents| >= 2 && decoder.m_inQueue.contents[..2] == [0, 0])
    decreases |decoder.m_inQueue.contents|, 2
  {
    hide ParseTree, ParseChildren, Der;
    ghost var s, size: nat := decoder.m_inQueue.contents, 0;
    ts := [];
    PrependTwice([], 0, [], 0, ParseChildren(s));
    while true
      invariant size <= |s| && decoder.m_inQueue.contents == s[size..] && encoder.contents == DerAll(ts)
      invariant ParseChildren(s) == Prepend(ts, size, ParseChildren(s[size..]))
      decreases |s| - size
    {
      var end := decoder.EndReached();
      if end { break; }
      ghost var first := ParseTree(s[size..]);
      ChildrenStep(s[size..]);
      ok := DERReencode(decoder.m_inQueue, encoder);
      if !ok { return; }
      PrependTwice(ts, size, [first.value.0], first.value.1, ParseChildren(s[size..][first.value.1..]));
      DerAllAppend(ts, first.value.0);
      assert s[size..][first.value.1..] == s[size + first.value.1..];
      ts, size := ts + [first.value.0], size + first.value.1;
    }
    ChildrenEnd(s[size..]);
    ok := true;
  }

  /** Content of indefinite length is re-encoded element by element. */
  method ReencodeNode(ghost s: seq<byte>, decoder: BERGeneralDecoder, encoder: DERGeneralEncoder) returns (ok: bool)
    requires |s| >= 2 && s[0] == encoder.m_asnTag && IsConstructed(s[0]) && ParseLength(s[1..]).Indefinite?
    requires !decoder.m_definiteLength && decoder.m_inQueue.contents == s[2..]
    requires encoder.m_queue.contents == [] && encoder.m_queue != decoder.m_inQueue && encoder.m_queue != encoder.m_outQueue && encoder.m_outQueue != decoder.m_inQueue
    modifies decoder, decoder.m_inQueue, encoder, encoder.m_queue, encoder.m_outQueue
    ensures var parsed := ParseTree(s);
      && ok == parsed.Some?
      && (ok ==> decoder.m_inQueue.contents == s[parsed.value.1..])
      && (ok ==> encoder.m_outQueue.contents == old(encoder.m_outQueue.contents) + Der(parsed.value.0))
    decreases |s|, 0
  {
    hide ParseLength, ParseChildren, DerLength, DerAll;
    ghost var ts;
    ok, ts := ReencodeChildren(decoder, encoder.m_queue);
    if !ok { return; }
    ok := decoder.MessageEnd();
    encoder.MessageEnd();
  }

  /** DERReencode. It succeeds exactly on the encodings of well-formed elements, takes just the element
      off the source and puts its distinguished encoding. */
  method DERReencode(source: ByteQueue, dest: ByteQueue) returns (ok: bool)
    requires source != dest
    modifies source, dest
    ensures var parsed := ParseTree(old(source.contents));
      && ok == parsed.Some?
      && (ok ==> source.contents == old(source.contents)[parsed.value.1..])
      && (ok ==> dest.contents == old(dest.contents) + Der(parsed.value.0))
    decreases |source.contents|, 1
  {
    hide ParseLength, ParseChildren, Der;
    ghost var s := source.contents;
    var tag: byte := if |source.contents| > 0 then source.contents[0] else 0;
    var decoder := new BERGeneralDecoder(source);
    ok := decoder.Init(tag);
    if !ok { return; }
    var encoder := new DERGeneralEncoder(dest, tag);
    if decoder.m_definiteLength {
      ok := ReencodeLeaf(s, decoder, encoder);
    } else {
      ok := ReencodeNode(s, decoder, encoder);
    }
  }
}
