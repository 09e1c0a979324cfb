/** CAST-256 (cast.cpp): one procedure for both directions, over a key schedule that decryption swaps. */
module Cast256 {
  import opened Bytes
  import opened Words32
  import opened Feistel
  import opened Cast

  /** The four words of a block. */
  datatype Quad = Quad(a: word32, b: word32, c: word32, d: word32)

  /** Keys 8 * i to 8 * i + 7 of the schedule: four rotation counts and four masks. */
  function Group(K: seq<word32>, i: nat): (r: seq<word32>)
    requires |K| == 96 && i < 12
    ensures |r| == 8
  {
    K[8 * i..8 * i + 8]
  }

  lemma GroupAt(K: seq<word32>, i: nat)
    requires |K| == 96 && i < 12
    ensures var g := Group(K, i);
      && g[0] == K[8 * i] && g[1] == K[8 * i + 1] && g[2] == K[8 * i + 2] && g[3] == K[8 * i + 3]
      && g[4] == K[8 * i + 4] && g[5] == K[8 * i + 5] && g[6] == K[8 * i + 6] && g[7] == K[8 * i + 7]
  {
  }

  /** A forward quad round. */
  function Forward(S: Boxes, k: seq<word32>, x: Quad): Quad
    requires |k| == 8
  {
    var c := Xor32(x.c, TypeOne(S, x.d, k[4], k[0]));
    var b := Xor32(x.b, TypeTwo(S, c, k[5], k[1]));
    var a := Xor32(x.a, TypeThree(S, b, k[6], k[2]));
    Quad(a, b, c, Xor32(x.d, TypeOne(S, a, k[7], k[3])))
  }

  /** A reverse quad round. */
  function Reverse(S: Boxes, k: seq<word32>, x: Quad): Quad
    requires |k| == 8
  {
    var d := Xor32(x.d, TypeOne(S, x.a, k[7], k[3]));
    var a := Xor32(x.a, TypeThree(S, x.b, k[6], k[2]));
    var b := Xor32(x.b, TypeTwo(S, x.c, k[5], k[1]));
    Quad(a, b, Xor32(x.c, TypeOne(S, d, k[4], k[0])), d)
  }

  /** With only the first box each step xors in the box's value at the top byte of the last word made,
      under masks 4 to 7 and turned by counts 0 to 3. */
  lemma ForwardReads(box: byte -> word32, k: seq<word32>, x: Quad)
    requires |k| == 8
    ensures var y := Forward(Boxes(box, Zero, Zero, Zero), k, x);
      && y.c == Xor32(x.c, box(Byte(Rotate(Add32(k[4], x.d), k[0]), 3)))
      && y.b == Xor32(x.b, box(Byte(Rotate(Xor32(k[5], y.c), k[1]), 3)))
      && y.a == Xor32(x.a, box(Byte(Rotate(Sub32(k[6], y.b), k[2]), 3)))
      && y.d == Xor32(x.d, box(Byte(Rotate(Add32(k[7], y.a), k[3]), 3)))
  {
    hide Xor32, Add32, Sub32, Rotate, Byte, TypeOne, TypeTwo, TypeThree;
    var S := Boxes(box, Zero, Zero, Zero);
    var y := Forward(S, k, x);
    TypeOneReads(S, x.d, k[4], k[0], 0);
    TypeTwoReads(S, y.c, k[5], k[1], 0);
    TypeThreeReads(S, y.b, k[6], k[2], 0);
    TypeOneReads(S, y.a, k[7], k[3], 0);
  }

  lemma ReverseForward(S: Boxes, k: seq<word32>, x: Quad)
    requires |k| == 8
    ensures Reverse(S, k, Forward(S, k, x)) == x
  {
    hide Xor32, TypeOne, TypeTwo, TypeThree;
    var y := Forward(S, k, x);
    XorTwice(x.d, TypeOne(S, y.a, k[7], k[3]));
    XorTwice(x.a, TypeThree(S, y.b, k[6], k[2]));
    XorTwice(x.b, TypeTwo(S, y.c, k[5], k[1]));
    XorTwice(x.c, TypeOne(S, x.d, k[4], k[0]));
  }

  lemma ForwardReverse(S: Boxes, k: seq<word32>, x: Quad)
    requires |k| == 8
    ensures Forward(S, k, Reverse(S, k, x)) == x
  {
    hide Xor32, TypeOne, TypeTwo, TypeThree;
    var y := Reverse(S, k, x);
    XorTwice(x.c, TypeOne(S, y.d, k[4], k[0]));
    XorTwice(x.b, TypeTwo(S, x.c, k[5], k[1]));
    XorTwice(x.a, TypeThree(S, x.b, k[6], k[2]));
    XorTwice(x.d, TypeOne(S, x.a, k[7], k[3]));
  }

  /** The first n of the twelve quad rounds: six forward, then six reverse. */
  function Steps(S: Boxes, K: seq<word32>, n: nat, x: Quad): Quad
    requires |K| == 96 && n <= 12
    decreases n
  {
    if n == 0 then x
    else if n <= 6 then Forward(S, Group(K, n - 1), Steps(S, K, n - 1, x))
    else Reverse(S, Group(K, n - 1), Steps(S, K, n - 1, x))
  }

  /** Groups 0 to 5 go forward and 6 to 11 in reverse, in that order, each eight keys further on. */
  lemma StepsInOrder(S: Boxes, K: seq<word32>, i: nat, x: Quad)
    requires |K| == 96 && i < 12
    ensures i < 6 ==> Steps(S, K, i + 1, x) == Forward(S, K[8 * i..8 * i + 8], Steps(S, K, i, x))
    ensures i >= 6 ==> Steps(S, K, i + 1, x) == Reverse(S, K[8 * i..8 * i + 8], Steps(S, K, i, x))
    ensures Steps(S, K, 0, x) == x
  {
    hide Forward, Reverse;
  }

  /** The schedule for decryption: the twelve groups in the opposite order. */
  function Swapped(K: seq<word32>): (r: seq<word32>)
    requires |K| == 96
    ensures |r| == 96
  {
    seq(96, k requires 0 <= k < 96 => K[Mirror(k)])
  }

  /** The same place in the opposite group. */
  function Mirror(k: nat): (r: nat)
    requires k < 96
    ensures r < 96
  {
    8 * (11 - k / 8) + k % 8
  }

  lemma MirrorAt(i: nat, j: nat)
    requires i < 12 && j < 8
    ensures 8 * i + j < 96 && Mirror(8 * i + j) == 8 * (11 - i) + j
  {
  }

  lemma SwappedGroup(K: seq<word32>, i: nat)
    requires |K| == 96 && i < 12
    ensures Group(Swapped(K), i) == Group(K, 11 - i)
  {
    hide Mirror;
    forall j | 0 <= j < 8
      ensures Group(Swapped(K), i)[j] == Group(K, 11 - i)[j]
    {
      MirrorAt(i, j);
      assert Group(Swapped(K), i)[j] == Swapped(K)[8 * i + j];
    }
  }

  /** Under the swapped schedule the quad rounds retrace those under the original one. */
  lemma {:induction false} StepsBack(S: Boxes, K: seq<word32>, n: nat, x: Quad)
    requires |K| == 96 && n <= 12
    ensures Steps(S, Swapped(K), n, Steps(S, K, 12, x)) == Steps(S, K, 12 - n, x)
  {
    hide Forward, Reverse, Swapped, Group;
    if n > 0 {
      StepsBack(S, K, n - 1, x);
      SwappedGroup(K, n - 1);
      var y := Steps(S, K, 12 - n, x);
      if n <= 6 {
        ForwardReverse(S, Group(K, 12 - n), y);
      } else {
        ReverseForward(S, Group(K, 12 - n), y);
      }
    }
  }

  class CAST256 {
    const S: Boxes
    const K: array<word32>

    constructor (S: Boxes, K: array<word32>)
      requires K.Length == 96
      ensures this.S == S && this.K == K
    {
      this.S, this.K := S, K;
    }

    /** The macro F1(block[t], block[s], ...), then F2 and F3. */
    method F1(block: array<word32>, t: nat, s: nat, i: nat)
      requires K.Length == 96 && block.Length == 4 && t < 4 && s < 4 && 4 <= i < 96 && block != K
      modifies block
      ensures block[..] == old(block[..])[t := Xor32(old(block[t]), TypeOne(S, old(block[s]), K[i], K[i - 4]))]
    {
      hide Xor32, TypeOne;
      block[t] := Xor32(block[t], TypeOne(S, block[s], K[i], K[i - 4]));
    }

    method F2(block: array<word32>, t: nat, s: nat, i: nat)
      requires K.Length == 96 && block.Length == 4 && t < 4 && s < 4 && 4 <= i < 96 && block != K
      modifies block
      ensures block[..] == old(block[..])[t := Xor32(old(block[t]), TypeTwo(S, old(block[s]), K[i], K[i - 4]))]
    {
      hide Xor32, TypeTwo;
      block[t] := Xor32(block[t], TypeTwo(S, block[s], K[i], K[i - 4]));
    }

    method F3(block: array<word32>, t: nat, s: nat, i: nat)
      requires K.Length == 96 && block.Length == 4 && t < 4 && s < 4 && 4 <= i < 96 && block != K
      modifies block
      ensures block[..] == old(block[..])[t := Xor32(old(block[t]), TypeThree(S, old(block[s]), K[i], K[i - 4]))]
    {
      hide Xor32, TypeThree;
      block[t] := Xor32(block[t], TypeThree(S, block[s], K[i], K[i - 4]));
    }

    /** The macro Q(i). */
    method Q(block: array<word32>, i: nat)
      requires K.Length == 96 && block.Length == 4 && i < 12 && block != K
      modifies block
      ensures Words(block[..]) == Forward(S, Group(K[..], i), Words(old(block[..])))
    {
      hide Xor32, TypeOne, TypeTwo, TypeThree, Group;
      GroupAt(K[..], i);
      ghost var x := Words(block[..]);
      F1(block, 2, 3, 8 * i + 4);
      ghost var y := Words(block[..]);
      assert y == x.(c := Xor32(x.c, TypeOne(S, x.d, K[8 * i + 4], K[8 * i])));
      F2(block, 1, 2, 8 * i + 5);
      ghost var z := Words(block[..]);
      assert z == y.(b := Xor32(y.b, TypeTwo(S, y.c, K[8 * i + 5], K[8 * i + 1])));
      F3(block, 0, 1, 8 * i + 6);
      y := Words(block[..]);
      assert y == z.(a := Xor32(z.a, TypeThree(S, z.b, K[8 * i + 6], K[8 * i + 2])));
      F1(block, 3, 0, 8 * i + 7);
    }

    /** The macro QBar(i). */
    method QBar(block: array<word32>, i: nat)
      requires K.Length == 96 && block.Length == 4 && i < 12 && block != K
      modifies block
      ensures Words(block[..]) == Reverse(S, Group(K[..], i), Words(old(block[..])))
    {
      hide Xor32, TypeOne, TypeTwo, TypeThree, Group;
      GroupAt(K[..], i);
      ghost var x := Words(block[..]);
      F1(block, 3, 0, 8 * i + 7);
      ghost var y := Words(block[..]);
      assert y == x.(d := Xor32(x.d, TypeOne(S, x.a, K[8 * i + 7], K[8 * i + 3])));
      F3(block, 0, 1, 8 * i + 6);
      ghost var z := Words(block[..]);
      assert z == y.(a := Xor32(y.a, TypeThree(S, y.b, K[8 * i + 6], K[8 * i + 2])));
      F2(block, 1, 2, 8 * i + 5);
      y := Words(block[..]);
      assert y == z.(b := Xor32(z.b, TypeTwo(S, z.c, K[8 * i + 5], K[8 * i + 1])));
      F1(block, 2, 3, 8 * i + 4);
    }

    /** ProcessAndXorBlock on the four words of a block. */
    method ProcessBlock(block: array<word32>)
      requires K.Length == 96 && block.Length == 4 && block != K
      modifies block
      ensures Words(block[..]) == Steps(S, K[..], 12, Words(old(block[..])))
    {
      hide Words, Forward, Reverse, Group;
      Q(block, 0);
      Q(block, 1);
      Q(block, 2);
      Q(block, 3);
      Q(block, 4);
      Q(block, 5);
      QBar(block, 6);
      QBar(block, 7);
      QBar(block, 8);
      QBar(block, 9);
      QBar(block, 10);
      QBar(block, 11);
    }

    /** The end of UncheckedSetKey for a decryption object. */
    method SwapKeys()
      requires K.Length == 96
      modifies K
      ensures K[..] == Swapped(old(K[..]))
    {
      ghost var was := K[..];
      for j := 0 to 6
        invariant forall k :: 0 <= k < 96 ==> K[k] == if Done(k, j) then was[Mirror(k)] else was[k]
      {
        SwapGroup(j, was);
      }
      assert forall k :: 0 <= k < 96 ==> Done(k, 6);
    }

    /** The inner loop. */
    method SwapGroup(j: nat, ghost was: seq<word32>)
      requires K.Length == 96 == |was| && j < 6
      requires forall k :: 0 <= k < 96 ==> K[k] == if Done(k, j) then was[Mirror(k)] else was[k]
      modifies K
      ensures forall k :: 0 <= k < 96 ==> K[k] == if Done(k, j + 1) then was[Mirror(k)] else was[k]
    {
      hide Mirror, Handled, Done;
      HandledEnds(j);
      for i := 0 to 4
        invariant forall k :: 0 <= k < 96 ==> K[k] == if Handled(k, j, i) then was[Mirror(k)] else was[k]
      {
        SwapFour(j, i, was);
      }
    }

    /** The body of the inner loop. */
    method SwapFour(j: nat, i: nat, ghost was: seq<word32>)
      requires K.Length == 96 == |was| && j < 6 && i < 4
      requires forall k :: 0 <= k < 96 ==> K[k] == if Handled(k, j, i) then was[Mirror(k)] else was[k]
      modifies K
      ensures forall k :: 0 <= k < 96 ==> K[k] == if Handled(k, j, i + 1) then was[Mirror(k)] else was[k]
    {
      hide Mirror, Handled, Done;
      var i1, i2 := 8 * j + i, 8 * (11 - j) + i;
      NextPairs(j, i);
      NextHandled(j, i);
      K[i1], K[i2] := K[i2], K[i1];
      K[i1 + 4], K[i2 + 4] := K[i2 + 4], K[i1 + 4];
    }
  }

  /** Index k lies in the first or last j groups. */
  predicate Done(k: nat, j: nat) {
    k / 8 < j || k / 8 > 11 - j
  }

  /** Index k is in a swapped group or already swapped in the current one. */
  predicate Handled(k: nat, j: nat, i: nat) {
    Done(k, j) || (Done(k, j + 1) && k % 4 < i)
  }

  lemma HandledEnds(j: nat)
    requires j < 6
    ensures forall k :: 0 <= k < 96 ==> Handled(k, j, 0) == Done(k, j) && Handled(k, j, 4) == Done(k, j + 1)
  {
  }

  /** The two swaps of one turn are four places and their mirrors. */
  lemma NextPairs(j: nat, i: nat)
    requires j < 6 && i < 4
    ensures var i1, i2 := 8 * j + i, 8 * (11 - j) + i;
      && Mirror(i1) == i2 && Mirror(i2) == i1 && Mirror(i1 + 4) == i2 + 4 && Mirror(i2 + 4) == i1 + 4
      && !Handled(i1, j, i) && !Handled(i2, j, i) && !Handled(i1 + 4, j, i) && !Handled(i2 + 4, j, i)
  {
  }

  lemma NextHandled(j: nat, i: nat)
    requires j < 6 && i < 4
    ensures forall k :: 0 <= k < 96 ==>
      (Handled(k, j, i + 1) <==> (Handled(k, j, i) || k == 8 * j + i || k == 8 * (11 - j) + i || k == 8 * j + i + 4 || k == 8 * (11 - j) + i + 4))
  {
  }

  function Words(block: seq<word32>): Quad
    requires |block| == 4
  {
    Quad(block[0], block[1], block[2], block[3])
  }

  /** A decryption object inverts an encryption object with the same schedule before the swap. */
  method RoundTrip256(encryption: CAST256, decryption: CAST256, block: array<word32>)
    requires encryption.K.Length == 96 && decryption.K.Length == 96 && block.Length == 4
    requires block != encryption.K && block != decryption.K && encryption.K != decryption.K
    requires encryption.S == decryption.S && encryption.K[..] == decryption.K[..]
    modifies block, decryption.K
    ensures block[..] == old(block[..])
  {
    hide Steps, Swapped;
    decryption.SwapKeys();
    encryption.ProcessBlock(block);
    decryption.ProcessBlock(block);
    StepsBack(encryption.S, encryption.K[..], 12, Words(old(block[..])));
    NoSteps(encryption.S, encryption.K[..], Words(old(block[..])));
  }

  lemma NoSteps(S: Boxes, K: seq<word32>, x: Quad)
    requires |K| == 96
    ensures Steps(S, K, 0, x) == x
  {
  }
}
