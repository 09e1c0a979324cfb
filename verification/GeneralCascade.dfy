/** GeneralCascadeMultiplication of algebra.cpp: a sum of many multiples by repeated division of
    the two largest exponents, kept on a heap. */
module GeneralCascade {
  import opened Powers
  import opened Groups
  import SimultaneousMultiplication
  import CascadeMultiplication

  datatype BaseAndExponent<T> = BaseAndExponent(base: T, exponent: nat)

  ghost function Term<T>(g: Group<T>, p: BaseAndExponent<T>): T {
    Mul(g, p.exponent, p.base)
  }

  /** Sum of exponent * base over the list: the specification. */
  ghost function Sum<T>(g: Group<T>, s: seq<BaseAndExponent<T>>): T {
    if s == [] then g.id else g.add(Sum(g, s[..|s| - 1]), Term(g, s[|s| - 1]))
  }

  ghost function Total<T>(s: seq<BaseAndExponent<T>>): nat {
    if s == [] then 0 else Total(s[..|s| - 1]) + s[|s| - 1].exponent
  }

  /** Replacing one entry changes the sum by exactly that entry. */
  lemma {:induction false} SumUpdate<T(!new)>(g: Group<T>, s: seq<BaseAndExponent<T>>, i: nat, u: BaseAndExponent<T>)
    requires IsAbelian(g) && i < |s|
    ensures g.add(Sum(g, s[i := u]), Term(g, s[i])) == g.add(Sum(g, s), Term(g, u))
  {
    hide IsGroup, IsAbelian, Mul, Term;
    var n := |s| - 1;
    var front := s[..n];
    if i == n {
      assert s[i := u][..n] == front;
      SwapLast(g, Sum(g, front), Term(g, u), Term(g, s[i]));
    } else {
      assert s[i := u][..n] == front[i := u];
      SumUpdate(g, front, i, u);
      SwapLast(g, Sum(g, front[i := u]), Term(g, s[n]), Term(g, s[i]));
      SwapLast(g, Sum(g, front), Term(g, s[n]), Term(g, u));
    }
  }

  lemma SwapLast<T(!new)>(g: Group<T>, a: T, b: T, c: T)
    requires IsAbelian(g)
    ensures g.add(g.add(a, b), c) == g.add(g.add(a, c), b)
  {
    Assoc(g, a, b, c);
    Assoc(g, a, c, b);
    Comm(g, b, c);
  }

  lemma Cancel<T(!new)>(g: Group<T>, a: T, b: T, c: T)
    requires IsGroup(g) && g.add(a, c) == g.add(b, c)
    ensures a == b
  {
    Assoc(g, a, c, g.inv(c));
    Assoc(g, b, c, g.inv(c));
    Inverse(g, c);
    Unit(g, a);
    Unit(g, b);
  }

  lemma {:induction false} TotalUpdate<T>(s: seq<BaseAndExponent<T>>, i: nat, u: BaseAndExponent<T>)
    requires i < |s|
    ensures Total(s[i := u]) + s[i].exponent == Total(s) + u.exponent
  {
    var n := |s| - 1;
    if i == n {
      assert s[i := u][..n] == s[..n];
    } else {
      assert s[i := u][..n] == s[..n][i := u];
      TotalUpdate(s[..n], i, u);
    }
  }

  /** Two entries traded for two others worth the same together. */
  lemma Trade<T(!new)>(g: Group<T>, s: seq<BaseAndExponent<T>>, i: nat, j: nat, u: BaseAndExponent<T>, v: BaseAndExponent<T>)
    requires IsAbelian(g) && i < |s| && j < |s| && i != j
    requires g.add(Term(g, u), Term(g, v)) == g.add(Term(g, s[i]), Term(g, s[j]))
    ensures Sum(g, s[i := u][j := v]) == Sum(g, s)
    ensures Total(s[i := u][j := v]) + s[i].exponent + s[j].exponent == Total(s) + u.exponent + v.exponent
  {
    hide IsGroup, Mul, Term, Sum, Total;
    var s1 := s[i := u];
    var s2 := s1[j := v];
    SumUpdate(g, s, i, u);
    SumUpdate(g, s1, j, v);
    TotalUpdate(s, i, u);
    TotalUpdate(s1, j, v);
    var ti, tj, tu, tv := Term(g, s[i]), Term(g, s[j]), Term(g, u), Term(g, v);
    // (S2 + tj) + ti == (S1 + tv) + ti == (S1 + ti) + tv == (S + tu) + tv
    SwapLast(g, Sum(g, s1), tv, ti);
    Assoc(g, Sum(g, s2), tj, ti);
    Comm(g, tj, ti);
    Assoc(g, Sum(g, s), tu, tv);
    Cancel(g, Sum(g, s2), Sum(g, s), g.add(ti, tj));
  }

  /** Lists with the same sum and the same exponent total. */
  ghost predicate Conserves<T>(g: Group<T>, s: seq<BaseAndExponent<T>>, s': seq<BaseAndExponent<T>>) {
    |s| == |s'| && Sum(g, s) == Sum(g, s') && Total(s) == Total(s')
  }

  // ----- the heap

  function Parent(i: nat): nat
    requires i > 0
  {
    (i - 1) / 2
  }

  ghost predicate Ordered<T>(s: seq<BaseAndExponent<T>>, i: nat, j: nat) {
    i < |s| && j < |s| && s[i].exponent >= s[j].exponent
  }

  ghost predicate Heap<T>(s: seq<BaseAndExponent<T>>, n: nat) {
    n <= |s| && forall i: nat :: 0 < i < n ==> Ordered(s, Parent(i), i)
  }

  /** A heap but for the entry at k being possibly smaller than its children. */
  ghost predicate HeapDown<T>(s: seq<BaseAndExponent<T>>, n: nat, k: nat) {
    && n <= |s|
    && (forall i: nat :: 0 < i < n && Parent(i) != k ==> Ordered(s, Parent(i), i))
    && (forall i: nat :: 0 < i < n && Parent(i) == k && 0 < k ==> Ordered(s, Parent(k), i))
  }

  /** A heap but for the entry at k being possibly larger than its parent. */
  ghost predicate HeapUp<T>(s: seq<BaseAndExponent<T>>, n: nat, k: nat) {
    && k < n <= |s|
    && (forall i: nat :: 0 < i < n && i != k ==> Ordered(s, Parent(i), i))
    && (forall i: nat :: 0 < i < n && Parent(i) == k && 0 < k ==> Ordered(s, Parent(k), i))
  }

  lemma {:induction false} HeapTop<T>(s: seq<BaseAndExponent<T>>, n: nat, i: nat)
    requires Heap(s, n) && i < n
    ensures s[0].exponent >= s[i].exponent
  {
    if i > 0 {
      assert Ordered(s, Parent(i), i);
      HeapTop(s, n, Parent(i));
    }
  }

  ghost function Swapped<T>(s: seq<T>, i: nat, j: nat): (r: seq<T>)
    requires i < |s| && j < |s|
    ensures |r| == |s| && r[i] == s[j] && r[j] == s[i]
    ensures forall m :: 0 <= m < |s| && m != i && m != j ==> r[m] == s[m]
  {
    s[i := s[j]][j := s[i]]
  }

  lemma UpStep<T>(s: seq<BaseAndExponent<T>>, n: nat, k: nat)
    requires HeapUp(s, n, k) && k > 0 && s[Parent(k)].exponent < s[k].exponent
    ensures HeapUp(Swapped(s, k, Parent(k)), n, Parent(k))
  {
    var p := Parent(k);
    var t := Swapped(s, k, p);
    forall i: nat | 0 < i < n && i != p
      ensures Ordered(t, Parent(i), i)
    {
      if i != k { assert Ordered(s, Parent(i), i); }
      if Parent(i) == k { assert Ordered(s, p, i); }
    }
    forall i: nat | 0 < i < n && Parent(i) == p && 0 < p
      ensures Ordered(t, Parent(p), i)
    {
      assert Ordered(s, Parent(p), p);
      if i != k { assert Ordered(s, p, i); }
    }
  }

  lemma DownStep<T>(s: seq<BaseAndExponent<T>>, n: nat, k: nat, c: nat)
    requires HeapDown(s, n, k) && 0 < c < n && Parent(c) == k && s[k].exponent < s[c].exponent
    requires forall i: nat :: 0 < i < n && Parent(i) == k ==> Ordered(s, c, i)
    ensures HeapDown(Swapped(s, k, c), n, c)
  {
    var t := Swapped(s, k, c);
    forall i: nat | 0 < i < n && Parent(i) != c
      ensures Ordered(t, Parent(i), i)
    {
      if Parent(i) == k {
        assert Ordered(s, c, i);
      } else {
        assert Ordered(s, Parent(i), i);
        if i == k { assert Ordered(s, Parent(k), c); }
      }
    }
    forall i: nat | 0 < i < n && Parent(i) == c
      ensures Ordered(t, Parent(c), i)
    {
      assert Ordered(s, Parent(i), i);
    }
  }

  /** The children of k are 2k + 1 and 2k + 2. */
  lemma Children(k: nat, i: nat)
    requires i > 0
    ensures Parent(i) == k <==> i == 2 * k + 1 || i == 2 * k + 2
  {
  }

  /** Once neither child beats its parent the heap is whole again. */
  lemma Settled<T>(s: seq<BaseAndExponent<T>>, n: nat, k: nat)
    requires HeapDown(s, n, k)
    requires forall i: nat :: 0 < i < n && Parent(i) == k ==> Ordered(s, k, i)
    ensures Heap(s, n)
  {
  }

  method Swap<T(!new)>(ghost g: Group<T>, a: array<BaseAndExponent<T>>, i: nat, j: nat)
    requires IsAbelian(g) && i < a.Length && j < a.Length && i != j
    modifies a
    ensures a[..] == Swapped(old(a[..]), i, j)
    ensures Conserves(g, old(a[..]), a[..])
  {
    hide IsGroup, IsAbelian, Mul, Sum, Total, Term;
    ghost var s := a[..];
    Comm(g, Term(g, s[i]), Term(g, s[j]));
    Trade(g, s, i, j, s[j], s[i]);
    a[i], a[j] := a[j], a[i];
    assert a[..] == s[i := s[j]][j := s[i]];
  }

  method SiftUp<T(!new)>(ghost g: Group<T>, a: array<BaseAndExponent<T>>, n: nat, start: nat)
    requires IsAbelian(g) && HeapUp(a[..], n, start)
    modifies a
    ensures Heap(a[..], n) && Conserves(g, old(a[..]), a[..])
  {
    hide IsGroup, IsAbelian, Sum, Total, Ordered;
    var k := start;
    while k > 0 && a[Parent(k)].exponent < a[k].exponent
      invariant HeapUp(a[..], n, k) && Conserves(g, old(a[..]), a[..])
    {
      UpStep(a[..], n, k);
      Swap(g, a, k, Parent(k));
      k := Parent(k);
    }
    UpSettled(a[..], n, k);
  }

  lemma UpSettled<T>(s: seq<BaseAndExponent<T>>, n: nat, k: nat)
    requires HeapUp(s, n, k) && (k > 0 ==> s[Parent(k)].exponent >= s[k].exponent)
    ensures Heap(s, n)
  {
  }

  /** The larger child of k. */
  method LargerChild<T(!new)>(a: array<BaseAndExponent<T>>, n: nat, k: nat) returns (c: nat)
    requires 2 * k + 1 < n <= a.Length
    ensures 0 < c < n && Parent(c) == k && c > k
    ensures forall i: nat :: 0 < i < n && Parent(i) == k ==> Ordered(a[..], c, i)
  {
    c := 2 * k + 1;
    if c + 1 < n && a[c + 1].exponent > a[c].exponent { c := c + 1; }
    forall i: nat | 0 < i < n && Parent(i) == k
      ensures Ordered(a[..], c, i)
    {
      Children(k, i);
    }
  }

  ghost predicate Bounded<T>(s: seq<BaseAndExponent<T>>, n: nat, bound: nat) {
    n <= |s| && forall i :: 0 <= i < n ==> s[i].exponent <= bound
  }

  lemma BoundedSwap<T>(s: seq<BaseAndExponent<T>>, n: nat, bound: nat, i: nat, j: nat)
    requires Bounded(s, n, bound) && i < n && j < n
    ensures Bounded(Swapped(s, i, j), n, bound)
  {
  }

  method SiftDown<T(!new)>(ghost g: Group<T>, a: array<BaseAndExponent<T>>, n: nat, ghost bound: nat)
    requires IsAbelian(g) && HeapDown(a[..], n, 0) && Bounded(a[..], n, bound)
    modifies a
    ensures Heap(a[..], n) && Conserves(g, old(a[..]), a[..])
    ensures a[n..] == old(a[n..]) && Bounded(a[..], n, bound)
  {
    hide IsGroup, IsAbelian, Sum, Total, HeapDown, Heap, Bounded;
    var k: nat := 0;
    assert n <= a.Length by { Within(a[..], n, 0); }
    while 2 * k + 1 < n
      invariant HeapDown(a[..], n, k) && Conserves(g, old(a[..]), a[..])
      invariant a[n..] == old(a[n..]) && Bounded(a[..], n, bound)
      decreases n - k
    {
      var c := LargerChild(a, n, k);
      if a[k].exponent >= a[c].exponent {
        SettledAbove(a[..], n, k, c);
        return;
      }
      DownStep(a[..], n, k, c);
      BoundedSwap(a[..], n, bound, k, c);
      Swap(g, a, k, c);
      k := c;
    }
    SettledBelow(a[..], n, k);
  }

  lemma Within<T>(s: seq<BaseAndExponent<T>>, n: nat, k: nat)
    requires HeapDown(s, n, k)
    ensures n <= |s|
  {
  }

  lemma SettledAbove<T>(s: seq<BaseAndExponent<T>>, n: nat, k: nat, c: nat)
    requires HeapDown(s, n, k) && k < n && c < n && s[k].exponent >= s[c].exponent
    requires forall i: nat :: 0 < i < n && Parent(i) == k ==> Ordered(s, c, i)
    ensures Heap(s, n)
  {
    forall i: nat | 0 < i < n && Parent(i) == k
      ensures Ordered(s, k, i)
    {
      assert Ordered(s, c, i);
    }
    Settled(s, n, k);
  }

  lemma SettledBelow<T>(s: seq<BaseAndExponent<T>>, n: nat, k: nat)
    requires HeapDown(s, n, k) && 2 * k + 1 >= n
    ensures Heap(s, n)
  {
    forall i: nat | 0 < i < n
      ensures Parent(i) != k
    {
      Children(k, i);
    }
  }

  /** std::push_heap: the entry at n - 1 joins the heap before it. */
  method PushHeap<T(!new)>(ghost g: Group<T>, a: array<BaseAndExponent<T>>, n: nat)
    requires IsAbelian(g) && 0 < n <= a.Length && Heap(a[..], n - 1)
    modifies a
    ensures Heap(a[..], n) && Conserves(g, old(a[..]), a[..])
  {
    hide IsGroup, IsAbelian, Sum, Total, Ordered;
    SiftUp(g, a, n, n - 1);
  }

  method MakeHeap<T(!new)>(ghost g: Group<T>, a: array<BaseAndExponent<T>>)
    requires IsAbelian(g)
    modifies a
    ensures Heap(a[..], a.Length) && Conserves(g, old(a[..]), a[..])
  {
    hide IsGroup, IsAbelian, Sum, Total, Ordered;
    var n := 0;
    while n < a.Length
      invariant n <= a.Length && Heap(a[..], n) && Conserves(g, old(a[..]), a[..])
    {
      n := n + 1;
      PushHeap(g, a, n);
    }
  }

  lemma DownFromTop<T>(s: seq<BaseAndExponent<T>>)
    requires |s| >= 2 && Heap(s, |s|)
    ensures HeapDown(Swapped(s, 0, |s| - 1), |s| - 1, 0)
    ensures Bounded(Swapped(s, 0, |s| - 1), |s| - 1, s[0].exponent)
  {
    forall i: nat | i < |s|
      ensures s[i].exponent <= s[0].exponent
    {
      HeapTop(s, |s|, i);
    }
    var t := Swapped(s, 0, |s| - 1);
    forall i: nat | 0 < i < |s| - 1 && Parent(i) != 0
      ensures Ordered(t, Parent(i), i)
    {
      assert Ordered(s, Parent(i), i);
    }
  }

  /** std::pop_heap: the largest entry moves to the end, the rest stays a heap. */
  method PopHeap<T(!new)>(ghost g: Group<T>, a: array<BaseAndExponent<T>>)
    requires IsAbelian(g) && a.Length >= 2 && Heap(a[..], a.Length)
    modifies a
    ensures Heap(a[..], a.Length - 1) && Conserves(g, old(a[..]), a[..])
    ensures a[a.Length - 1] == old(a[0]) && a[0].exponent <= a[a.Length - 1].exponent
  {
    hide IsGroup, IsAbelian, Sum, Total, Heap, HeapDown;
    DownFromTop(a[..]);
    Swap(g, a, 0, a.Length - 1);
    ghost var s := a[..];
    SiftDown(g, a, a.Length - 1, old(a[0].exponent));
    assert a[a.Length - 1] == a[a.Length - 1..][0] == s[a.Length - 1..][0];
  }

  // ----- the main loop

  /** AbstractGroup::ScalarMultiply: one exponent through SimultaneousMultiply. */
  method ScalarMultiply<T(!new)>(g: Group<T>, inversionIsFast: bool, wordBits: nat, base: T, exponent: nat) returns (r: T)
    requires IsGroup(g) && wordBits > 0
    ensures r == Mul(g, exponent, base)
  {
    hide IsGroup, Mul;
    var results := SimultaneousMultiplication.SimultaneousMultiply(g, inversionIsFast, base, [exponent], wordBits);
    r := results[0];
  }

  /** e0*b0 + (q*e0 + r)*bl == e0*(b0 + q*bl) + r*bl: what one division conserves. */
  lemma DivisionConserves<T(!new)>(g: Group<T>, b0: T, e0: nat, bl: T, q: nat, r: nat)
    requires IsAbelian(g)
    ensures g.add(Mul(g, e0, g.add(b0, Mul(g, q, bl))), Mul(g, r, bl)) == g.add(Mul(g, e0, b0), Mul(g, e0 * q + r, bl))
  {
    hide Mul, IsGroup;
    MulDistributes(g, e0, b0, Mul(g, q, bl));
    MulMul(g, e0, q, bl);
    Assoc(g, Mul(g, e0, b0), Mul(g, e0 * q, bl), Mul(g, r, bl));
    MulAdd(g, e0 * q, r, bl);
  }

  /** The division step as a trade of two entries. */
  lemma DivisionTrades<T(!new)>(g: Group<T>, s: seq<BaseAndExponent<T>>, j: nat, q: nat, r: nat)
    requires IsAbelian(g) && 0 < j < |s| && s[j].exponent == s[0].exponent * q + r
    requires r < s[0].exponent <= s[j].exponent
    ensures var s' := s[j := BaseAndExponent(s[j].base, r)][0 := BaseAndExponent(g.add(s[0].base, Mul(g, q, s[j].base)), s[0].exponent)];
            Sum(g, s') == Sum(g, s) && Total(s') < Total(s)
  {
    hide Mul, IsGroup, IsAbelian, Sum, Total;
    var u := BaseAndExponent(s[j].base, r);
    var v := BaseAndExponent(g.add(s[0].base, Mul(g, q, s[j].base)), s[0].exponent);
    DivisionConserves(g, s[0].base, s[0].exponent, s[j].base, q, r);
    Comm(g, Term(g, u), Term(g, v));
    Comm(g, Term(g, s[0]), Term(g, s[j]));
    Trade(g, s, j, 0, u, v);
  }

  /** A heap whose top is zero contributes nothing. */
  lemma {:induction false} ZeroSum<T(!new)>(g: Group<T>, s: seq<BaseAndExponent<T>>)
    requires IsGroup(g) && forall i :: 0 <= i < |s| ==> s[i].exponent == 0
    ensures Sum(g, s) == g.id
  {
    if s != [] {
      ZeroSum(g, s[..|s| - 1]);
      Unit(g, g.id);
    }
  }

  lemma LastRemains<T(!new)>(g: Group<T>, s: seq<BaseAndExponent<T>>)
    requires IsGroup(g) && |s| >= 2 && Heap(s, |s| - 1) && s[0].exponent == 0
    ensures Sum(g, s) == Term(g, s[|s| - 1])
  {
    hide IsGroup, Mul, Heap;
    var front := s[..|s| - 1];
    forall i: nat | i < |front|
      ensures front[i].exponent == 0
    {
      HeapTop(s, |s| - 1, i);
    }
    ZeroSum(g, front);
    Unit(g, Term(g, s[|s| - 1]));
  }

  /** Lowering the last entry and changing a base leaves the heap before it alone. */
  lemma HeapKept<T>(s: seq<BaseAndExponent<T>>, t: seq<BaseAndExponent<T>>, n: nat)
    requires Heap(s, n) && |t| == |s|
    requires forall i :: 0 <= i < n ==> t[i].exponent == s[i].exponent
    ensures Heap(t, n)
  {
    forall i: nat | 0 < i < n
      ensures Ordered(t, Parent(i), i)
    {
      assert Ordered(s, Parent(i), i);
    }
  }

  /** One division of the largest exponent by the next largest. */
  method Divide<T(!new)>(g: Group<T>, inversionIsFast: bool, wordBits: nat, a: array<BaseAndExponent<T>>)
    requires IsAbelian(g) && wordBits > 0 && a.Length >= 2 && Heap(a[..], a.Length - 1)
    requires 0 < a[0].exponent <= a[a.Length - 1].exponent
    modifies a
    ensures Heap(a[..], a.Length - 1)
    ensures Sum(g, a[..]) == Sum(g, old(a[..])) && Total(a[..]) < Total(old(a[..]))
  {
    hide IsGroup, Mul, Sum, Total, Heap;
    ghost var s := a[..];
    var last := a.Length - 1;
    var t, d := a[last].exponent, a[0].exponent;
    DivModIdentity(t, d);
    var q := t / d;
    a[last] := BaseAndExponent(a[last].base, t % d);
    QuotientPositive(t, d);
    if q == 1 {
      MulOne(g, a[last].base);
      a[0] := BaseAndExponent(g.add(a[0].base, a[last].base), a[0].exponent);
    } else {
      var m := ScalarMultiply(g, inversionIsFast, wordBits, a[last].base, q);
      a[0] := BaseAndExponent(g.add(a[0].base, m), a[0].exponent);
    }
    DivisionTrades(g, s, last, q, t % d);
    assert a[..] == s[last := BaseAndExponent(s[last].base, t % d)][0 := BaseAndExponent(g.add(s[0].base, Mul(g, q, s[last].base)), s[0].exponent)];
    HeapKept(s, a[..], last);
  }

  lemma QuotientPositive(t: nat, d: nat)
    requires 0 < d <= t
    ensures t / d > 0
  {
    DivModIdentity(t, d);
  }

  /** GeneralCascadeMultiplication: the sum of exponent * base over any non-empty list. */
  method GeneralCascadeMultiplication<T(!new)>(g: Group<T>, inversionIsFast: bool, wordBits: nat, a: array<BaseAndExponent<T>>) returns (r: T)
    requires IsAbelian(g) && wordBits > 0 && a.Length > 0
    modifies a
    ensures r == Sum(g, old(a[..]))
  {
    hide IsGroup, Mul, Sum, Total, Heap;
    if a.Length == 1 {
      SumOfOne(g, a[..]);
      r := ScalarMultiply(g, inversionIsFast, wordBits, a[0].base, a[0].exponent);
    } else if a.Length == 2 {
      SumOfTwo(g, a[..]);
      r := CascadeMultiplication.CascadeScalarMultiply(g, a[0].base, a[0].exponent, a[1].base, a[1].exponent);
    } else {
      MakeHeap(g, a);
      PopHeap(g, a);
      var last := a.Length - 1;
      while a[0].exponent != 0
        invariant Heap(a[..], last) && a[0].exponent <= a[last].exponent
        invariant Sum(g, a[..]) == Sum(g, old(a[..]))
        decreases Total(a[..])
      {
        Divide(g, inversionIsFast, wordBits, a);
        PushHeap(g, a, a.Length);
        PopHeap(g, a);
      }
      LastRemains(g, a[..]);
      r := ScalarMultiply(g, inversionIsFast, wordBits, a[last].base, a[last].exponent);
    }
  }

  lemma SumOfOne<T(!new)>(g: Group<T>, s: seq<BaseAndExponent<T>>)
    requires IsGroup(g) && |s| == 1
    ensures Sum(g, s) == Term(g, s[0])
  {
    Unit(g, Term(g, s[0]));
  }

  lemma SumOfTwo<T(!new)>(g: Group<T>, s: seq<BaseAndExponent<T>>)
    requires IsGroup(g) && |s| == 2
    ensures Sum(g, s) == g.add(Term(g, s[0]), Term(g, s[1]))
  {
    hide Mul, Term;
    SumOfOne(g, s[..1]);
  }
}
