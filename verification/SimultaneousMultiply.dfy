/** AbstractGroup::SimultaneousMultiply of algebra.cpp: windows scattered over buckets, buckets
    gathered with suffix sums. */
module SimultaneousMultiplication {
  import opened Powers
  import opened Groups
  import opened WindowSliders

  // ----- what the buckets are worth

  /** Sum of (2k+1) * c[k] for k >= from: the exponent the coefficients of the buckets stand for. */
  ghost function Weighted(c: seq<int>, from: nat): int
    requires from <= |c|
    decreases |c| - from
  {
    if from == |c| then 0 else (2 * from + 1) * c[from] + Weighted(c, from + 1)
  }

  ghost function Suffix(c: seq<int>, from: nat): int
    requires from <= |c|
    decreases |c| - from
  {
    if from == |c| then 0 else c[from] + Suffix(c, from + 1)
  }

  ghost function SuffixTotal(c: seq<int>, from: nat): int
    requires from <= |c|
    decreases |c| - from
  {
    if from == |c| then 0 else Suffix(c, from) + SuffixTotal(c, from + 1)
  }

  /** Summing suffix sums weights coefficient k by k: the identity behind the closing loop. */
  lemma {:induction false} SuffixSumsWeigh(c: seq<int>, from: nat)
    requires from < |c|
    ensures 2 * SuffixTotal(c, from + 1) + (2 * from + 1) * Suffix(c, from) == Weighted(c, from)
    decreases |c| - from
  {
    if from + 1 < |c| {
      SuffixSumsWeigh(c, from + 1);
      Distribute(2 * from + 1, c[from], Suffix(c, from + 1));
      Distribute3(from, Suffix(c, from + 1));
    } else {
      assert Suffix(c, from) == c[from];
    }
  }

  lemma Distribute(k: int, a: int, b: int)
    ensures k * (a + b) == k * a + k * b
  {
  }

  lemma Distribute3(k: int, a: int)
    ensures (2 * (k + 1) + 1) * a == 2 * a + (2 * k + 1) * a
  {
  }

  lemma {:induction false} WeightedUpdate(c: seq<int>, from: nat, k: nat, delta: int)
    requires from <= k < |c|
    ensures Weighted(c[k := c[k] + delta], from) == Weighted(c, from) + (2 * k + 1) * delta
    decreases k - from
  {
    var c' := c[k := c[k] + delta];
    if from == k {
      WeightedAgrees(c, c', k + 1);
      Distribute(2 * k + 1, c[k], delta);
    } else {
      WeightedUpdate(c, from + 1, k, delta);
    }
  }

  lemma {:induction false} WeightedAgrees(c: seq<int>, c': seq<int>, from: nat)
    requires |c| == |c'| && from <= |c|
    requires forall j :: from <= j < |c| ==> c[j] == c'[j]
    ensures Weighted(c, from) == Weighted(c', from)
    decreases |c| - from
  {
    if from < |c| { WeightedAgrees(c, c', from + 1); }
  }

  lemma {:induction false} WeightedZero(c: seq<int>, from: nat)
    requires from <= |c| && forall j :: 0 <= j < |c| ==> c[j] == 0
    ensures Weighted(c, from) == 0
    decreases |c| - from
  {
    if from < |c| { WeightedZero(c, from + 1); }
  }

  /** Bucket k holds the multiple c[k] of the base. */
  ghost predicate Holds<T>(g: Group<T>, base: T, bucket: seq<T>, c: seq<int>) {
    |bucket| == |c| && forall k :: 0 <= k < |c| ==> bucket[k] == Mul(g, c[k], base)
  }

  lemma LastOnly(c: seq<int>)
    requires |c| > 0
    ensures Suffix(c, |c| - 1) == c[|c| - 1] && SuffixTotal(c, |c| - 1) == c[|c| - 1]
    ensures |c| == 1 ==> Weighted(c, 0) == c[0]
  {
    assert Suffix(c, |c|) == 0 && SuffixTotal(c, |c|) == 0 && Weighted(c, |c|) == 0;
  }

  /** The closing loop over one row of buckets. */
  method Gather<T(!new)>(g: Group<T>, row: seq<T>, ghost base: T, ghost c: seq<int>) returns (r: T)
    requires IsGroup(g) && |row| > 0 && Holds(g, base, row, c)
    ensures r == Mul(g, Weighted(c, 0), base)
  {
    hide IsGroup, Mul, Weighted;
    var buckets := row;
    var n := |buckets|;
    r := buckets[n - 1];
    LastOnly(c);
    if n > 1 {
      var j := n - 2;
      while j >= 1
        invariant 0 <= j <= n - 2 && |buckets| == n
        invariant r == Mul(g, SuffixTotal(c, j + 1), base)
        invariant buckets[j + 1] == Mul(g, Suffix(c, j + 1), base)
        invariant forall k :: 0 <= k <= j ==> buckets[k] == Mul(g, c[k], base)
      {
        MulAdd(g, c[j], Suffix(c, j + 1), base);
        buckets := buckets[j := g.add(buckets[j], buckets[j + 1])];
        MulAdd(g, SuffixTotal(c, j + 1), Suffix(c, j), base);
        r := g.add(r, buckets[j]);
        j := j - 1;
      }
      MulAdd(g, c[0], Suffix(c, 1), base);
      buckets := buckets[0 := g.add(buckets[0], buckets[1])];
      MulDouble(g, SuffixTotal(c, 1), base);
      MulAdd(g, 2 * SuffixTotal(c, 1), Suffix(c, 0), base);
      r := g.add(g.add(r, r), buckets[0]);
      SuffixSumsWeigh(c, 0);
    }
  }

  // ----- scattering the windows

  /** One exponent's recoder and bucket row, with every window below position pos absorbed. */
  ghost predicate Tracks<T>(g: Group<T>, base: T, slider: WindowSlider, row: seq<T>, c: seq<int>, target: nat, pos: nat)
    reads slider
  {
    && slider.Valid() && !slider.firstTime && slider.exponent == target
    && Holds(g, base, row, c) && |row| == Pow2(slider.windowSize - 1)
    && (!slider.finished ==> pos <= slider.windowBegin && slider.expWindow % 2 == 1 && slider.expWindow < Pow2(slider.windowSize))
    && Weighted(c, 0) + slider.Outstanding() == target
  }

  lemma BucketIndex(window: nat, w: nat)
    requires w >= 1 && window % 2 == 1 && window < Pow2(w)
    ensures window / 2 < Pow2(w - 1) && window == 2 * (window / 2) + 1
  {
  }

  lemma DigitTimesPower(window: nat, negate: bool, pos: nat)
    requires window % 2 == 1
    ensures Shl(if negate then 0 - window else window, pos)
         == (2 * (window / 2) + 1) * (if negate then 0 - Pow2(pos) else Pow2(pos))
  {
    var odd := 2 * (window / 2) + 1;
    assert window == odd;
    ShlIsTimes(if negate then 0 - window else window, pos);
    assert (0 - odd) * Pow2(pos) == odd * (0 - Pow2(pos));
  }

  /** The body of the inner loop for one exponent: absorb the window that begins at this bit. */
  method Absorb<T(!new)>(g: Group<T>, ghost base: T, slider: WindowSlider, row: seq<T>, ghost c: seq<int>, power: T, pos: nat)
    returns (row': seq<T>, ghost c': seq<int>)
    requires IsGroup(g) && Tracks(g, base, slider, row, c, slider.exponent, pos)
    requires power == Mul(g, Pow2(pos), base)
    modifies slider
    ensures Tracks(g, base, slider, row', c', slider.exponent, pos + 1)
  {
    hide IsGroup, Mul, Pow2, Weighted;
    row', c' := row, c;
    if !slider.finished && pos == slider.windowBegin {
      var k := slider.expWindow / 2;
      BucketIndex(slider.expWindow, slider.windowSize);
      ghost var delta := if slider.negateNext then 0 - Pow2(pos) else Pow2(pos);
      MulNeg(g, Pow2(pos), base);
      MulAdd(g, c[k], delta, base);
      if slider.negateNext {
        row' := row[k := g.add(row[k], g.inv(power))];
      } else {
        row' := row[k := g.add(row[k], power)];
      }
      c' := c[k := c[k] + delta];
      WeightedUpdate(c, 0, k, delta);
      DigitTimesPower(slider.expWindow, slider.negateNext, pos);
      slider.FindNextWindow();
    }
  }

  // ----- the whole operation

  ghost predicate AllTrack<T>(g: Group<T>, base: T, sliders: seq<WindowSlider>, rows: seq<seq<T>>, cs: seq<seq<int>>,
                              exps: seq<nat>, done: nat, pos: nat)
    requires |sliders| == |rows| == |cs| == |exps|
    reads sliders
  {
    forall i :: 0 <= i < |exps| ==>
      Tracks(g, base, sliders[i], rows[i], cs[i], exps[i], if i < done then pos + 1 else pos)
  }

  ghost predicate Distinct(sliders: seq<WindowSlider>) {
    forall i, j :: 0 <= i < j < |sliders| ==> sliders[i] != sliders[j]
  }

  ghost function MaxBits(exps: seq<nat>): nat {
    if exps == [] then 0
    else var rest := MaxBits(exps[1..]); if BitCount(exps[0]) > rest then BitCount(exps[0]) else rest
  }

  lemma {:induction false} MaxBitsBounds(exps: seq<nat>, i: nat)
    requires i < |exps|
    ensures BitCount(exps[i]) <= MaxBits(exps)
  {
    if i > 0 { MaxBitsBounds(exps[1..], i - 1); }
  }

  /** Zero-filled buckets stand for the exponent zero. */
  lemma EmptyRow<T>(g: Group<T>, base: T, row: seq<T>, c: seq<int>)
    requires |row| == |c|
    requires (forall k :: 0 <= k < |row| ==> row[k] == g.id) && forall k :: 0 <= k < |c| ==> c[k] == 0
    ensures Holds(g, base, row, c) && Weighted(c, 0) == 0
  {
    WeightedZero(c, 0);
  }

  /** One turn of the first loop: a recoder primed with its first window, its buckets cleared. */
  method PrepareOne<T(!new)>(g: Group<T>, inversionIsFast: bool, ghost base: T, exp: nat, wordBits: nat)
    returns (slider: WindowSlider, row: seq<T>, ghost c: seq<int>)
    requires wordBits > 0
    ensures fresh(slider) && Tracks(g, base, slider, row, c, exp, 0)
  {
    hide Weighted, Pow2, Shl, BitCount, Value, Recodes, Holds;
    slider := new WindowSlider(exp, inversionIsFast, wordBits, 0);
    slider.FindNextWindow();
    row := seq(Pow2(slider.windowSize - 1), _ => g.id);
    c := seq(Pow2(slider.windowSize - 1), _ => 0);
    EmptyRow(g, base, row, c);
  }

  /** The first loop. */
  method Prepare<T(!new)>(g: Group<T>, inversionIsFast: bool, ghost base: T, exps: seq<nat>, wordBits: nat)
    returns (sliders: seq<WindowSlider>, rows: seq<seq<T>>, ghost cs: seq<seq<int>>)
    requires IsGroup(g) && wordBits > 0
    ensures |sliders| == |rows| == |cs| == |exps|
    ensures forall i :: 0 <= i < |sliders| ==> fresh(sliders[i])
    ensures Distinct(sliders) && AllTrack(g, base, sliders, rows, cs, exps, 0, 0)
  {
    hide IsGroup, Tracks;
    sliders, rows, cs := [], [], [];
    var i := 0;
    while i < |exps|
      invariant i == |sliders| == |rows| == |cs| <= |exps|
      invariant forall j :: 0 <= j < i ==> fresh(sliders[j])
      invariant Distinct(sliders) && AllTrack(g, base, sliders, rows, cs, exps[..i], 0, 0)
    {
      var slider, row;
      ghost var c;
      slider, row, c := PrepareOne(g, inversionIsFast, base, exps[i], wordBits);
      sliders, rows, cs := sliders + [slider], rows + [row], cs + [c];
      i := i + 1;
    }
    assert exps[..i] == exps;
  }

  lemma TracksExponent<T>(g: Group<T>, base: T, slider: WindowSlider, row: seq<T>, c: seq<int>, target: nat, pos: nat)
    requires Tracks(g, base, slider, row, c, target, pos)
    ensures slider.exponent == target
  {
  }

  /** One turn of the second loop: every window that begins at bit pos is absorbed. */
  method Sweep<T(!new)>(g: Group<T>, ghost base: T, sliders: seq<WindowSlider>, initial: seq<seq<T>>, ghost coefs: seq<seq<int>>,
                        ghost exps: seq<nat>, power: T, pos: nat)
    returns (rows: seq<seq<T>>, ghost cs: seq<seq<int>>, notDone: bool)
    requires IsGroup(g) && power == Mul(g, Pow2(pos), base)
    requires |sliders| == |initial| == |coefs| == |exps|
    requires Distinct(sliders) && AllTrack(g, base, sliders, initial, coefs, exps, 0, pos)
    modifies sliders
    ensures |rows| == |cs| == |exps| && AllTrack(g, base, sliders, rows, cs, exps, 0, pos + 1)
    ensures notDone <==> exists j :: 0 <= j < |sliders| && !sliders[j].finished
  {
    hide IsGroup, Mul, Pow2, Tracks;
    rows, cs, notDone := initial, coefs, false;
    var i := 0;
    while i < |sliders|
      invariant 0 <= i <= |sliders| && |rows| == |cs| == |exps|
      invariant AllTrack(g, base, sliders, rows, cs, exps, i, pos)
      invariant notDone <==> exists j :: 0 <= j < i && !sliders[j].finished
    {
      ghost var c;
      var row;
      TracksExponent(g, base, sliders[i], rows[i], cs[i], exps[i], pos);
      row, c := Absorb(g, base, sliders[i], rows[i], cs[i], power, pos);
      rows, cs := rows[i := row], cs[i := c];
      notDone := notDone || !sliders[i].finished;
      i := i + 1;
    }
  }

  /** An unfinished recoder's window lies within its exponent's bits. */
  lemma WindowWithinBits<T>(g: Group<T>, base: T, sliders: seq<WindowSlider>, rows: seq<seq<T>>, cs: seq<seq<int>>, exps: seq<nat>, j: nat, pos: nat)
    requires |sliders| == |rows| == |cs| == |exps| && j < |exps|
    requires AllTrack(g, base, sliders, rows, cs, exps, 0, pos) && !sliders[j].finished
    ensures pos <= MaxBits(exps)
  {
    hide Mul, Weighted, Holds, Shl, BitCount, Recodes, Pow2;
    assert Tracks(g, base, sliders[j], rows[j], cs[j], exps[j], pos);
    MaxBitsBounds(exps, j);
  }

  /** With every recoder finished the buckets carry the whole exponents. */
  lemma AllAbsorbed<T>(g: Group<T>, base: T, sliders: seq<WindowSlider>, rows: seq<seq<T>>, cs: seq<seq<int>>, exps: seq<nat>, pos: nat)
    requires |sliders| == |rows| == |cs| == |exps|
    requires AllTrack(g, base, sliders, rows, cs, exps, 0, pos)
    requires forall j :: 0 <= j < |exps| ==> sliders[j].finished
    ensures forall i :: 0 <= i < |exps| ==> Holds(g, base, rows[i], cs[i]) && |rows[i]| > 0 && Weighted(cs[i], 0) == exps[i]
  {
    hide Mul, Weighted, Holds, Shl, BitCount, Recodes, Pow2, WindowSlider.Valid;
    forall i | 0 <= i < |exps|
      ensures Holds(g, base, rows[i], cs[i]) && |rows[i]| > 0 && Weighted(cs[i], 0) == exps[i]
    {
      assert Tracks(g, base, sliders[i], rows[i], cs[i], exps[i], pos);
    }
  }

  /** The second loop: doubles g bit by bit and absorbs every window at its position. */
  method Scatter<T(!new)>(g: Group<T>, base: T, sliders: seq<WindowSlider>, initial: seq<seq<T>>, ghost coefs: seq<seq<int>>, ghost exps: seq<nat>)
    returns (rows: seq<seq<T>>, ghost cs: seq<seq<int>>, ghost doublings: nat)
    requires IsGroup(g)
    requires |sliders| == |initial| == |coefs| == |exps|
    requires Distinct(sliders) && AllTrack(g, base, sliders, initial, coefs, exps, 0, 0)
    modifies sliders
    ensures |rows| == |cs| == |exps|
    ensures forall i :: 0 <= i < |exps| ==> Holds(g, base, rows[i], cs[i]) && |rows[i]| > 0 && Weighted(cs[i], 0) == exps[i]
    ensures doublings <= MaxBits(exps)
  {
    hide IsGroup, Mul, Pow2, Weighted, Holds, MaxBits, Tracks, AllTrack, Distinct;
    rows, cs, doublings := initial, coefs, 0;
    var expBitPosition := 0;
    var power := base;
    var notDone := true;
    MulOnce(g, base);
    while notDone
      invariant |rows| == |cs| == |exps| && doublings == expBitPosition <= MaxBits(exps)
      invariant power == Mul(g, Pow2(expBitPosition), base)
      invariant AllTrack(g, base, sliders, rows, cs, exps, 0, if notDone then expBitPosition else expBitPosition + 1)
      invariant !notDone ==> forall j :: 0 <= j < |exps| ==> sliders[j].finished
      decreases MaxBits(exps) - expBitPosition, notDone
    {
      rows, cs, notDone := Sweep(g, base, sliders, rows, cs, exps, power, expBitPosition);
      if notDone {
        ghost var j :| 0 <= j < |sliders| && !sliders[j].finished;
        WindowWithinBits(g, base, sliders, rows, cs, exps, j, expBitPosition + 1);
        MulDouble(g, Pow2(expBitPosition), base);
        Pow2Succ(expBitPosition);
        power := g.add(power, power);
        expBitPosition := expBitPosition + 1;
        doublings := doublings + 1;
      }
    }
    AllAbsorbed(g, base, sliders, rows, cs, exps, expBitPosition + 1);
  }

  /** results[i] == exps[i] * base, for every list of exponents in every group. */
  method SimultaneousMultiply<T(!new)>(g: Group<T>, inversionIsFast: bool, base: T, exps: seq<nat>, wordBits: nat)
    returns (results: seq<T>)
    requires IsGroup(g) && wordBits > 0
    ensures |results| == |exps|
    ensures forall i :: 0 <= i < |exps| ==> results[i] == Mul(g, exps[i], base)
  {
    hide IsGroup, Mul, Weighted, Holds, Tracks, AllTrack, Distinct, MaxBits;
    var sliders, initial, coefs := Prepare(g, inversionIsFast, base, exps, wordBits);
    var buckets, cs, _ := Scatter(g, base, sliders, initial, coefs, exps);
    results := [];
    var i := 0;
    while i < |exps|
      invariant 0 <= i <= |exps| && |results| == i
      invariant forall j :: 0 <= j < i ==> results[j] == Mul(g, exps[j], base)
    {
      var r := Gather(g, buckets[i], base, cs[i]);
      results := results + [r];
      i := i + 1;
    }
  }

  lemma Pow2Succ(k: nat)
    ensures Pow2(k + 1) == 2 * Pow2(k)
  {
  }

  lemma MulOnce<T(!new)>(g: Group<T>, base: T)
    requires IsGroup(g)
    ensures Mul(g, Pow2(0), base) == base
  {
    MulOne(g, base);
  }
}
