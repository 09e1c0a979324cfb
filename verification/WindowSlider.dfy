/** The signed sliding-window recoder of algebra.cpp. */
module WindowSliders {
  import opened Powers

  /** One emitted window: a signed digit and the bit position it is worth. */
  datatype Window = Window(digit: int, begin: nat)

  ghost function Value(ws: seq<Window>): int
  {
    if ws == [] then 0
    else Value(ws[..|ws| - 1]) + Shl(ws[|ws| - 1].digit, ws[|ws| - 1].begin)
  }

  /** Digits are odd and below 2^size in magnitude. */
  ghost predicate OddDigits(ws: seq<Window>, size: nat) {
    forall i :: 0 <= i < |ws| ==> 0 - Pow2(size) < ws[i].digit < Pow2(size) && ws[i].digit % 2 == 1
  }

  /** Neighbouring windows start at least gap bits apart. */
  ghost predicate Separated(ws: seq<Window>, gap: nat) {
    forall i :: 0 < i < |ws| ==> ws[i - 1].begin + gap <= ws[i].begin
  }

  /** The windows so far and the rest still to come add up to the exponent. */
  ghost predicate Recodes(ws: seq<Window>, size: nat, gap: nat, exponent: nat, rest: int) {
    exponent == Value(ws) + rest && OddDigits(ws, size) && Separated(ws, gap)
  }

  /** Integer::WordCount: words of wordBits bits needed for n. */
  function WordCount(n: nat, wordBits: nat): nat
    requires wordBits > 0
  {
    (BitCount(n) + wordBits - 1) / wordBits
  }

  lemma WordsCoverBits(n: nat, wordBits: nat)
    requires wordBits > 0
    ensures BitCount(n) <= WordCount(n, wordBits) * wordBits
  {
    DivModIdentity(BitCount(n) + wordBits - 1, wordBits);
  }

  /** The window size the constructor picks for a given exponent length. */
  function DefaultWindowSize(expLen: nat): (w: nat)
    ensures 1 <= w <= 7
  {
    if expLen <= 17 then 1 else if expLen <= 24 then 2 else if expLen <= 70 then 3
    else if expLen <= 197 then 4 else if expLen <= 539 then 5 else if expLen <= 1434 then 6 else 7
  }

  /** One more for each of the six lengths that is exceeded. */
  lemma DefaultWindowSizes(expLen: nat)
    ensures DefaultWindowSize(expLen) == 1 + Exceeds(expLen, 17) + Exceeds(expLen, 24) + Exceeds(expLen, 70)
      + Exceeds(expLen, 197) + Exceeds(expLen, 539) + Exceeds(expLen, 1434)
  {
  }

  function Exceeds(n: nat, border: nat): nat {
    if n > border then 1 else 0
  }

  /** Rounding up to the next multiple of 2^w stays within the same power of two. */
  lemma {:induction false} RoundUpFits(n: nat, w: nat, d: nat)
    requires n < Shl(1, d) && Shr(n, w) > 0
    ensures Shl(Shr(n, w) + 1, w) <= Shl(1, d)
  {
    if w > 0 {
      assert Shr(n, w) == Shr(n / 2, w - 1);
      ShrOfZero(w - 1);
      RoundUpFits(n / 2, w - 1, d - 1);
    }
  }

  /** The recoder. The ghost history lists every window it has produced so far. */
  class WindowSlider {
    var exp: nat
    var windowModulus: nat
    var windowSize: nat
    var windowBegin: nat
    var expWindow: nat
    var fastNegate: bool
    var negateNext: bool
    var firstTime: bool
    var finished: bool
    const wordBits: nat
    ghost const exponent: nat
    ghost var windows: seq<Window>

    /** The part of exp that no window has covered yet. */
    ghost function Pending(): nat
      reads this
    {
      if firstTime then exp else Shr(exp, windowSize)
    }

    /** The bit position Pending() counts from. */
    ghost function Position(): nat
      reads this
    {
      if firstTime then 0 else windowBegin + windowSize
    }

    ghost function Remaining(): nat
      reads this
    {
      Shl(Pending(), Position())
    }

    function SignedDigit(): int
      reads this
    {
      if negateNext then 0 - expWindow else expWindow
    }

    /** The current window together with everything after it. */
    ghost function Outstanding(): int
      reads this
    {
      if finished then 0 else Shl(SignedDigit(), windowBegin) + Remaining()
    }

    /** Distance the recoding keeps between windows: one more bit when negation is used. */
    ghost function Gap(): nat
      reads this
    {
      if fastNegate then windowSize + 1 else windowSize
    }

    ghost predicate Valid()
      reads this
    {
      && wordBits > 0 && windowSize >= 1 && windowModulus == Pow2(windowSize)
      && (firstTime ==> windowBegin == 0 && windows == [] && !finished)
      && (finished ==> Pending() == 0)
      && (!firstTime && !finished ==>
            && windows != [] && windows[|windows| - 1] == Window(SignedDigit(), windowBegin)
            && (fastNegate ==> Pending() % 2 == 0))
      && (!finished ==> windowBegin <= BitCount(exponent))
      && Remaining() <= Shl(1, BitCount(exponent))
      && Recodes(windows, windowSize, Gap(), exponent, Remaining())
    }

    constructor (expIn: nat, fastNegate: bool, wordBits: nat, windowSizeIn: nat)
      requires wordBits > 0
      ensures Valid() && firstTime && exponent == expIn && windows == []
      ensures this.fastNegate == fastNegate
      ensures windowSize == if windowSizeIn == 0 then DefaultWindowSize(BitCount(expIn)) else windowSizeIn
      ensures Remaining() == expIn
    {
      exp, exponent := expIn, expIn;
      this.wordBits := wordBits;
      windowBegin, expWindow := 0, 0;
      this.fastNegate := fastNegate;
      negateNext, firstTime, finished := false, true, false;
      var size := if windowSizeIn == 0 then DefaultWindowSize(BitCount(expIn)) else windowSizeIn;
      windowSize := size;
      windowModulus := 1 * Pow2(size);
      windows := [];
      BitCountBounds(expIn);
      ShlOne(BitCount(expIn));
    }

    /** The inner loop: skips zero bits of exp from position start on. */
    method SkipZeros(start: nat) returns (skipCount: nat, found: bool)
      requires wordBits > 0
      ensures start <= skipCount
      ensures found ==> Shr(exp, skipCount) % 2 == 1
      ensures found ==> Shr(exp, start) == Shl(Shr(exp, skipCount), skipCount - start)
      ensures !found ==> Shr(exp, start) == 0
    {
      hide Pow2, Low, BitCount, Shr, Shl, WordCount;
      var expLen := WordCount(exp, wordBits) * wordBits;
      WordsCoverBits(exp, wordBits);
      skipCount := start;
      ShlByZero(Shr(exp, start));
      while GetBit(exp, skipCount) == 0
        invariant start <= skipCount
        invariant Shr(exp, start) == Shl(Shr(exp, skipCount), skipCount - start)
        decreases expLen - skipCount
      {
        if skipCount >= expLen {
          ShiftedOut(exp, skipCount);
          ShlOfZero(skipCount - start);
          return skipCount, false;
        }
        ShrStep(exp, skipCount);
        ShlFactor(Shr(exp, skipCount + 1), skipCount - start);
        skipCount := skipCount + 1;
      }
      found := true;
    }

    /** Shifts exp down to its next set bit and cuts a window off it. */
    method Emit(skipCount: nat)
      requires Valid() && (if firstTime then 0 else windowSize) <= skipCount
      requires Shr(exp, skipCount) % 2 == 1
      requires Pending() == Shl(Shr(exp, skipCount), skipCount - if firstTime then 0 else windowSize)
      modifies this
      ensures Valid() && !firstTime && !finished
      ensures windowSize == old(windowSize) && fastNegate == old(fastNegate)
      ensures old(Remaining()) > 0 && Outstanding() == old(Remaining())
      ensures Pending() < old(Pending())
      ensures old(Position()) <= windowBegin && expWindow % 2 == 1 && expWindow < Pow2(windowSize)
      ensures windows == old(windows) + [Window(SignedDigit(), windowBegin)]
    {
      hide Pow2, Low, BitCount, Value, Shr, Shl, Recodes, GetBit, Digit, Next;
      ShlOfZero(Position());
      ShrOfZero(windowSize);
      var rest := Shr(exp, skipCount);
      var negate := fastNegate && GetBit(rest, windowSize) == 1;
      var window := if negate then Pow2(windowSize) - Low(rest, windowSize) else Low(rest, windowSize);
      WindowFacts(Pending(), rest, if firstTime then 0 else windowSize, skipCount, Position(), windowSize, negate, BitCount(exponent));
      ghost var w := Window(Digit(rest, windowSize, negate), windowBegin + skipCount);
      HistoryGrows(windows, w, windowSize, Gap(), exponent, Remaining(),
                   Shl(Next(rest, windowSize, negate), windowBegin + skipCount + windowSize));
      firstTime, exp, windowBegin, expWindow, negateNext, windows :=
        false, if negate then rest + windowModulus else rest, windowBegin + skipCount, window, negate, windows + [w];
    }

    /** Produces the next window, or finishes when nothing is left. */
    method FindNextWindow()
      requires Valid()
      modifies this
      ensures Valid() && !firstTime
      ensures windowSize == old(windowSize) && fastNegate == old(fastNegate)
      ensures finished <==> old(Remaining()) == 0
      ensures Outstanding() == old(Remaining())
      ensures !finished ==> Pending() < old(Pending())
      ensures !finished ==> old(Position()) <= windowBegin && expWindow % 2 == 1 && expWindow < Pow2(windowSize)
      ensures windows == old(windows) + if finished then [] else [Window(SignedDigit(), windowBegin)]
    {
      hide Pow2, Low, BitCount, Value, Shr, Shl, Recodes;
      ShrByZero(exp);
      var skipCount, found := SkipZeros(if firstTime then 0 else windowSize);
      if !found {
        firstTime, finished := false, true;
        ShlOfZero(old(Position()));
        ShrOfZero(windowSize);
        ShlOfZero(Position());
        return;
      }
      Emit(skipCount);
    }
  }

  /** Running the recoder to its end: odd signed digits, spaced by the window size (one more when
      negation is used), whose shifted sum is the exponent; at most one per bit position. */
  method RecodeAll(exponent: nat, fastNegate: bool, wordBits: nat, windowSize: nat) returns (windows: seq<Window>)
    requires wordBits > 0
    ensures var size := if windowSize == 0 then DefaultWindowSize(BitCount(exponent)) else windowSize;
            && Value(windows) == exponent
            && OddDigits(windows, size) && Separated(windows, if fastNegate then size + 1 else size)
  {
    hide BitCount, DefaultWindowSize, Recodes, Value, OddDigits, Separated;
    var slider := new WindowSlider(exponent, fastNegate, wordBits, windowSize);
    slider.FindNextWindow();
    windows := [];
    while !slider.finished
      invariant slider.Valid() && !slider.firstTime && fresh(slider) && slider.exponent == exponent
      invariant slider.fastNegate == fastNegate
      invariant slider.windowSize == if windowSize == 0 then DefaultWindowSize(BitCount(exponent)) else windowSize
      invariant slider.windows == windows + if slider.finished then [] else [Window(slider.SignedDigit(), slider.windowBegin)]
      decreases if slider.finished then 0 else 1 + slider.Pending()
    {
      windows := windows + [Window(slider.SignedDigit(), slider.windowBegin)];
      slider.FindNextWindow();
    }
    assert slider.windows == windows;
    RecodingDone(slider);
  }

  lemma RecodingDone(slider: WindowSlider)
    requires slider.Valid() && slider.finished
    ensures Value(slider.windows) == slider.exponent
    ensures OddDigits(slider.windows, slider.windowSize) && Separated(slider.windows, slider.Gap())
  {
    hide Value, OddDigits, Separated;
    ShlOfZero(slider.Position());
  }

  /** Everything one window establishes about the number it is cut from. */
  lemma WindowFacts(pending: nat, rest: nat, start: nat, skipCount: nat, position: nat, w: nat, negate: bool, limit: nat)
    requires w >= 1 && start <= skipCount
    requires pending == Shl(rest, skipCount - start) && rest % 2 == 1
    requires Shl(pending, position) <= Shl(1, limit)
    requires negate ==> GetBit(rest, w) == 1
    ensures var begin := position + skipCount - start;
            && Shl(pending, position) == Shl(Digit(rest, w, negate), begin) + Shl(Next(rest, w, negate), begin + w)
            && Shl(Next(rest, w, negate), begin + w) <= Shl(1, limit) && begin <= limit
            && Shl(pending, position) > 0
    ensures Next(rest, w, negate) < pending
    ensures Shr(if negate then rest + Pow2(w) else rest, w) == Next(rest, w, negate)
    ensures Next(rest, w, negate) % 2 == if negate then 0 else GetBit(rest, w)
    ensures Digit(rest, w, negate) % 2 == 1 && 0 - Pow2(w) < Digit(rest, w, negate) < Pow2(w)
    ensures var m := if negate then Pow2(w) - Low(rest, w) else Low(rest, w);
            m % 2 == 1 && 0 < m < Pow2(w) && Digit(rest, w, negate) == if negate then 0 - m else m
  {
    hide Pow2, Low, Shr, Shl;
    var begin := position + skipCount - start;
    ShlShl(rest, skipCount - start, position);
    ShlGrows(rest, skipCount - start);
    CarryShifts(rest, w);
    TakeWindow(rest, w, negate, begin);
    DigitOdd(rest, w, negate);
    NextSmaller(rest, w, negate);
    NextFits(rest, w, negate, begin, limit);
  }

  lemma {:induction false} ShlGrows(x: nat, k: nat)
    ensures x <= Shl(x, k)
  {
    if k > 0 { ShlGrows(x, k - 1); }
  }

  lemma {:induction false} ShlFactor(x: int, k: nat)
    ensures Shl(2 * x, k) == Shl(x, k + 1)
  {
    if k > 0 { ShlFactor(x, k - 1); }
  }

  lemma HistoryGrows(ws: seq<Window>, w: Window, size: nat, gap: nat, exponent: nat, rest: int, rest': int)
    requires Recodes(ws, size, gap, exponent, rest)
    requires rest == Shl(w.digit, w.begin) + rest'
    requires 0 - Pow2(size) < w.digit < Pow2(size) && w.digit % 2 == 1
    requires ws != [] ==> ws[|ws| - 1].begin + gap <= w.begin
    ensures Recodes(ws + [w], size, gap, exponent, rest')
  {
    hide Pow2, Shl, Value;
    ValueAppend(ws, w);
  }

  lemma ValueAppend(ws: seq<Window>, w: Window)
    ensures Value(ws + [w]) == Value(ws) + Shl(w.digit, w.begin)
  {
    assert (ws + [w])[..|ws|] == ws;
  }

  /** The signed digit a window of n yields, and what is left above it. */
  function Digit(n: nat, w: nat, negate: bool): int {
    if negate then Low(n, w) - Pow2(w) else Low(n, w)
  }

  function Next(n: nat, w: nat, negate: bool): nat {
    if negate then Shr(n, w) + 1 else Shr(n, w)
  }

  lemma DigitAndNext(n: nat, w: nat, negate: bool)
    ensures n == Digit(n, w, negate) + Shl(Next(n, w, negate), w)
  {
    Split(n, w);
    ShlAdd(Shr(n, w), 1, w);
    ShlOne(w);
  }

  lemma DigitOdd(n: nat, w: nat, negate: bool)
    requires w >= 1 && n % 2 == 1
    ensures Digit(n, w, negate) % 2 == 1 && Low(n, w) > 0
    ensures var m := if negate then Pow2(w) - Low(n, w) else Low(n, w); m % 2 == 1 && 0 < m < Pow2(w)
    ensures 0 - Pow2(w) < Digit(n, w, negate) < Pow2(w)
  {
    OddLow(n, w);
    var a: int, b: int := Low(n / 2, w - 1), Pow2(w - 1);
    OddDifference(a, b);
  }

  lemma OddLow(n: nat, w: nat)
    requires w >= 1 && n % 2 == 1
    ensures Low(n, w) == 2 * Low(n / 2, w - 1) + 1 && Pow2(w) == 2 * Pow2(w - 1)
  {
  }

  lemma OddDifference(a: int, b: int)
    ensures (2 * a + 1 - 2 * b) % 2 == 1 && (2 * b - (2 * a + 1)) % 2 == 1 && (2 * a + 1) % 2 == 1
  {
    OddForm(a);
    OddForm(b - a - 1);
    assert 2 * b - (2 * a + 1) == 2 * (b - a - 1) + 1;
    OddForm(a - b);
    assert 2 * a + 1 - 2 * b == 2 * (a - b) + 1;
  }

  lemma OddForm(k: int)
    ensures (2 * k + 1) % 2 == 1
  {
  }

  /** Adding the window modulus is what carries into the next window. */
  lemma CarryShifts(n: nat, w: nat)
    ensures Shr(n + Pow2(w), w) == Next(n, w, true)
  {
    Split(n, w);
    ShlAdd(Shr(n, w), 1, w);
    ShlOne(w);
    SplitUnique(n + Pow2(w), w, Shr(n, w) + 1, Low(n, w));
  }

  /** One window of n at position begin: the digit plus what is left over is n. */
  lemma TakeWindow(n: nat, w: nat, negate: bool, begin: nat)
    ensures Shl(n, begin) == Shl(Digit(n, w, negate), begin) + Shl(Next(n, w, negate), begin + w)
  {
    DigitAndNext(n, w, negate);
    ShlAdd(Digit(n, w, negate), Shl(Next(n, w, negate), w), begin);
    ShlShl(Next(n, w, negate), w, begin);
  }

  lemma NextSmaller(n: nat, w: nat, negate: bool)
    requires w >= 1 && n % 2 == 1
    requires negate ==> Shr(n, w) > 0
    ensures Next(n, w, negate) < n
  {
    ShrSmaller(n, w);
  }

  /** What is left over still fits in 2^limit. */
  lemma NextFits(n: nat, w: nat, negate: bool, begin: nat, limit: nat)
    requires w >= 1 && n % 2 == 1
    requires negate ==> Shr(n, w) > 0
    requires Shl(n, begin) <= Shl(1, limit)
    ensures begin <= limit
    ensures Shl(Next(n, w, negate), begin + w) <= Shl(1, limit)
  {
    ShlMonotone(1, n, begin);
    ShlExceeds(begin, limit);
    var d := limit - begin;
    ShlShl(1, d, begin);
    ShlMonotone(n, Shl(1, d), begin);
    var next := Next(n, w, negate);
    if negate {
      ShrSmaller(n, w);
      RoundUpFits(n, w, d);
    } else {
      Split(n, w);
    }
    ShlMonotone(Shl(next, w), Shl(1, d), begin);
    ShlShl(next, w, begin);
  }

  lemma {:induction false} ShrSmaller(n: nat, w: nat)
    requires w >= 1
    ensures 2 * Shr(n, w) <= n
  {
    if w > 1 { ShrSmaller(n / 2, w - 1); }
    assert Shr(n, w) == Shr(n / 2, w - 1);
  }

  lemma {:induction false} ShlExceeds(i: nat, j: nat)
    requires Shl(1, i) <= Shl(1, j)
    ensures i <= j
  {
    ShlOne(i);
    ShlOne(j);
    Pow2Exceeds(i, j);
  }
}
