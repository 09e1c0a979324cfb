/** AbstractGroup::CascadeScalarMultiply of algebra.cpp: e1*x + e2*y with one shared run of doublings
    and a table of small combinations. */
module CascadeMultiplication {
  import opened Powers
  import opened Groups

  /** a*x + b*y. */
  ghost function Combo<T>(g: Group<T>, x: T, y: T, a: int, b: int): T {
    g.add(Mul(g, a, x), Mul(g, b, y))
  }

  lemma ComboAdd<T(!new)>(g: Group<T>, x: T, y: T, a: int, b: int, c: int, d: int)
    requires IsAbelian(g)
    ensures g.add(Combo(g, x, y, a, b), Combo(g, x, y, c, d)) == Combo(g, x, y, a + c, b + d)
  {
    hide Mul;
    Interchange(g, Mul(g, a, x), Mul(g, b, y), Mul(g, c, x), Mul(g, d, y));
    MulAdd(g, a, c, x);
    MulAdd(g, b, d, y);
  }

  lemma ComboUnits<T(!new)>(g: Group<T>, x: T, y: T)
    requires IsAbelian(g)
    ensures Combo(g, x, y, 1, 0) == x && Combo(g, x, y, 0, 1) == y && Combo(g, x, y, 1, 1) == g.add(x, y)
    ensures Combo(g, x, y, 2, 0) == g.add(x, x) && Combo(g, x, y, 0, 2) == g.add(y, y)
  {
    MulOne(g, x);
    MulOne(g, y);
    Unit(g, x);
    Unit(g, y);
    ComboAdd(g, x, y, 1, 0, 1, 0);
    ComboAdd(g, x, y, 0, 1, 0, 1);
  }

  // ----- the table

  /** The table index of c*x + r*y: (r << w) + c. */
  function At(w: nat, c: nat, r: nat): nat {
    Shl(r, w) + c
  }

  lemma AtInjective(w: nat)
    ensures forall c, r, c', r' :: 0 <= c < Pow2(w) && 0 <= r && 0 <= c' < Pow2(w) && 0 <= r' && At(w, c, r) == At(w, c', r') ==> c == c' && r == r'
  {
    hide At, Pow2, Shl;
    forall c: nat, r: nat, c': nat, r': nat | c < Pow2(w) && c' < Pow2(w) && At(w, c, r) == At(w, c', r')
      ensures c == c' && r == r'
    {
      AtDetermines(w, c, r, c', r');
    }
  }

  lemma AtDetermines(w: nat, c: nat, r: nat, c': nat, r': nat)
    requires c < Pow2(w) && c' < Pow2(w) && At(w, c, r) == At(w, c', r')
    ensures c == c' && r == r'
  {
    hide Pow2, Shl;
    SplitUnique(At(w, c, r), w, r, c);
    SplitUnique(At(w, c, r), w, r', c');
  }

  lemma AtBounds(w: nat, c: nat, r: nat)
    requires c < Pow2(w) && r < Pow2(w)
    ensures At(w, c, r) < Shl(Pow2(w), w)
    ensures At(w, c, r) + Pow2(w) == At(w, c, r + 1)
    ensures At(w, c, 0) == c && At(w, 0, 1) == Pow2(w) && At(w, 0, 2) == 2 * Pow2(w)
  {
    hide Pow2, Shl;
    ShlAdd(r, 1, w);
    ShlOne(w);
    ShlAdd(0, 0, w);
    ShlAdd(1, 1, w);
    ShlMonotone(r + 1, Pow2(w), w);
  }

  /** Slot (c, r) of the table is correct. */
  ghost predicate Slot<T>(g: Group<T>, x: T, y: T, w: nat, table: array<T>, c: nat, r: nat)
    reads table
  {
    At(w, c, r) < table.Length && table[At(w, c, r)] == Combo(g, x, y, c, r)
  }

  /** Every slot that satisfies want is correct. */
  ghost predicate Filled<T>(g: Group<T>, x: T, y: T, w: nat, table: array<T>, want: (nat, nat) -> bool)
    reads table
  {
    && table.Length == Shl(Pow2(w), w)
    && forall c: nat, r: nat :: c < Pow2(w) && r < Pow2(w) && want(c, r) ==> Slot(g, x, y, w, table, c, r)
  }

  /** table[j] = value: adds slot (c, r) to the correct ones and disturbs no other. */
  method Store<T(!new)>(g: Group<T>, ghost x: T, ghost y: T, w: nat, table: array<T>, j: nat, value: T,
                        ghost c: nat, ghost r: nat, ghost have: (nat, nat) -> bool, ghost want: (nat, nat) -> bool)
    requires Filled(g, x, y, w, table, have) && c < Pow2(w) && r < Pow2(w)
    requires j == At(w, c, r) && value == Combo(g, x, y, c, r)
    requires forall a: nat, b: nat :: want(a, b) ==> have(a, b) || (a == c && b == r)
    modifies table
    ensures Filled(g, x, y, w, table, want)
  {
    hide At, Combo, Pow2, Shl;
    AtBounds(w, c, r);
    AtInjective(w);
    ghost var before := table[..];
    table[j] := value;
    forall a: nat, b: nat | a < Pow2(w) && b < Pow2(w) && want(a, b)
      ensures Slot(g, x, y, w, table, a, b)
    {
      if !(a == c && b == r) {
        assert old(Slot(g, x, y, w, table, a, b));
      }
    }
  }

  // The stages of filling, as sets of slots: first row up to column i, odd columns up to (i, k),
  // first column up to row k, odd rows up to (i, k), and finally every slot not both even.

  ghost function FirstRow(i: nat): (nat, nat) -> bool {
    (c, r) => (c % 2 == 1 && c < i && r == 0) || (c == 2 && r == 0) || (c == 0 && (r == 1 || r == 2))
  }

  ghost function OddColumns(i: nat, k: nat): (nat, nat) -> bool {
    (c, r) => (c % 2 == 1 && (c < i || (c == i && r < k) || r == 0)) || (c == 0 && (r == 1 || r == 2))
  }

  ghost function FirstColumn(k: nat): (nat, nat) -> bool {
    (c, r) => c % 2 == 1 || (c == 0 && (r == 2 || (r % 2 == 1 && r < k)))
  }

  ghost function OddRows(i: nat, k: nat): (nat, nat) -> bool {
    (c, r) => c % 2 == 1 || (c == 0 && r % 2 == 1) || (r % 2 == 1 && (r < k || (r == k && c < i)))
  }

  ghost function NotBothEven(): (nat, nat) -> bool {
    (c, r) => c % 2 == 1 || r % 2 == 1
  }

  /** Fewer slots wanted than held. */
  lemma Weaken<T>(g: Group<T>, x: T, y: T, w: nat, table: array<T>, have: (nat, nat) -> bool, want: (nat, nat) -> bool)
    requires Filled(g, x, y, w, table, have)
    requires forall c: nat, r: nat :: c < Pow2(w) && r < Pow2(w) && want(c, r) ==> have(c, r)
    ensures Filled(g, x, y, w, table, want)
  {
    hide Slot, Pow2, Shl;
  }

  /** Odd multiples of x along the first row. */
  method FillFirstRow<T(!new)>(g: Group<T>, x: T, y: T, w: nat, table: array<T>)
    requires IsAbelian(g) && w >= 2
    requires Filled(g, x, y, w, table, FirstRow(3))
    modifies table
    ensures Filled(g, x, y, w, table, OddColumns(1, 1))
  {
    hide At, Combo, Pow2, Shl, IsGroup, IsAbelian, Mul, Filled;
    FourAtLeast(w);
    var i := 3;
    while i < Pow2(w)
      invariant i % 2 == 1 && i >= 3
      invariant Filled(g, x, y, w, table, FirstRow(i))
    {
      AtBounds(w, i, 0);
      AtBounds(w, i - 2, 0);
      AtBounds(w, 2, 0);
      HasSlot(g, x, y, w, table, FirstRow(i), i - 2, 0);
      HasSlot(g, x, y, w, table, FirstRow(i), 2, 0);
      ComboAdd(g, x, y, i - 2, 0, 2, 0);
      Store(g, x, y, w, table, i, g.add(table[i - 2], table[2]), i, 0, FirstRow(i), FirstRow(i + 2));
      i := i + 2;
    }
    Weaken(g, x, y, w, table, FirstRow(i), OddColumns(1, 1));
  }

  lemma HasSlot<T>(g: Group<T>, x: T, y: T, w: nat, table: array<T>, have: (nat, nat) -> bool, c: nat, r: nat)
    requires Filled(g, x, y, w, table, have) && have(c, r) && c < Pow2(w) && r < Pow2(w)
    ensures Slot(g, x, y, w, table, c, r)
  {
  }

  /** Up each odd column by adding y. */
  method FillOddColumns<T(!new)>(g: Group<T>, x: T, y: T, w: nat, table: array<T>)
    requires IsAbelian(g) && w >= 2
    requires Filled(g, x, y, w, table, OddColumns(1, 1))
    modifies table
    ensures Filled(g, x, y, w, table, FirstColumn(3))
  {
    hide At, Combo, Pow2, Shl, IsGroup, IsAbelian, Mul, Filled;
    FourAtLeast(w);
    var tableSize := Pow2(w);
    var i := 1;
    while i < tableSize
      invariant i % 2 == 1
      invariant Filled(g, x, y, w, table, OddColumns(i, 1))
    {
      var j := i + tableSize;
      ghost var k := 1;
      AtBounds(w, i, 0);
      while j < Shl(tableSize, w)
        invariant j == At(w, i, k) && k >= 1
        invariant Filled(g, x, y, w, table, OddColumns(i, k))
        decreases Shl(tableSize, w) - j
      {
        RowInRange(w, i, k);
        AtBounds(w, i, k);
        AtBounds(w, i, k - 1);
        HasSlot(g, x, y, w, table, OddColumns(i, k), i, k - 1);
        ComboUnits(g, x, y);
        ComboAdd(g, x, y, i, k - 1, 0, 1);
        Store(g, x, y, w, table, j, g.add(table[j - tableSize], y), i, k, OddColumns(i, k), OddColumns(i, k + 1));
        j := j + tableSize;
        k := k + 1;
      }
      RowOutOfRange(w, i, k);
      Weaken(g, x, y, w, table, OddColumns(i, k), OddColumns(i + 2, 1));
      i := i + 2;
    }
    Weaken(g, x, y, w, table, OddColumns(i, 1), FirstColumn(3));
  }

  lemma RowInRange(w: nat, c: nat, r: nat)
    requires At(w, c, r) < Shl(Pow2(w), w)
    ensures r < Pow2(w)
  {
    ShlMonotone(Pow2(w), r, w);
  }

  lemma RowOutOfRange(w: nat, c: nat, r: nat)
    requires At(w, c, r) >= Shl(Pow2(w), w) && c < Pow2(w)
    ensures r >= Pow2(w)
  {
    if r < Pow2(w) { AtBounds(w, c, r); }
  }

  /** Odd multiples of y up the first column. */
  method FillFirstColumn<T(!new)>(g: Group<T>, x: T, y: T, w: nat, table: array<T>)
    requires IsAbelian(g) && w >= 2
    requires Filled(g, x, y, w, table, FirstColumn(3))
    modifies table
    ensures Filled(g, x, y, w, table, OddRows(0, 1))
  {
    hide At, Combo, Pow2, Shl, IsGroup, IsAbelian, Mul, Filled;
    FourAtLeast(w);
    var tableSize := Pow2(w);
    var i := 3 * tableSize;
    ghost var k := 3;
    AtBounds(w, 0, 2);
    while i < Shl(tableSize, w)
      invariant i == At(w, 0, k) && k >= 3 && k % 2 == 1
      invariant Filled(g, x, y, w, table, FirstColumn(k))
      decreases Shl(tableSize, w) - i
    {
      RowInRange(w, 0, k);
      AtBounds(w, 0, k);
      AtBounds(w, 0, k - 1);
      AtBounds(w, 0, k - 2);
      HasSlot(g, x, y, w, table, FirstColumn(k), 0, k - 2);
      HasSlot(g, x, y, w, table, FirstColumn(k), 0, 2);
      ComboAdd(g, x, y, 0, k - 2, 0, 2);
      Store(g, x, y, w, table, i, g.add(table[i - 2 * tableSize], table[2 * tableSize]), 0, k, FirstColumn(k), FirstColumn(k + 2));
      AtNextTwo(w, k);
      i := i + 2 * tableSize;
      k := k + 2;
    }
    RowOutOfRange(w, 0, k);
    Weaken(g, x, y, w, table, FirstColumn(k), OddRows(0, 1));
  }

  lemma AtNextTwo(w: nat, r: nat)
    ensures At(w, 0, r + 2) == At(w, 0, r) + 2 * Pow2(w)
  {
    ShlAdd(r, 2, w);
    ShlAdd(1, 1, w);
    ShlOne(w);
  }

  /** The inner loop: one odd row. */
  method FillOddRow<T(!new)>(g: Group<T>, x: T, y: T, w: nat, table: array<T>, i: nat, ghost k: nat)
    requires IsAbelian(g) && w >= 2 && i == At(w, 0, k) && k % 2 == 1 && k < Pow2(w)
    requires Filled(g, x, y, w, table, OddRows(0, k))
    modifies table
    ensures Filled(g, x, y, w, table, OddRows(0, k + 2))
  {
    hide At, Combo, Pow2, Shl, IsGroup, IsAbelian, Mul, Filled;
    FourAtLeast(w);
    var j := i + 2;
    Weaken(g, x, y, w, table, OddRows(0, k), OddRows(2, k));
    while j < i + Pow2(w)
      invariant i <= j && (j - i) % 2 == 0 && j >= i + 2
      invariant Filled(g, x, y, w, table, OddRows(j - i, k))
    {
      ghost var c := j - i;
      AtShift(w, c, k);
      AtShift(w, c - 1, k);
      AtBounds(w, c - 1, k);
      HasSlot(g, x, y, w, table, OddRows(c, k), c - 1, k);
      ComboUnits(g, x, y);
      ComboAdd(g, x, y, c - 1, k, 1, 0);
      Store(g, x, y, w, table, j, g.add(table[j - 1], x), c, k, OddRows(c, k), OddRows(c + 2, k));
      j := j + 2;
    }
    Weaken(g, x, y, w, table, OddRows(j - i, k), OddRows(0, k + 2));
  }

  /** Along each odd row by adding x to the odd-column neighbour. */
  method FillOddRows<T(!new)>(g: Group<T>, x: T, y: T, w: nat, table: array<T>)
    requires IsAbelian(g) && w >= 2
    requires Filled(g, x, y, w, table, OddRows(0, 1))
    modifies table
    ensures Filled(g, x, y, w, table, NotBothEven())
  {
    hide At, Combo, Pow2, Shl, IsGroup, IsAbelian, Mul, Filled;
    FourAtLeast(w);
    var tableSize := Pow2(w);
    var i := tableSize;
    ghost var k := 1;
    AtBounds(w, 0, 1);
    while i < Shl(tableSize, w)
      invariant i == At(w, 0, k) && k % 2 == 1
      invariant Filled(g, x, y, w, table, OddRows(0, k))
      decreases Shl(tableSize, w) - i
    {
      RowInRange(w, 0, k);
      FillOddRow(g, x, y, w, table, i, k);
      AtNextTwo(w, k);
      i := i + 2 * tableSize;
      k := k + 2;
    }
    RowOutOfRange(w, 0, k);
    Weaken(g, x, y, w, table, OddRows(0, k), NotBothEven());
  }

  lemma AtShift(w: nat, c: nat, r: nat)
    ensures At(w, c, r) == At(w, 0, r) + c
  {
  }

  lemma FourAtLeast(w: nat)
    requires w >= 2
    ensures Pow2(w) >= 4 && Pow2(w) % 2 == 0
  {
    assert Pow2(w) == 2 * (2 * Pow2(w - 2));
  }

  ghost function Nothing(): (nat, nat) -> bool {
    (c, r) => false
  }

  ghost function Units(): (nat, nat) -> bool {
    (c, r) => (c == 1 && r == 0) || (c == 0 && r == 1)
  }

  lemma EmptyTable<T>(g: Group<T>, x: T, y: T, w: nat, table: array<T>)
    requires table.Length == Shl(Pow2(w), w)
    ensures Filled(g, x, y, w, table, Nothing())
  {
    hide Slot, Pow2, Shl;
  }

  /** Slots for x and y themselves. */
  method StoreUnits<T(!new)>(g: Group<T>, x: T, y: T, w: nat, table: array<T>)
    requires IsAbelian(g) && w >= 1 && table.Length == Shl(Pow2(w), w)
    modifies table
    ensures Filled(g, x, y, w, table, Units())
  {
    hide Combo, IsGroup, IsAbelian, Mul, Shl, Pow2, Filled, At;
    EmptyTable(g, x, y, w, table);
    ComboUnits(g, x, y);
    TwoAtLeast(w);
    AtBounds(w, 1, 0);
    AtBounds(w, 0, 1);
    ghost var one: (nat, nat) -> bool := (c, r) => c == 1 && r == 0;
    Store(g, x, y, w, table, 1, x, 1, 0, Nothing(), one);
    Store(g, x, y, w, table, Pow2(w), y, 0, 1, one, Units());
  }

  /** Slots for 2x and 2y. */
  method StoreDoubles<T(!new)>(g: Group<T>, x: T, y: T, w: nat, table: array<T>)
    requires IsAbelian(g) && w >= 2 && Filled(g, x, y, w, table, Units())
    modifies table
    ensures Filled(g, x, y, w, table, FirstRow(3))
  {
    hide Combo, IsGroup, IsAbelian, Mul, Shl, Pow2, Filled, At;
    ComboUnits(g, x, y);
    FourAtLeast(w);
    AtBounds(w, 2, 0);
    AtBounds(w, 0, 2);
    ghost var three: (nat, nat) -> bool := (c, r) => (c == 1 && r == 0) || (c == 2 && r == 0) || (c == 0 && r == 1);
    Store(g, x, y, w, table, 2, g.add(x, x), 2, 0, Units(), three);
    Store(g, x, y, w, table, 2 * Pow2(w), g.add(y, y), 0, 2, three, FirstRow(3));
  }

  /** The whole table: every slot the main loop can read holds its combination. */
  method BuildTable<T(!new)>(g: Group<T>, x: T, y: T, w: nat) returns (table: array<T>)
    requires IsAbelian(g) && w >= 1
    ensures fresh(table) && Filled(g, x, y, w, table, NotBothEven())
  {
    hide Combo, IsGroup, IsAbelian, Mul, Shl, Pow2, Filled, At;
    table := new T[Shl(Pow2(w), w)](_ => g.id);
    StoreUnits(g, x, y, w, table);
    if w == 1 {
      SmallTable();
      ComboUnits(g, x, y);
      ghost var all: (nat, nat) -> bool := (c, r) => (c == 1 && r == 0) || (c == 0 && r == 1) || (c == 1 && r == 1);
      Store(g, x, y, w, table, 3, g.add(x, y), 1, 1, Units(), all);
      Weaken(g, x, y, w, table, all, NotBothEven());
    } else {
      StoreDoubles(g, x, y, w, table);
      FillFirstRow(g, x, y, w, table);
      FillOddColumns(g, x, y, w, table);
      FillFirstColumn(g, x, y, w, table);
      FillOddRows(g, x, y, w, table);
    }
  }

  lemma SmallTable()
    ensures Pow2(1) == 2 && At(1, 1, 1) == 3
  {
    assert Pow2(1) == 2 * Pow2(0);
    assert Shl(1, 1) == 2 * Shl(1, 0);
  }

  lemma TwoAtLeast(w: nat)
    requires w >= 1
    ensures Pow2(w) >= 2 && Pow2(w) == 2 * Pow2(w - 1)
  {
  }

  // ----- the main loop

  /** n doublings. */
  method Doublings<T(!new)>(g: Group<T>, ghost x: T, ghost y: T, start: T, n: nat, ghost a: nat, ghost b: nat) returns (result: T)
    requires IsAbelian(g) && start == Combo(g, x, y, a, b)
    ensures result == Combo(g, x, y, Shl(a, n), Shl(b, n))
  {
    hide Combo, IsGroup, IsAbelian, Mul;
    result := start;
    var left := n;
    while left > 0
      invariant 0 <= left <= n && result == Combo(g, x, y, Shl(a, n - left), Shl(b, n - left))
    {
      ComboAdd(g, x, y, Shl(a, n - left), Shl(b, n - left), Shl(a, n - left), Shl(b, n - left));
      result := g.add(result, result);
      left := left - 1;
    }
  }

  /** Strips common factors of two off both powers; squaresBefore never drops below zero because
      a power below 2^bits has fewer than bits trailing zeros. */
  method StripTwos(power1: nat, power2: nat, squares: nat, ghost bits: nat)
    returns (q1: nat, q2: nat, squaresBefore: nat, squaresAfter: nat)
    requires power1 < Pow2(bits) && power2 < Pow2(bits) && bits <= squares + 1
    requires bits == squares + 1 ==> power1 > 0 || power2 > 0
    ensures Shl(q1, squaresAfter) == power1 && Shl(q2, squaresAfter) == power2
    ensures squaresBefore + squaresAfter == squares
    ensures q1 <= power1 && q2 <= power2
    ensures (power1 > 0 || power2 > 0) ==> q1 % 2 == 1 || q2 % 2 == 1
    ensures power1 == 0 == power2 ==> q1 == 0 == q2 && squaresAfter == 0
  {
    hide Pow2;
    q1, q2, squaresBefore, squaresAfter := power1, power2, squares, 0;
    while (q1 > 0 || q2 > 0) && q1 % 2 == 0 && q2 % 2 == 0
      invariant Shl(q1, squaresAfter) == power1 && Shl(q2, squaresAfter) == power2
      invariant squaresBefore + squaresAfter == squares
      invariant q1 <= power1 && q2 <= power2
      invariant (power1 > 0 || power2 > 0) ==> q1 > 0 || q2 > 0
      invariant power1 == 0 == power2 ==> q1 == 0 == q2 && squaresAfter == 0
      decreases q1 + q2
    {
      FewTrailingZeros(if q1 > 0 then q1 else q2, squaresAfter, bits);
      ShlHalf(q1, squaresAfter);
      ShlHalf(q2, squaresAfter);
      q1, q2 := q1 / 2, q2 / 2;
      squaresBefore := squaresBefore - 1;
      squaresAfter := squaresAfter + 1;
    }
  }

  lemma FewTrailingZeros(q: nat, zeros: nat, bits: nat)
    requires q > 0 && q % 2 == 0 && Shl(q, zeros) < Pow2(bits)
    ensures zeros + 1 < bits
  {
    hide Pow2;
    ShlHalf(q, zeros);
    ShlMonotone(1, q / 2, zeros + 1);
    ShlOne(zeros + 1);
    if bits <= zeros + 1 { Pow2Monotone(bits, zeros + 1); }
  }

  lemma {:induction false} ShlHalf(q: nat, k: nat)
    requires q % 2 == 0
    ensures Shl(q / 2, k + 1) == Shl(q, k)
  {
    if k > 0 { ShlHalf(q, k - 1); }
  }

  /** The closing of one window: squares doublings spread around the table entry of the odd parts.
      The first window starts from nothing, with one doubling less. */
  method CloseWindow<T(!new)>(g: Group<T>, ghost x: T, ghost y: T, w: nat, table: array<T>, before: T, firstTime: bool,
                              power1: nat, power2: nat, squares: nat, ghost a: nat, ghost b: nat) returns (result: T)
    requires IsAbelian(g) && Filled(g, x, y, w, table, NotBothEven())
    requires power1 < Pow2(w) && power2 < Pow2(w)
    requires firstTime ==> a == 0 == b && (power1 > 0 || power2 > 0) && power1 < Pow2(squares + 1) && power2 < Pow2(squares + 1)
    requires !firstTime ==> before == Combo(g, x, y, a, b) && power1 < Pow2(squares) && power2 < Pow2(squares)
    ensures result == Combo(g, x, y, Shl(a, squares) + power1, Shl(b, squares) + power2)
  {
    hide Combo, IsGroup, IsAbelian, Mul, Pow2, Filled, At;
    var q1, q2, squaresBefore, squaresAfter := StripTwos(power1, power2, squares, if firstTime then squares + 1 else squares);
    ghost var c1 := Shl(a, squaresBefore);
    ghost var c2 := Shl(b, squaresBefore);
    ShlOfZero(squaresBefore);
    ShlOfZero(squares);
    if firstTime {
      result := ReadTable(g, x, y, w, table, q1, q2);
    } else {
      result := Doublings(g, x, y, before, squaresBefore, a, b);
      if q1 > 0 || q2 > 0 {
        var entry := ReadTable(g, x, y, w, table, q1, q2);
        result := g.add(result, entry);
        ComboAdd(g, x, y, c1, c2, q1, q2);
      }
    }
    result := Doublings(g, x, y, result, squaresAfter, c1 + q1, c2 + q2);
    ShlAdd(c1, q1, squaresAfter);
    ShlAdd(c2, q2, squaresAfter);
    ShlShl(a, squaresBefore, squaresAfter);
    ShlShl(b, squaresBefore, squaresAfter);
  }

  /** powerTable[(power2 << w) + power1] is in range and filled for powers that are not both even. */
  method ReadTable<T(!new)>(g: Group<T>, ghost x: T, ghost y: T, w: nat, table: array<T>, power1: nat, power2: nat) returns (entry: T)
    requires Filled(g, x, y, w, table, NotBothEven())
    requires power1 < Pow2(w) && power2 < Pow2(w) && (power1 % 2 == 1 || power2 % 2 == 1)
    ensures entry == Combo(g, x, y, power1, power2)
  {
    hide Combo, Pow2, Shl, At;
    assert Slot(g, x, y, w, table, power1, power2);
    entry := table[At(w, power1, power2)];
  }

  function WindowWidth(expLen: nat): (w: nat)
    ensures 1 <= w <= 3
  {
    if expLen <= 46 then 1 else if expLen <= 260 then 2 else 3
  }

  /** Bits [position, from) of n gathered into power on top of the part above from. */
  ghost predicate Gathered(n: nat, from: nat, position: nat, power: nat) {
    position <= from && Shr(n, position) == Shl(Shr(n, from), from - position) + power && power < Pow2(from - position)
  }

  lemma GatherBit(n: nat, from: nat, position: nat, power: nat)
    requires position > 0 && Gathered(n, from, position, power)
    ensures Gathered(n, from, position - 1, 2 * power + GetBit(n, position - 1))
  {
    ShrStep(n, position - 1);
    assert Pow2(from - position + 1) == 2 * Pow2(from - position);
  }

  lemma GatherRestart(n: nat, position: nat)
    ensures Gathered(n, position, position, 0)
  {
  }

  lemma GatheredFacts(n: nat, from: nat, position: nat, power: nat)
    requires Gathered(n, from, position, power)
    ensures position <= from && Shr(n, position) == Shl(Shr(n, from), from - position) + power && power < Pow2(from - position)
  {
  }

  /** In the first window nothing lies above, and the higher exponent's top bit makes its power nonzero. */
  lemma FirstWindow(n: nat, expLen: nat, position: nat, power: nat)
    requires Gathered(n, expLen, position, power) && BitCount(n) <= expLen
    ensures Shr(n, expLen) == 0 && power == Shr(n, position)
    ensures BitCount(n) == expLen && position < expLen ==> power > 0
  {
    ShiftedOut(n, expLen);
    ShlOfZero(expLen - position);
    if BitCount(n) == expLen && position < expLen {
      TopBit(n);
      ShrShr(n, position, expLen - 1 - position);
      ShrOfZero(expLen - 1 - position);
    }
  }

  lemma BitCountZero(n: nat)
    ensures BitCount(n) == 0 <==> n == 0
  {
  }

  lemma EmptyCombo<T(!new)>(g: Group<T>, x: T, y: T)
    requires IsAbelian(g)
    ensures g.add(Mul(g, 0, x), Mul(g, 0, y)) == g.id
  {
    Unit(g, g.id);
  }

  /** The end of a window at bit i: both exponents' bits from i up are in the result. */
  method EndWindow<T(!new)>(g: Group<T>, ghost x: T, ghost e1: nat, ghost y: T, ghost e2: nat, w: nat, table: array<T>, ghost expLen: nat, before: T,
                            firstTime: bool, power1: nat, power2: nat, prevPosition: nat, ghost from: nat, i: nat) returns (result: T)
    requires IsAbelian(g) && Filled(g, x, y, w, table, NotBothEven()) && i < from <= expLen
    requires expLen == (if BitCount(e1) > BitCount(e2) then BitCount(e1) else BitCount(e2)) && power1 < Pow2(w) && power2 < Pow2(w)
    requires Gathered(e1, from, i, power1) && Gathered(e2, from, i, power2)
    requires i == 0 || 2 * power1 >= Pow2(w) || 2 * power2 >= Pow2(w)
    requires if firstTime then from == expLen && prevPosition == expLen - 1
             else prevPosition == from && before == Combo(g, x, y, Shr(e1, from), Shr(e2, from))
    ensures result == Combo(g, x, y, Shr(e1, i), Shr(e2, i))
  {
    hide IsGroup, IsAbelian, Mul, Pow2, Filled, At, Shr, Gathered, BitCount, Shl, GetBit, Combo;
    GatheredFacts(e1, from, i, power1);
    GatheredFacts(e2, from, i, power2);
    if firstTime {
      FirstWindow(e1, expLen, i, power1);
      FirstWindow(e2, expLen, i, power2);
      ShlOfZero(expLen - 1 - i);
    }
    result := CloseWindow(g, x, y, w, table, before, firstTime, power1, power2, prevPosition - i, Shr(e1, from), Shr(e2, from));
  }

  /** e1*x + e2*y in every abelian group, for all non-negative exponents. */
  method CascadeScalarMultiply<T(!new)>(g: Group<T>, x: T, e1: nat, y: T, e2: nat) returns (result: T)
    requires IsAbelian(g)
    ensures result == g.add(Mul(g, e1, x), Mul(g, e2, y))
  {
    hide IsGroup, IsAbelian, Mul, Pow2, Filled, At, Shr, Gathered, BitCount, Shl, GetBit;
    var expLen := if BitCount(e1) > BitCount(e2) then BitCount(e1) else BitCount(e2);
    if expLen == 0 {
      BitCountZero(e1);
      BitCountZero(e2);
      EmptyCombo(g, x, y);
      return g.id;
    }
    var w := WindowWidth(expLen);
    var table := BuildTable(g, x, y, w);
    var tableSize := Pow2(w);
    var power1: nat, power2: nat, prevPosition := 0, 0, expLen - 1;
    var firstTime := true;
    result := g.id;
    ghost var from := expLen;
    GatherRestart(e1, expLen);
    GatherRestart(e2, expLen);
    var i: int := expLen as int - 1;
    TwoAtLeast(w);
    while i >= 0
      invariant 0 <= i + 1 <= from <= expLen
      invariant Filled(g, x, y, w, table, NotBothEven())
      invariant 2 * power1 < tableSize && 2 * power2 < tableSize
      invariant Gathered(e1, from, i + 1, power1) && Gathered(e2, from, i + 1, power2)
      invariant if firstTime then from == expLen && prevPosition == expLen - 1
                else prevPosition == from && result == Combo(g, x, y, Shr(e1, from), Shr(e2, from))
      invariant i == -1 ==> !firstTime && from == 0
    {
      GatherBit(e1, from, i + 1, power1);
      GatherBit(e2, from, i + 1, power2);
      power1 := 2 * power1 + GetBit(e1, i);
      power2 := 2 * power2 + GetBit(e2, i);
      if i == 0 || 2 * power1 >= tableSize || 2 * power2 >= tableSize {
        result := EndWindow(g, x, e1, y, e2, w, table, expLen, result, firstTime, power1, power2, prevPosition, from, i);
        prevPosition := i;
        firstTime := false;
        from := i;
        GatherRestart(e1, i);
        GatherRestart(e2, i);
        power1, power2 := 0, 0;
      }
      i := i - 1;
    }
    ShrByZero(e1);
    ShrByZero(e2);
  }
}
