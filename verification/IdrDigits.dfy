/** Ids as digit strings in base IDR_SIZE (datastruct/idr.h). */
module IdrDigits {
  import opened Arithmetic

  // IDR_SIZE and MAX_LEVEL have no fixed value here: everything is proved for every fan-out and
  // every height of at least two.  A shift by IDR_BITS * l is Shr or Shl by l digits, a mask by
  // IDR_MASK is Rest.  Product, quotient and remainder are spelled out by recursion so that
  // proofs about trees stay free of non-linear arithmetic; SameAsArithmetic says what they are.

  type Fanout = n: nat | 2 <= n witness 64

  type Levels = n: nat | 2 <= n witness 6

  const IDR_SIZE: Fanout

  const MAX_LEVEL: Levels

  const IDR_FREE_MAX: nat := MAX_LEVEL + MAX_LEVEL

  function Times(x: nat): nat {
    if x == 0 then 0 else Times(x - 1) + IDR_SIZE
  }

  function Over(x: nat): nat {
    if x < IDR_SIZE then 0 else 1 + Over(x - IDR_SIZE)
  }

  function Rest(x: nat): (r: nat)
    ensures r < IDR_SIZE
  {
    if x < IDR_SIZE then x else Rest(x - IDR_SIZE)
  }

  lemma SameAsArithmetic(x: nat)
    ensures Times(x) == x * IDR_SIZE && Over(x) == x / IDR_SIZE && Rest(x) == x % IDR_SIZE
  {
    TimesIsProduct(x);
    TimesIsProduct(Over(x));
    Recompose(x);
    ModUnique(x, IDR_SIZE, Over(x), Rest(x));
  }

  lemma {:induction false} TimesIsProduct(x: nat)
    ensures Times(x) == x * IDR_SIZE
  {
    if x > 0 {
      TimesIsProduct(x - 1);
      assert x * IDR_SIZE == (x - 1) * IDR_SIZE + IDR_SIZE;
    }
  }

  lemma {:induction false} DivMod(x: nat, d: nat)
    requires d < IDR_SIZE
    ensures Over(Times(x) + d) == x && Rest(Times(x) + d) == d
  {
    if x > 0 {
      DivMod(x - 1, d);
      assert Times(x) + d - IDR_SIZE == Times(x - 1) + d;
    }
  }

  lemma {:induction false} Recompose(x: nat)
    ensures Times(Over(x)) + Rest(x) == x
  {
    if x >= IDR_SIZE {
      Recompose(x - IDR_SIZE);
    }
  }

  lemma {:induction false} TimesMonotone(a: nat, b: nat)
    requires a <= b
    ensures Times(a) <= Times(b)
    decreases b - a
  {
    if a < b {
      TimesMonotone(a, b - 1);
    }
  }

  lemma OverBelow(y: nat, p: nat)
    ensures y < Times(p) <==> Over(y) < p
  {
    Recompose(y);
    if Over(y) < p {
      TimesMonotone(Over(y) + 1, p);
    } else {
      TimesMonotone(p, Over(y));
    }
  }

  function Shr(id: nat, l: nat): nat {
    if l == 0 then id else Over(Shr(id, l - 1))
  }

  function Shl(x: nat, l: nat): nat
    decreases l
  {
    if l == 0 then x else Shl(Times(x), l - 1)
  }

  /** 1 << (layers * IDR_BITS): the number of ids that l layers can hold. */
  function Capacity(l: nat): nat {
    Shl(1, l)
  }

  function Digit(id: nat, l: nat): (d: nat)
    ensures d < IDR_SIZE
  {
    Rest(Shr(id, l))
  }

  lemma {:induction false} ShrShl(x: nat, l: nat)
    ensures Shr(Shl(x, l), l) == x
    decreases l
  {
    if l > 0 {
      ShrShl(Times(x), l - 1);
      DivMod(x, 0);
    }
  }

  /** x is below the block that starts at p << l exactly when its upper digits are below p. */
  lemma {:induction false} BelowShl(x: nat, p: nat, l: nat)
    ensures x < Shl(p, l) <==> Shr(x, l) < p
    decreases l
  {
    if l > 0 {
      BelowShl(x, Times(p), l - 1);
      OverBelow(Shr(x, l - 1), p);
    }
  }

  /** Ids with l layers are those whose digits from l on are zero. */
  lemma InCapacity(x: nat, l: nat)
    ensures x < Capacity(l) <==> Shr(x, l) == 0
  {
    BelowShl(x, 1, l);
  }

  lemma {:induction false} ShrZero(l: nat)
    ensures Shr(0, l) == 0
  {
    if l > 0 {
      ShrZero(l - 1);
    }
  }

  lemma {:induction false} ShlMonotone(x: nat, y: nat, l: nat)
    requires x <= y
    ensures Shl(x, l) <= Shl(y, l)
    decreases l
  {
    if l > 0 {
      TimesMonotone(x, y);
      ShlMonotone(Times(x), Times(y), l - 1);
    }
  }

  lemma {:induction false} CapacityMonotone(a: nat, b: nat)
    requires a <= b
    ensures Capacity(a) <= Capacity(b)
    decreases b - a
  {
    if a < b {
      CapacityMonotone(a, b - 1);
      assert Times(1) == Times(0) + IDR_SIZE;
      ShlMonotone(1, Times(1), b - 1);
    }
  }

  lemma CapacityGrows(l: nat)
    ensures Capacity(l) < Capacity(l + 1)
  {
    InCapacity(Capacity(l), l + 1);
    ShrShl(1, l);
    assert Shr(Capacity(l), l + 1) == Over(1) == 0;
  }

  // ---------- the height that an id needs ----------

  /** The least number of layers from l on that holds id; MAX_LEVEL if fewer do not. */
  function HeightFor(id: nat, l: nat): (h: nat)
    ensures l <= h && (l <= MAX_LEVEL ==> h <= MAX_LEVEL)
    ensures h < MAX_LEVEL ==> id < Capacity(h)
    ensures h > l ==> id >= Capacity(h - 1)
    decreases MAX_LEVEL - l
  {
    if l >= MAX_LEVEL || id < Capacity(l) then l else HeightFor(id, l + 1)
  }

  /** Ids that need the greatest height are those beyond the one below it. */
  lemma HeightMeans(id: nat, l: nat)
    requires l < MAX_LEVEL
    ensures HeightFor(id, l) == MAX_LEVEL <==> id >= Capacity(MAX_LEVEL - 1)
    ensures HeightFor(id, l) == l <==> id < Capacity(l)
  {
    var h := HeightFor(id, l);
    if h < MAX_LEVEL {
      CapacityMonotone(h, MAX_LEVEL - 1);
    }
    if h > l {
      CapacityMonotone(l, h - 1);
    }
  }

  // ---------- carries ----------

  lemma {:induction false} TimesAdd(a: nat, b: nat)
    ensures Times(a + b) == Times(a) + Times(b)
  {
    if b > 0 {
      TimesAdd(a, b - 1);
    }
  }

  lemma {:induction false} ShlAdd(a: nat, b: nat, l: nat)
    ensures Shl(a + b, l) == Shl(a, l) + Shl(b, l)
    decreases l
  {
    if l > 0 {
      TimesAdd(a, b);
      ShlAdd(Times(a), Times(b), l - 1);
    }
  }

  lemma {:induction false} ShlTimes(x: nat, l: nat)
    ensures Shl(Times(x), l) == Times(Shl(x, l))
    decreases l
  {
    if l > 0 {
      ShlTimes(Times(x), l - 1);
    }
  }

  lemma {:induction false} OverAdd(x: nat, c: nat)
    ensures Over(x + Times(c)) == Over(x) + c && Rest(x + Times(c)) == Rest(x)
    decreases c
  {
    if c > 0 {
      OverAdd(x, c - 1);
      assert x + Times(c) - IDR_SIZE == x + Times(c - 1);
    }
  }

  /** Adding to the digits from e on. */
  lemma {:induction false} ShrLift(x: nat, e: nat, j: nat)
    requires j <= e
    ensures Shr(x + Capacity(e), j) == Shr(x, j) + Capacity(e - j)
    decreases j
  {
    if j > 0 {
      ShrLift(x, e, j - 1);
      ShlTimes(1, e - j);
      OverAdd(Shr(x, j - 1), Capacity(e - j));
    }
  }

  /** The digits below stay. */
  lemma DigitLift(x: nat, e: nat, j: nat)
    requires j < e
    ensures Digit(x + Capacity(e), j) == Digit(x, j)
  {
    ShrLift(x, e, j);
    ShlTimes(1, e - j - 1);
    OverAdd(Shr(x, j), Capacity(e - j - 1));
  }

  lemma {:induction false} CapacityAdd(a: nat, b: nat)
    ensures Shl(Capacity(a), b) == Capacity(a + b)
    decreases b
  {
    if b > 0 {
      ShlTimes(1, a);
      CapacityAdd(a + 1, b - 1);
    }
  }

  /** Clearing low digits makes no number larger. */
  lemma FloorBelow(x: nat, l: nat)
    ensures Shl(Shr(x, l), l) <= x < Shl(Shr(x, l) + 1, l)
  {
    BelowShl(x, Shr(x, l), l);
    BelowShl(x, Shr(x, l) + 1, l);
  }

  /** The next block of l digits. */
  lemma NextBlock(x: nat, l: nat)
    ensures var y := Shl(Shr(x, l) + 1, l); Shr(y, l) == Shr(x, l) + 1 && x < y
  {
    ShrShl(Shr(x, l) + 1, l);
    FloorBelow(x, l);
  }

  /** It is in the same block of one digit more, unless its digit was the greatest. */
  lemma NextInBlock(x: nat, l: nat)
    requires Digit(x, l) < IDR_SIZE - 1
    ensures var y := Shl(Shr(x, l) + 1, l); Shr(y, l + 1) == Shr(x, l + 1) && Digit(y, l) == Digit(x, l) + 1
  {
    var u := Shr(x, l);
    NextBlock(x, l);
    Recompose(u);
    DivMod(Over(u), Rest(u) + 1);
  }

  lemma NextWithCarry(x: nat, l: nat)
    requires Digit(x, l) == IDR_SIZE - 1
    ensures Shl(Shr(x, l) + 1, l) == Shl(Shr(x, l + 1), l + 1) + Capacity(l + 1)
  {
    var u := Shr(x, l);
    Recompose(u);
    assert u + 1 == Times(Over(u) + 1);
    ShlAdd(Over(u), 1, l + 1);
  }

  /** The lowest l digits of id: what a tree of l layers looks at. */
  function Low(id: nat, l: nat): nat
    decreases l
  {
    if l == 0 then 0 else Times(Low(Over(id), l - 1)) + Rest(id)
  }

  lemma LowStep(id: nat, l: nat)
    requires l > 0
    ensures Over(Low(id, l)) == Low(Over(id), l - 1) && Rest(Low(id, l)) == Rest(id)
  {
    DivMod(Low(Over(id), l - 1), Rest(id));
  }

  lemma {:induction false} ShrLow(id: nat, l: nat, j: nat)
    requires j <= l
    ensures Shr(Low(id, l), j) == Low(Shr(id, j), l - j)
    decreases j
  {
    if j > 0 {
      ShrLow(id, l, j - 1);
      LowStep(Shr(id, j - 1), l - j + 1);
    }
  }

  /** Low keeps the digits below l and clears the others. */
  lemma LowDigits(id: nat, l: nat, j: nat)
    ensures j < l ==> Digit(Low(id, l), j) == Digit(id, j)
    ensures Shr(Low(id, l), l) == 0
  {
    if j < l {
      ShrLow(id, l, j);
      LowStep(Shr(id, j), l - j);
    }
    ShrLow(id, l, l);
  }

  /** Ids within the capacity are looked up as they are. */
  lemma {:induction false} LowSmall(id: nat, l: nat)
    requires Shr(id, l) == 0
    ensures Low(id, l) == id
    decreases l
  {
    if l > 0 {
      ShrOver(id, l - 1);
      LowSmall(Over(id), l - 1);
      Recompose(id);
    }
  }

  lemma {:induction false} ShrOver(id: nat, l: nat)
    ensures Shr(Over(id), l) == Shr(id, l + 1)
  {
    if l > 0 {
      ShrOver(id, l - 1);
    }
  }

  lemma {:induction false} ShlZero(l: nat)
    ensures Shl(0, l) == 0
  {
    if l > 0 {
      ShlZero(l - 1);
    }
  }

  /** IDR_SIZE blocks of l digits make one of l + 1 digits. */
  lemma WholeBlock(l: nat)
    ensures Shl(Times(0) + IDR_SIZE, l) == Capacity(l + 1) == Shl(0 + 1, l + 1)
  {
    assert Times(1) == Times(0) + IDR_SIZE && Times(0) == 0;
    assert Shl(1, l + 1) == Shl(Times(1), l);
  }
}
