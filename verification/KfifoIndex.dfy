/**
  Index arithmetic of datastruct/kfifo.c: free-running 32-bit indices over a ring whose size is a
  power of two, and the rounding that makes it one.
 */
module KfifoIndex {
  import opened Arithmetic

  /** An unsigned int counts modulo 2^32. */
  const WRAP: int := 0x1_0000_0000

  function Min(a: int, b: int): (r: int)
    ensures r <= a && r <= b && (r == a || r == b)
  {
    if a < b then a else b
  }

  /** Bitwise and. */
  function And(a: nat, b: nat): nat
    decreases a
  {
    if a == 0 then 0 else (if a % 2 == 1 && b % 2 == 1 then 1 else 0) + 2 * And(a / 2, b / 2)
  }

  // ---------- wrapped indices ----------

  /** The difference of two wrapped indices is their true distance. */
  lemma WrappedDistance(a: nat, b: nat)
    requires 0 <= a - b < WRAP
    ensures (a % WRAP - b % WRAP) % WRAP == a - b
  {
  }

  lemma WrappedAdd(a: nat, n: nat)
    ensures (a % WRAP + n) % WRAP == (a + n) % WRAP
  {
  }

  /** Slots may be found from wrapped indices exactly when the ring's size divides 2^32. */
  lemma WrapWorksExactly(s: nat)
    requires s > 0
    ensures (forall a: nat :: Rem(a % WRAP, s) == Rem(a, s)) <==> WRAP % s == 0
  {
    RemIsRemainder(WRAP, s);
    if WRAP % s == 0 {
      forall a: nat
        ensures Rem(a % WRAP, s) == Rem(a, s)
      {
        WrappedSlot(a, s);
      }
    }
    var w: nat := WRAP;
    assert w % WRAP == 0 && Rem(0, s) == 0;
    assert (forall a: nat :: Rem(a % WRAP, s) == Rem(a, s)) ==> Rem(w % WRAP, s) == Rem(w, s);
  }

  lemma WrappedSlot(a: nat, s: nat)
    requires s > 0 && WRAP % s == 0
    ensures Rem(a % WRAP, s) == Rem(a, s)
  {
    RemIsRemainder(WRAP, s);
    RemIsRemainder(a, WRAP);
    RemNested(a, WRAP, s);
  }

  // ---------- slots ----------

  /** The slot i places after index start. */
  function SlotAt(start: nat, i: nat, s: nat): (k: nat)
    requires s > 0
    ensures k < s
  {
    Rem(start + i, s)
  }

  /** A wrapped index leads to the same slots as the index it stands for. */
  lemma SlotOfWrapped(a: nat, i: nat, s: nat)
    requires s > 0 && WRAP % s == 0
    ensures SlotAt(a % WRAP, i, s) == SlotAt(a, i, s)
  {
    WrappedSlot(a, s);
    RemAdd(a, i, s);
    RemAdd(a % WRAP, i, s);
  }

  /** Where byte i of a copy that starts at slot off and goes on at slot 0 lies in the ring. */
  function CopySlot(off: nat, i: nat, s: nat): (k: nat)
    requires off < s && i < s
    ensures k < s
  {
    if i < s - off then off + i else i - (s - off)
  }

  lemma CopySlotRight(start: nat, i: nat, s: nat)
    requires 0 < s && i < s
    ensures CopySlot(Rem(start, s), i, s) == SlotAt(start, i, s)
  {
    RemAdd(start, i, s);
  }

  // ---------- powers of two ----------

  lemma Pow2Values()
    ensures Pow2(1) == 2 && Pow2(2) == 4 && Pow2(4) == 16 && Pow2(8) == 0x100 && Pow2(16) == 0x1_0000
    ensures Pow2(31) == 0x8000_0000 && Pow2(32) == WRAP
    ensures Pow2(24) == 0x100_0000 && Pow2(28) == 0x1000_0000 && Pow2(30) == 0x4000_0000
  {
    Pow2Add(1, 1);
    Pow2Add(2, 2);
    Pow2Add(4, 4);
    Pow2Add(8, 8);
    Pow2Add(16, 16);
    Pow2Add(16, 8);
    Pow2Add(24, 4);
    Pow2Add(28, 2);
    Pow2Add(30, 1);
  }

  lemma SizeDivides(j: nat)
    requires j <= 32
    ensures WRAP % Pow2(j) == 0
  {
    Pow2Values();
    Pow2Add(32 - j, j);
    ModUnique(WRAP, Pow2(j), Pow2(32 - j), 0);
  }

  /** x & (size - 1) is the remainder by a size that is a power of two. */
  lemma {:induction false} MaskIsRemainder(x: nat, j: nat)
    ensures And(x, Pow2(j) - 1) == x % Pow2(j)
    decreases j
  {
    if j == 0 {
      AndZero(x);
    } else if x == 0 {
      ModUnique(0, Pow2(j), 0, 0);
    } else {
      var p, h := Pow2(j - 1), x / 2;
      MaskIsRemainder(h, j - 1);
      HalfRemainder(x, p);
      HalfMask(x, p);
    }
  }

  lemma HalfMask(x: nat, p: int)
    requires p > 0
    ensures And(x, 2 * p - 1) == 2 * And(x / 2, p - 1) + x % 2
  {
    assert (2 * p - 1) / 2 == p - 1 && (2 * p - 1) % 2 == 1;
  }

  lemma HalfRemainder(x: nat, p: int)
    requires p > 0
    ensures x % (2 * p) == 2 * ((x / 2) % p) + x % 2
  {
    var h := x / 2;
    var q, r := h / p, h % p;
    assert h == q * p + r;
    assert q * (2 * p) == 2 * (q * p);
    ModUnique(x, 2 * p, q, 2 * r + x % 2);
  }

  lemma {:induction false} AndZero(x: nat)
    ensures And(x, 0) == 0
  {
    if x > 0 {
      AndZero(x / 2);
    }
  }

  /** A mask of the upper bits is zero exactly on small numbers. */
  lemma {:induction false} UpperMask(x: nat, k: nat, m: nat, mask: nat)
    requires x < Pow2(k + m) && mask == Pow2(k + m) - Pow2(k)
    ensures And(x, mask) == 0 <==> x < Pow2(k)
    decreases k
  {
    if k == 0 {
      MaskIsRemainder(x, m);
      ModUnique(x, Pow2(m), 0, x);
    } else if x > 0 {
      assert mask == 2 * (Pow2(k - 1 + m) - Pow2(k - 1));
      UpperMask(x / 2, k - 1, m, mask / 2);
    }
  }

  /** size & (size - 1) is zero exactly for powers of two. */
  lemma PowerTest(x: nat)
    requires x > 0
    ensures And(x, x - 1) == 0 <==> exists j: nat :: x == Pow2(j)
  {
    if And(x, x - 1) == 0 {
      var j := LogOf(x);
    }
    forall j: nat | x == Pow2(j)
      ensures And(x, x - 1) == 0
    {
      MaskIsRemainder(x, j);
      ModUnique(x, x, 1, 0);
    }
  }

  /** The exponent of a number that passes the test. */
  lemma {:induction false} LogOf(x: nat) returns (j: nat)
    requires x > 0 && And(x, x - 1) == 0
    ensures x == Pow2(j)
  {
    if x == 1 {
      j := 0;
    } else {
      HalfTest(x);
      j := LogOf(x / 2);
      j := j + 1;
    }
  }

  /** A number above one that passes the test is even, and its half passes too. */
  lemma HalfTest(x: nat)
    requires x > 1 && And(x, x - 1) == 0
    ensures x % 2 == 0 && And(x / 2, x / 2 - 1) == 0
  {
    var h := x / 2;
    if x % 2 == 1 {
      assert (x - 1) / 2 == h && And(x, x - 1) == 2 * And(h, h);
      AndSelf(h);
    } else {
      assert (x - 1) / 2 == h - 1 && And(x, x - 1) == 2 * And(h, h - 1);
    }
  }

  lemma {:induction false} AndSelf(x: nat)
    ensures And(x, x) == x
  {
    if x > 0 {
      AndSelf(x / 2);
    }
  }

  // ---------- generic_fls and roundup_pow_of_two ----------

  /** x << n. */
  function Shl(x: nat, n: nat): nat {
    if n == 0 then x else 2 * Shl(x, n - 1)
  }

  lemma {:induction false} ShlAdd(x: nat, a: nat, b: nat)
    ensures Shl(Shl(x, a), b) == Shl(x, a + b)
  {
    if b > 0 {
      ShlAdd(x, a, b - 1);
    }
  }

  /** A shift moves all bounds along. */
  lemma {:induction false} ShlOrder(x: nat, m: nat, n: nat)
    ensures x < Pow2(m) <==> Shl(x, n) < Pow2(m + n)
  {
    if n > 0 {
      ShlOrder(x, m, n - 1);
    }
  }

  /**
    One halving step of generic_fls on words of w bits: shift left by k unless one of the upper k
    bits is set.
   */
  method FlsStep(x: nat, r: nat, k: nat, mask: nat, ghost w: nat, ghost x0: nat) returns (x': nat, r': nat)
    requires 0 < 2 * k <= r <= w && mask == Pow2(w) - Pow2(w - k)
    requires Pow2(w - 2 * k) <= x < Pow2(w) && x == Shl(x0, w - r)
    ensures Pow2(w - k) <= x' < Pow2(w) && r - k <= r' <= r && x' == Shl(x0, w - r')
  {
    x', r' := x, r;
    UpperMask(x, w - k, k, mask);
    if And(x, mask) == 0 {
      ShlAdd(x0, w - r, k);
      ShlOrder(x, w - k, k);
      ShlOrder(x, w - 2 * k, k);
      x' := Shl(x, k);
      r' := r - k;
    }
  }

  /** The position of the highest set bit, counted from one. */
  method GenericFls(x0: nat) returns (r: nat)
    requires x0 < WRAP
    ensures x0 == 0 ==> r == 0
    ensures x0 > 0 ==> 0 < r <= 32 && Pow2(r - 1) <= x0 < Pow2(r)
  {
    Pow2Values();
    var x := x0;
    r := 32;
    if x == 0 {
      return 0;
    }
    x, r := FlsStep(x, r, 16, 0xffff_0000, 32, x0);
    x, r := FlsStep(x, r, 8, 0xff00_0000, 32, x0);
    x, r := FlsStep(x, r, 4, 0xf000_0000, 32, x0);
    x, r := FlsStep(x, r, 2, 0xc000_0000, 32, x0);
    x, r := FlsStep(x, r, 1, 0x8000_0000, 32, x0);
    ShlOrder(x0, r - 1, 32 - r);
    ShlOrder(x0, r, 32 - r);
  }

  /** The highest bit of y gives the least power of two above y. */
  lemma LeastPower(y: nat, k: nat)
    requires if y == 0 then k == 0 else k > 0 && Pow2(k - 1) <= y < Pow2(k)
    ensures y < Pow2(k) && forall j: nat :: y < Pow2(j) ==> Pow2(k) <= Pow2(j)
  {
    forall j: nat | y < Pow2(j)
      ensures Pow2(k) <= Pow2(j)
    {
      if k > 0 && j < k {
        Pow2Monotone(j, k - 1);
      } else {
        Pow2Monotone(k, j);
      }
    }
  }

  /** 1UL << fls((int) (x - 1)) on 64-bit longs: x - 1 loses its upper half in the call. */
  method RoundupPowOfTwo(x: nat) returns (r: nat)
    ensures exists j: nat :: j <= 32 && r == Pow2(j)
    ensures 0 < x ==> (x <= r <==> x <= WRAP)
    ensures 0 < x <= WRAP ==> forall j: nat :: x <= Pow2(j) ==> r <= Pow2(j)
    ensures x == 0 ==> r == WRAP
  {
    var k := GenericFls((x - 1) % WRAP);
    r := Pow2(k);
    Pow2Values();
    Pow2Monotone(k, 32);
    if 0 < x <= WRAP {
      LeastPower(x - 1, k);
    }
  }

  /** The greatest power of two that is an unsigned int: 2^31. */
  const MAX_SIZE: int := 0x8000_0000

  /** A power of two that an unsigned int can hold. */
  predicate RingSize(r: nat) {
    exists j: nat :: j <= 31 && r == Pow2(j)
  }

  lemma PowerBound(r: nat)
    requires RingSize(r)
    ensures 0 < r <= MAX_SIZE
  {
    var j: nat :| j <= 31 && r == Pow2(j);
    Pow2Values();
    Pow2Monotone(j, 31);
  }

  /**
    The buffer size that kfifo_alloc settles on, as an unsigned int: the least power of two that
    holds the request, exactly if one fits; a request of 0 or above 2^31 ends with a buffer of 0 bytes.
   */
  method AllocSize(size: nat) returns (r: nat)
    requires size < WRAP
    ensures RingSize(r) && size <= r <==> 0 < size <= MAX_SIZE
    ensures 0 < size <= MAX_SIZE ==> forall j: nat :: size <= Pow2(j) ==> r <= Pow2(j)
    ensures size == 0 || size > MAX_SIZE ==> r == 0
  {
    r := size;
    if size != 0 {
      PowerTest(size);
    }
    if And(size, if size == 0 then WRAP - 1 else size - 1) != 0 {
      var up := RoundupPowOfTwo(size);
      Rounded(size, up);
      r := up % WRAP;
    } else if size != 0 {
      NotRounded(size);
    }
    if RingSize(r) {
      PowerBound(r);
    }
  }

  /** The rounding of a request that is no power of two. */
  lemma Rounded(size: nat, up: nat)
    requires 0 < size < WRAP && size <= up && (exists j: nat :: j <= 32 && up == Pow2(j))
    requires forall j: nat :: size <= Pow2(j) ==> up <= Pow2(j)
    ensures size <= MAX_SIZE ==> up % WRAP == up && RingSize(up)
    ensures size > MAX_SIZE ==> up % WRAP == 0
  {
    Pow2Values();
    var j: nat :| j <= 32 && up == Pow2(j);
    if size <= MAX_SIZE {
      assert up <= Pow2(31);
      assert j != 32;
    } else if j <= 31 {
      Pow2Monotone(j, 31);
    }
  }

  /** A request that is a power of two. */
  lemma NotRounded(size: nat)
    requires 0 < size < WRAP && And(size, size - 1) == 0
    ensures RingSize(size)
  {
    var j := LogOf(size);
    Pow2Values();
    if j > 31 {
      Pow2Monotone(32, j);
    }
  }
}
