/** Remainders and powers of two, for the sequence numbers, rings and trees of the other modules. */
module Arithmetic {

  newtype Byte = x: int | 0 <= x < 256

  // ---------- remainders by subtraction ----------

  /** a modulo s, spelled out so that proofs about rings need no division. */
  function Rem(a: nat, s: nat): (r: nat)
    requires s > 0
    ensures r < s
  {
    if a < s then a else Rem(a - s, s)
  }

  lemma {:induction false} RemIsRemainder(a: nat, s: nat)
    requires s > 0
    ensures Rem(a, s) == a % s
  {
    if a < s {
      ModUnique(a, s, 0, a);
    } else {
      RemIsRemainder(a - s, s);
      ModShift(a - s, s, 1);
    }
  }

  /** Two numbers less than s apart with the same remainder are the same. */
  lemma {:induction false} RemUnique(a: nat, b: nat, s: nat)
    requires s > 0 && Rem(a, s) == Rem(b, s) && a < b + s && b < a + s
    ensures a == b
    decreases a
  {
    if a >= s && b >= s {
      RemUnique(a - s, b - s, s);
    }
  }

  /** Adding to a remainder is adding to the number. */
  lemma {:induction false} RemAdd(a: nat, i: nat, s: nat)
    requires s > 0
    ensures Rem(Rem(a, s) + i, s) == Rem(a + i, s)
    decreases a
  {
    if a >= s {
      RemAdd(a - s, i, s);
      assert Rem(a + i, s) == Rem(a - s + i, s);
    }
  }

  /** Remainders by a multiple of s keep the remainder by s. */
  lemma {:induction false} RemNested(a: nat, q: nat, s: nat)
    requires 0 < s <= q && Rem(q, s) == 0
    ensures Rem(Rem(a, q), s) == Rem(a, s)
    decreases a
  {
    if a >= q {
      RemNested(a - q, q, s);
      RemAdd(q, a - q, s);
    }
  }

  // ---------- division ----------

  /** Euclidean division is unique. */
  lemma ModUnique(x: int, s: int, q: int, r: int)
    requires s > 0 && 0 <= r < s && x == q * s + r
    ensures x % s == r && x / s == q
  {
    var q', r' := x / s, x % s;
    assert (q - q') * s == r' - r;
    assert q - q' >= 1 ==> (q - q') * s >= s;
    assert q - q' <= -1 ==> (q - q') * s <= -s;
  }

  lemma ModShift(x: int, s: int, k: int)
    requires s > 0
    ensures (x + k * s) % s == x % s
  {
    assert x + k * s == (x / s + k) * s + x % s;
    ModUnique(x + k * s, s, x / s + k, x % s);
  }

  /** x modulo q, when x is within one modulus of zero. */
  lemma ModNear(x: int, q: int)
    requires 0 < q && -q <= x < q
    ensures x % q == if x < 0 then x + q else x
  {
    if x < 0 {
      ModUnique(x, q, -1, x + q);
    } else {
      ModUnique(x, q, 0, x);
    }
  }

  // ---------- powers of two ----------

  function Pow2(k: nat): (r: nat)
    ensures r > 0
  {
    if k == 0 then 1 else 2 * Pow2(k - 1)
  }

  lemma {:induction false} Pow2Add(a: nat, b: nat)
    ensures Pow2(a + b) == Pow2(a) * Pow2(b)
  {
    if a > 0 {
      Pow2Add(a - 1, b);
      assert Pow2(a) * Pow2(b) == 2 * (Pow2(a - 1) * Pow2(b));
    }
  }

  lemma {:induction false} Pow2Monotone(a: nat, b: nat)
    requires a <= b
    ensures Pow2(a) <= Pow2(b) && (a < b ==> Pow2(a) < Pow2(b))
    decreases b - a
  {
    if a < b {
      Pow2Monotone(a, b - 1);
    }
  }
}
