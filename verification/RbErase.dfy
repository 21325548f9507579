/**
  Removal of any node (rb_erase), the height bound, and in-order stepping, on values.
 */
module RbErase {
  import opened Arithmetic
  import opened RbZipper

  // ---------- finding the successor ----------

  function MinItem<N>(t: Tree<N>): N
    requires t.Node?
  {
    if t.left.Leaf? then t.item else MinItem(t.left)
  }

  /** The position of the leftmost node below t. */
  function Leftmost<N>(ctx: Ctx<N>, t: Tree<N>): (r: (Ctx<N>, Tree<N>))
    requires t.Node?
    ensures r.1.Node? && r.1.left.Leaf? && r.1.item == MinItem(t)
    ensures Plug(r.0, r.1) == Plug(ctx, t)
    decreases t
  {
    if t.left.Leaf? then (ctx, t)
    else Leftmost(Frame(Left, t.item, t.color, t.right, ctx), t.left)
  }

  lemma {:induction false} LeftmostOrder<N>(ctx: Ctx<N>, t: Tree<N>)
    requires t.Node?
    ensures var (c, m) := Leftmost(ctx, t);
      Before(c) == Before(ctx) && [m.item] + InOrder(m.right) + After(c) == InOrder(t) + After(ctx)
    decreases t
  {
    if t.left.Leaf? {
      assert InOrder(t) == [t.item] + InOrder(t.right);
    } else {
      var up := Frame(Left, t.item, t.color, t.right, ctx);
      LeftmostOrder(up, t.left);
      assert Before(up) == Before(ctx);
      assert InOrder(t.left) + ([t.item] + InOrder(t.right) + After(ctx))
          == InOrder(t.left) + [t.item] + InOrder(t.right) + After(ctx);
    }
  }

  // ---------- rb_erase ----------

  function OnlyChild<N>(t: Tree<N>): Tree<N>
    requires t.Node? && (t.left.Leaf? || t.right.Leaf?)
  {
    if t.left.Leaf? then t.right else t.left
  }

  /** The successor's place once the successor has taken over t's own. */
  function Spliced<N>(ctx: Ctx<N>, t: Tree<N>): (Ctx<N>, Tree<N>)
    requires t.Node? && t.right.Node?
  {
    Leftmost(Frame(Right, MinItem(t.right), t.color, t.left, ctx), t.right)
  }

  /** Which place loses its node, and what moves up there. */
  function Vacated<N>(ctx: Ctx<N>, t: Tree<N>): (r: (Ctx<N>, Color, Tree<N>))
    requires t.Node?
  {
    if t.left.Leaf? || t.right.Leaf? then (ctx, t.color, OnlyChild(t))
    else
      var (c, m) := Spliced(ctx, t);
      (c, m.color, m.right)
  }

  lemma VacatedReady<N>(ctx: Ctx<N>, t: Tree<N>)
    requires t.Node? && IsRb(Plug(ctx, t))
    ensures var (c, color, child) := Vacated(ctx, t);
      if color == Black then EraseReady(c, child) else Fits(c, child)
  {
    FitsIsRb(ctx, t);
    JoinSound(Left, t.left, t.item, t.color, t.right);
    if t.left.Leaf? || t.right.Leaf? {
      OnlyChildReady(ctx, t);
    } else {
      var up := Frame(Right, MinItem(t.right), t.color, t.left, ctx);
      assert Fits(up, t.right);
      FitsIsRb(up, t.right);
      var (c, m) := Spliced(ctx, t);
      FitsIsRb(c, m);
      OnlyChildReady(c, m);
    }
  }

  lemma OnlyChildReady<N>(ctx: Ctx<N>, t: Tree<N>)
    requires t.Node? && (t.left.Leaf? || t.right.Leaf?) && Fits(ctx, t)
    ensures if t.color == Black then EraseReady(ctx, OnlyChild(t)) else Fits(ctx, OnlyChild(t))
  {
    JoinSound(Left, t.left, t.item, t.color, t.right);
    var k := OnlyChild(t);
    if k.Node? {
      JoinSound(Left, k.left, k.item, k.color, k.right);
      JoinSound(Left, k.left, k.item, Black, k.right);
    }
  }

  /** The tree after rb_erase of the node at the given position. */
  function EraseAt<N>(ctx: Ctx<N>, t: Tree<N>): Tree<N>
    requires t.Node? && IsRb(Plug(ctx, t))
  {
    VacatedReady(ctx, t);
    var (c, color, child) := Vacated(ctx, t);
    if color == Black then EraseFix(c, child) else Plug(c, child)
  }

  lemma Reassociate<N>(b: seq<N>, l: seq<N>, s: seq<N>, k: seq<N>, c: seq<N>)
    ensures (b + (l + s)) + k + c == (b + l) + (s + k + c)
    ensures b + l + c == b + (l + c)
    ensures b + (l + s + k) + c == (b + l) + s + (k + c)
  {
  }

  /** Only the node itself leaves the order. */
  lemma VacatedOrder<N>(ctx: Ctx<N>, t: Tree<N>)
    requires t.Node?
    ensures var (c, _, child) := Vacated(ctx, t);
      Before(c) + InOrder(child) + After(c) == (Before(ctx) + InOrder(t.left)) + (InOrder(t.right) + After(ctx))
  {
    var b, l, r, a := Before(ctx), InOrder(t.left), InOrder(t.right), After(ctx);
    if t.left.Leaf? {
      Reassociate(b, r, [], [], a);
      assert b + l == b;
    } else if t.right.Leaf? {
      assert r + a == a;
    } else {
      SplicedOrder(ctx, t);
    }
  }

  /** The successor has moved up from the front of the right subtree. */
  lemma SplicedOrder<N>(ctx: Ctx<N>, t: Tree<N>)
    requires t.Node? && t.right.Node?
    ensures var (c, m) := Spliced(ctx, t);
      Before(c) + InOrder(m.right) + After(c) == (Before(ctx) + InOrder(t.left)) + (InOrder(t.right) + After(ctx))
  {
    var above := Frame(Right, MinItem(t.right), t.color, t.left, ctx);
    var (c, m) := Leftmost(above, t.right);
    LeftmostOrder(above, t.right);
    Regrouped(Before(ctx), InOrder(t.left), m.item, InOrder(m.right), After(c), InOrder(t.right), After(ctx));
  }

  lemma Regrouped<N>(b: seq<N>, l: seq<N>, x: N, k: seq<N>, c: seq<N>, r: seq<N>, a: seq<N>)
    requires r + a == [x] + k + c
    ensures (b + (l + [x])) + k + c == (b + l) + (r + a)
    ensures (b + l + [x]) + k + c == (b + l) + (r + a)
  {
    Reassociate(b, l, [x], k, c);
    assert b + l + [x] == b + (l + [x]);
  }

  /** A sequence without its middle. */
  lemma WithoutMiddle<N>(b: seq<N>, x: N, a: seq<N>)
    ensures var s := b + [x] + a; s[..|b|] + s[|b| + 1..] == b + a
  {
    var s := b + [x] + a;
    assert s[..|b|] == b && s[|b| + 1..] == a;
  }

  /** rb_erase yields a red-black tree whose order is the old one without the node. */
  lemma EraseAtCorrect<N>(ctx: Ctx<N>, t: Tree<N>)
    requires t.Node? && IsRb(Plug(ctx, t))
    ensures IsRb(EraseAt(ctx, t))
    ensures InOrder(Plug(ctx, t)) == (Before(ctx) + InOrder(t.left)) + [t.item] + (InOrder(t.right) + After(ctx))
    ensures InOrder(EraseAt(ctx, t)) == (Before(ctx) + InOrder(t.left)) + (InOrder(t.right) + After(ctx))
  {
    VacatedReady(ctx, t);
    var (c, color, child) := Vacated(ctx, t);
    if color == Black {
      EraseFixCorrect(c, child);
    } else {
      FitsIsRb(c, child);
    }
    InOrderPlug(c, child);
    VacatedOrder(ctx, t);
    InOrderPlug(ctx, t);
    Reassociate(Before(ctx), InOrder(t.left), [t.item], InOrder(t.right), After(ctx));
  }

  // ---------- insertion of a leaf ----------

  function NewLeaf<N>(n: N): Tree<N> {
    Node(Leaf, n, Red, Leaf)
  }

  /** The tree after rb_link_node at an empty place and rb_insert_color. */
  function InsertAt<N>(ctx: Ctx<N>, n: N): Tree<N>
    requires IsRb(Plug(ctx, Leaf))
  {
    NewLeafReady(ctx, n);
    Blacken(InsertFix(ctx, NewLeaf(n)))
  }

  lemma NewLeafReady<N>(ctx: Ctx<N>, n: N)
    requires IsRb(Plug(ctx, Leaf))
    ensures InsertReady(ctx, NewLeaf(n))
  {
    FitsIsRb(ctx, Leaf);
  }

  /** Insertion keeps the red-black rules and puts exactly the new node at its place. */
  lemma InsertAtCorrect<N>(ctx: Ctx<N>, n: N)
    requires IsRb(Plug(ctx, Leaf))
    ensures IsRb(InsertAt(ctx, n))
    ensures InOrder(Plug(ctx, Leaf)) == Before(ctx) + After(ctx)
    ensures InOrder(InsertAt(ctx, n)) == Before(ctx) + [n] + After(ctx)
  {
    NewLeafReady(ctx, n);
    InsertFixCorrect(ctx, NewLeaf(n));
    InOrderPlug(ctx, NewLeaf(n));
    InOrderPlug(ctx, Leaf);
    assert InOrder(NewLeaf(n)) == [n];
    assert Before(ctx) + [] + After(ctx) == Before(ctx) + After(ctx);
    var f := InsertFix(ctx, NewLeaf(n));
    assert InOrder(Blacken(f)) == InOrder(f);
  }

  // ---------- runs and height ----------

  /** One insertion or removal at some position. */
  datatype Op<N> = Insert(ctx: Ctx<N>, item: N) | Erase(ctx: Ctx<N>, sub: Tree<N>)

  predicate Applies<N(==)>(t: Tree<N>, op: Op<N>) {
    match op
    case Insert(ctx, n) => Plug(ctx, Leaf) == t
    case Erase(ctx, sub) => sub.Node? && Plug(ctx, sub) == t
  }

  function Apply<N(==)>(t: Tree<N>, op: Op<N>): Tree<N>
    requires IsRb(t) && Applies(t, op)
  {
    match op
    case Insert(ctx, n) => InsertAt(ctx, n)
    case Erase(ctx, sub) => EraseAt(ctx, sub)
  }

  /** t' is reached from t by the given insertions and removals. */
  ghost predicate Reaches<N>(t: Tree<N>, ops: seq<Op<N>>, t': Tree<N>)
    decreases |ops|
  {
    if ops == [] then t' == t
    else IsRb(t) && Applies(t, ops[0]) && Reaches(Apply(t, ops[0]), ops[1..], t')
  }

  function Height<N>(t: Tree<N>): nat {
    if t.Leaf? then 0
    else 1 + if Height(t.left) < Height(t.right) then Height(t.right) else Height(t.left)
  }

  /** The black nodes alone make a full binary tree. */
  lemma {:induction false} SizeBound<N>(t: Tree<N>)
    requires Balanced(t)
    ensures Pow2(BlackHeight(t)) <= |InOrder(t)| + 1
  {
    if t.Node? {
      SizeBound(t.left);
      SizeBound(t.right);
    }
  }

  /** At most every other node on a path is red. */
  lemma {:induction false} HeightBound<N>(t: Tree<N>)
    requires Sound(t)
    ensures Height(t) <= 2 * BlackHeight(t) + if IsBlack(t) then 0 else 1
  {
    if t.Node? {
      JoinSound(Left, t.left, t.item, t.color, t.right);
      HeightBound(t.left);
      HeightBound(t.right);
    }
  }

  lemma {:induction false} ReachesRb<N>(t: Tree<N>, ops: seq<Op<N>>, t': Tree<N>)
    requires IsRb(t) && Reaches(t, ops, t')
    ensures IsRb(t')
    decreases |ops|
  {
    if ops != [] {
      match ops[0] {
        case Insert(ctx, n) => InsertAtCorrect(ctx, n);
        case Erase(ctx, sub) => EraseAtCorrect(ctx, sub);
      }
      ReachesRb(Apply(t, ops[0]), ops[1..], t');
    }
  }

  /** Every tree reached from the empty one has height h with 2^h <= (n + 1)^2. */
  lemma ReachableHeight<N>(ops: seq<Op<N>>, t: Tree<N>)
    requires Reaches(Leaf, ops, t)
    ensures IsRb(t)
    ensures Pow2(Height(t)) <= (|InOrder(t)| + 1) * (|InOrder(t)| + 1)
  {
    ReachesRb(Leaf, ops, t);
    var b := BlackHeight(t);
    HeightBound(t);
    SizeBound(t);
    Pow2Monotone(Height(t), b + b);
    Pow2Add(b, b);
    assert Pow2(b) * Pow2(b) <= (|InOrder(t)| + 1) * (|InOrder(t)| + 1) by {
      MulMonotone(Pow2(b), |InOrder(t)| + 1);
    }
  }

  lemma MulMonotone(a: nat, b: nat)
    requires a <= b
    ensures a * a <= b * b
  {
    assert a * a <= a * b <= b * b;
  }
}
