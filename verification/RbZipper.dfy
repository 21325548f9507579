/** Red-black rebalancing on values: what the two fix-up loops of datastruct/rbtree.c compute. */
module RbZipper {

  // A position is a tree together with the frames above it, nearest first.  A frame records on
  // which side of its node the position lies, so every pair of mirrored branches of the source
  // is one case here.

  datatype Color = Red | Black

  datatype Dir = Left | Right

  function Flip(d: Dir): Dir {
    if d == Left then Right else Left
  }

  datatype Tree<N> = Leaf | Node(left: Tree<N>, item: N, color: Color, right: Tree<N>)

  datatype Ctx<N> = Top | Frame(dir: Dir, item: N, color: Color, sib: Tree<N>, up: Ctx<N>)

  /** The tree with near on side d of the root and far on the other side. */
  function Join<N>(d: Dir, near: Tree<N>, item: N, color: Color, far: Tree<N>): Tree<N> {
    if d == Left then Node(near, item, color, far) else Node(far, item, color, near)
  }

  function Near<N>(d: Dir, t: Tree<N>): Tree<N>
    requires t.Node?
  {
    if d == Left then t.left else t.right
  }

  function Far<N>(d: Dir, t: Tree<N>): Tree<N>
    requires t.Node?
  {
    Near(Flip(d), t)
  }

  function Plug<N>(ctx: Ctx<N>, t: Tree<N>): Tree<N>
    decreases ctx
  {
    match ctx
    case Top => t
    case Frame(d, n, c, s, up) => Plug(up, Join(d, t, n, c, s))
  }

  function Depth<N>(ctx: Ctx<N>): nat {
    if ctx.Top? then 0 else 1 + Depth(ctx.up)
  }

  function InOrder<N>(t: Tree<N>): seq<N> {
    if t.Leaf? then [] else InOrder(t.left) + [t.item] + InOrder(t.right)
  }

  /** What comes before and after the position, in order. */
  function Before<N>(ctx: Ctx<N>): seq<N> {
    match ctx
    case Top => []
    case Frame(d, n, _, s, up) => Before(up) + if d == Left then [] else InOrder(s) + [n]
  }

  function After<N>(ctx: Ctx<N>): seq<N> {
    match ctx
    case Top => []
    case Frame(d, n, _, s, up) => (if d == Left then [n] + InOrder(s) else []) + After(up)
  }

  /** The three ways of regrouping a concatenation that the proofs below need. */
  lemma Regroup<N>(a: seq<N>, b: seq<N>, c: seq<N>, d: seq<N>, e: seq<N>)
    ensures a + (b + c + d) + e == a + b + (c + d + e)
    ensures a + (b + c + d) + e == (a + (b + c)) + d + e
    ensures a + b + (c + d + e) == (a + b + c) + d + e
  {
  }

  lemma {:induction false} InOrderPlug<N>(ctx: Ctx<N>, t: Tree<N>)
    ensures InOrder(Plug(ctx, t)) == Before(ctx) + InOrder(t) + After(ctx)
    decreases ctx
  {
    match ctx
    case Top =>
      assert [] + InOrder(t) + [] == InOrder(t);
    case Frame(d, n, c, s, up) =>
      InOrderPlug(up, Join(d, t, n, c, s));
      if d == Left {
        Regroup(Before(up), InOrder(t), [n], InOrder(s), After(up));
        assert Before(ctx) == Before(up);
      } else {
        Regroup(Before(up), InOrder(s), [n], InOrder(t), After(up));
        assert After(ctx) == After(up);
      }
  }

  // ---------- red-black trees ----------

  predicate IsBlack<N>(t: Tree<N>) {
    t.Node? ==> t.color == Black
  }

  function Weight(c: Color): nat {
    if c == Black then 1 else 0
  }

  /** Black nodes on the leftmost path. */
  function BlackHeight<N>(t: Tree<N>): nat {
    if t.Leaf? then 0 else BlackHeight(t.left) + Weight(t.color)
  }

  /** Every path from the root has the same number of black nodes. */
  predicate Balanced<N>(t: Tree<N>) {
    t.Node? ==> Balanced(t.left) && Balanced(t.right) && BlackHeight(t.left) == BlackHeight(t.right)
  }

  predicate NoRedRed<N>(t: Tree<N>) {
    t.Node? ==>
      && NoRedRed(t.left) && NoRedRed(t.right)
      && (t.color == Red ==> IsBlack(t.left) && IsBlack(t.right))
  }

  predicate IsRb<N>(t: Tree<N>) {
    IsBlack(t) && Balanced(t) && NoRedRed(t)
  }

  predicate Sound<N>(t: Tree<N>) {
    Balanced(t) && NoRedRed(t)
  }

  /** When two sound trees may stand below a node of colour c. */
  predicate Joinable<N>(a: Tree<N>, c: Color, b: Tree<N>) {
    Sound(a) && Sound(b) && BlackHeight(a) == BlackHeight(b) && (c == Red ==> IsBlack(a) && IsBlack(b))
  }

  lemma JoinSound<N>(d: Dir, a: Tree<N>, n: N, c: Color, b: Tree<N>)
    ensures Sound(Join(d, a, n, c, b)) <==> Joinable(a, c, b)
    ensures Joinable(a, c, b) ==> BlackHeight(Join(d, a, n, c, b)) == BlackHeight(a) + Weight(c)
  {
  }

  /** A tree of black height h at this position keeps the whole tree balanced. */
  predicate CtxBalanced<N>(ctx: Ctx<N>, h: nat) {
    ctx.Frame? ==>
      && Balanced(ctx.sib) && BlackHeight(ctx.sib) == h
      && CtxBalanced(ctx.up, h + Weight(ctx.color))
  }

  /** No red node above the position has a red child or is the root. */
  predicate CtxNoRedRed<N>(ctx: Ctx<N>) {
    ctx.Frame? ==>
      && NoRedRed(ctx.sib) && CtxNoRedRed(ctx.up)
      && (ctx.color == Red ==> IsBlack(ctx.sib) && ctx.up.Frame? && ctx.up.color == Black)
  }

  predicate CtxBlack<N>(ctx: Ctx<N>) {
    ctx.Frame? && ctx.color == Black
  }

  /** The whole tree is red-black exactly when its parts fit. */
  predicate Fits<N>(ctx: Ctx<N>, t: Tree<N>) {
    && Balanced(t) && NoRedRed(t)
    && CtxBalanced(ctx, BlackHeight(t)) && CtxNoRedRed(ctx)
    && (IsBlack(t) || CtxBlack(ctx))
  }

  lemma {:induction false} FitsIsRb<N>(ctx: Ctx<N>, t: Tree<N>)
    ensures Fits(ctx, t) <==> IsRb(Plug(ctx, t))
    decreases ctx
  {
    match ctx
    case Top =>
    case Frame(d, n, c, s, up) =>
      var j := Join(d, t, n, c, s);
      FitsIsRb(up, j);
      assert Fits(ctx, t) <==> Fits(up, j);
  }

  function Blacken<N>(t: Tree<N>): Tree<N> {
    if t.Leaf? then t else t.(color := Black)
  }

  // ---------- insertion ----------

  /** A red node is in place and the only possible fault is a red parent. */
  predicate InsertReady<N>(ctx: Ctx<N>, t: Tree<N>) {
    && t.Node? && t.color == Red && Balanced(t) && NoRedRed(t)
    && CtxBalanced(ctx, BlackHeight(t)) && CtxNoRedRed(ctx)
  }

  /** The grandparent's subtree after parent and uncle turned black. */
  function InsertRecolored<N>(ctx: Ctx<N>, t: Tree<N>): Tree<N>
    requires ctx.Frame? && ctx.up.Frame?
  {
    var g := ctx.up;
    Join(g.dir, Join(ctx.dir, t, ctx.item, Black, ctx.sib), g.item, Red, Blacken(g.sib))
  }

  /** The loop of rb_insert_color, without the final recolouring of the root. */
  function InsertFix<N>(ctx: Ctx<N>, t: Tree<N>): Tree<N>
    requires InsertReady(ctx, t)
    decreases Depth(ctx)
  {
    if ctx.Top? || ctx.color == Black then Plug(ctx, t)
    else
      InsertStepReady(ctx, t);
      if !IsBlack(ctx.up.sib) then InsertFix(ctx.up.up, InsertRecolored(ctx, t))
      else Plug(ctx.up.up, InsertRotated(ctx, t))
  }

  /** The outcome of the one or two rotations below the grandparent's parent. */
  function InsertRotated<N>(ctx: Ctx<N>, t: Tree<N>): Tree<N>
    requires ctx.Frame? && ctx.up.Frame? && t.Node?
  {
    var g := ctx.up;
    var d := g.dir;
    if ctx.dir == d then
      Join(d, t, ctx.item, Black, Join(d, ctx.sib, g.item, Red, g.sib))
    else
      Join(d, Join(d, ctx.sib, ctx.item, Red, Near(d, t)), t.item, Black, Join(d, Far(d, t), g.item, Red, g.sib))
  }

  /** Each branch of the loop body leads to a position the loop can handle, or to the end. */
  lemma InsertStepReady<N>(ctx: Ctx<N>, t: Tree<N>)
    requires InsertReady(ctx, t) && ctx.Frame? && ctx.color == Red
    ensures ctx.up.Frame? && ctx.up.color == Black && Depth(ctx.up.up) < Depth(ctx)
    ensures !IsBlack(ctx.up.sib) ==> InsertReady(ctx.up.up, InsertRecolored(ctx, t))
    ensures IsBlack(ctx.up.sib) ==> Fits(ctx.up.up, InsertRotated(ctx, t))
  {
    var g := ctx.up;
    var d, u := g.dir, g.sib;
    assert Depth(ctx) == 1 + Depth(g) == 2 + Depth(g.up);
    assert CtxBalanced(g, BlackHeight(t)) && CtxNoRedRed(g);
    if !IsBlack(u) {
      JoinSound(ctx.dir, t, ctx.item, Black, ctx.sib);
      JoinSound(Left, u.left, u.item, Red, u.right);
      JoinSound(Left, u.left, u.item, Black, u.right);
      JoinSound(d, Join(ctx.dir, t, ctx.item, Black, ctx.sib), g.item, Red, Blacken(u));
    } else if ctx.dir == d {
      JoinSound(d, ctx.sib, g.item, Red, u);
      JoinSound(d, t, ctx.item, Black, Join(d, ctx.sib, g.item, Red, u));
    } else {
      assert t == Join(d, Near(d, t), t.item, Red, Far(d, t));
      JoinSound(d, Near(d, t), t.item, Red, Far(d, t));
      JoinSound(d, ctx.sib, ctx.item, Red, Near(d, t));
      JoinSound(d, Far(d, t), g.item, Red, u);
      JoinSound(d, Join(d, ctx.sib, ctx.item, Red, Near(d, t)), t.item, Black, Join(d, Far(d, t), g.item, Red, u));
    }
  }

  /** rb_insert_color restores every red-black rule and keeps the order. */
  lemma {:induction false} InsertFixCorrect<N>(ctx: Ctx<N>, t: Tree<N>)
    requires InsertReady(ctx, t)
    ensures InsertFix(ctx, t).Node? && IsRb(Blacken(InsertFix(ctx, t)))
    ensures InOrder(InsertFix(ctx, t)) == InOrder(Plug(ctx, t))
    decreases Depth(ctx)
  {
    if ctx.Top? {
    } else if ctx.color == Black {
      FitsIsRb(ctx, t);
      PlugNode(ctx, t);
    } else {
      InsertStepReady(ctx, t);
      var g := ctx.up;
      var was := Join(g.dir, Join(ctx.dir, t, ctx.item, ctx.color, ctx.sib), g.item, g.color, g.sib);
      assert Plug(ctx, t) == Plug(g.up, was);
      InOrderPlug(g.up, was);
      if !IsBlack(g.sib) {
        var now := InsertRecolored(ctx, t);
        InsertFixCorrect(g.up, now);
        InOrderPlug(g.up, now);
        InsertRecoloredOrder(ctx, t);
      } else {
        var now := InsertRotated(ctx, t);
        InsertRotatedOrder(ctx, t);
        InOrderPlug(g.up, now);
        FitsIsRb(g.up, now);
        PlugNode(g.up, now);
      }
    }
  }

  lemma InsertRecoloredOrder<N>(ctx: Ctx<N>, t: Tree<N>)
    requires ctx.Frame? && ctx.up.Frame?
    ensures InOrder(InsertRecolored(ctx, t))
         == InOrder(Join(ctx.up.dir, Join(ctx.dir, t, ctx.item, ctx.color, ctx.sib),
                         ctx.up.item, ctx.up.color, ctx.up.sib))
  {
    assert InOrder(Blacken(ctx.up.sib)) == InOrder(ctx.up.sib);
    assert InOrder(Join(ctx.dir, t, ctx.item, Black, ctx.sib))
        == InOrder(Join(ctx.dir, t, ctx.item, ctx.color, ctx.sib));
  }

  /** A rotation keeps the order. */
  lemma RotationOrder<N>(d: Dir, a: Tree<N>, x: N, cx: Color, b: Tree<N>, y: N, cy: Color, c: Tree<N>,
                         cx': Color, cy': Color)
    ensures InOrder(Join(d, Join(d, a, x, cx, b), y, cy, c)) == InOrder(Join(d, a, x, cx', Join(d, b, y, cy', c)))
  {
    if d == Left {
      Regroup(InOrder(a), [x], InOrder(b), [y], InOrder(c));
    } else {
      Regroup(InOrder(c), [y], InOrder(b), [x], InOrder(a));
    }
  }

  lemma InsertRotatedOrder<N>(ctx: Ctx<N>, t: Tree<N>)
    requires ctx.Frame? && ctx.up.Frame? && t.Node?
    ensures InOrder(InsertRotated(ctx, t))
         == InOrder(Join(ctx.up.dir, Join(ctx.dir, t, ctx.item, ctx.color, ctx.sib),
                         ctx.up.item, ctx.up.color, ctx.up.sib))
  {
    var g := ctx.up;
    var d := g.dir;
    if ctx.dir == d {
      RotationOrder(d, t, ctx.item, ctx.color, ctx.sib, g.item, g.color, g.sib, Black, Red);
    } else {
      var a, b := Near(d, t), Far(d, t);
      var l := Join(d, ctx.sib, ctx.item, Red, a);
      RotationOrder(d, l, t.item, Red, b, g.item, g.color, g.sib, Black, Red);
      RotationOrder(d, ctx.sib, ctx.item, Red, a, t.item, Red, b, ctx.color, t.color);
      assert t == Join(d, a, t.item, t.color, b);
      assert Join(ctx.dir, t, ctx.item, ctx.color, ctx.sib) == Join(d, ctx.sib, ctx.item, ctx.color, t);
      JoinOrder(d, Join(d, l, t.item, Red, b), Join(d, ctx.sib, ctx.item, ctx.color, t), g.item, g.color, g.sib);
    }
  }

  lemma JoinOrder<N>(d: Dir, a: Tree<N>, a': Tree<N>, n: N, c: Color, b: Tree<N>)
    requires InOrder(a) == InOrder(a')
    ensures InOrder(Join(d, a, n, c, b)) == InOrder(Join(d, a', n, c, b))
    ensures InOrder(Join(d, b, n, c, a)) == InOrder(Join(d, b, n, c, a'))
  {
  }

  /** Where rb_insert_color's node ends up after its rotations: below a black parent. */
  function InsertSettled<N>(ctx: Ctx<N>, t: Tree<N>): (Ctx<N>, Tree<N>)
    requires ctx.Frame? && ctx.up.Frame? && t.Node?
  {
    var g := ctx.up;
    var d := g.dir;
    if ctx.dir == d then
      (Frame(d, ctx.item, Black, Join(d, ctx.sib, g.item, Red, g.sib), g.up), t)
    else
      (Frame(d, t.item, Black, Join(d, Far(d, t), g.item, Red, g.sib), g.up),
       Join(d, ctx.sib, ctx.item, Red, Near(d, t)))
  }

  lemma InsertSettles<N>(ctx: Ctx<N>, t: Tree<N>)
    requires InsertReady(ctx, t) && ctx.Frame? && ctx.color == Red && ctx.up.Frame? && IsBlack(ctx.up.sib)
    ensures var (c, s) := InsertSettled(ctx, t);
      InsertReady(c, s) && c.color == Black && InsertFix(c, s) == InsertFix(ctx, t) && Depth(c) < Depth(ctx)
  {
    InsertStepReady(ctx, t);
    var (c, s) := InsertSettled(ctx, t);
    var j := InsertRotated(ctx, t);
    assert j == Join(c.dir, s, c.item, Black, c.sib);
    FitsIsRb(c.up, j);
    assert Plug(c, s) == Plug(c.up, j);
    FitsIsRb(c, s);
    assert Depth(ctx) == 2 + Depth(ctx.up.up) && Depth(c) == 1 + Depth(ctx.up.up);
  }

  lemma {:induction false} PlugNode<N>(ctx: Ctx<N>, t: Tree<N>)
    requires t.Node?
    ensures Plug(ctx, t).Node?
    decreases ctx
  {
    if ctx.Frame? {
      PlugNode(ctx.up, Join(ctx.dir, t, ctx.item, ctx.color, ctx.sib));
    }
  }

  // ---------- removal ----------

  /** The tree at the position is one black node short; if its root is red, it may have red children. */
  predicate EraseReady<N>(ctx: Ctx<N>, t: Tree<N>) {
    && Balanced(t) && Sound(Blacken(t))
    && CtxBalanced(ctx, BlackHeight(t) + 1) && CtxNoRedRed(ctx)
  }

  /** The position after the rotation that brings a black sibling next to t. */
  function SiblingTurned<N>(ctx: Ctx<N>): Ctx<N>
    requires ctx.Frame? && ctx.sib.Node?
  {
    var d := ctx.dir;
    Frame(d, ctx.item, Red, Near(d, ctx.sib), Frame(d, ctx.sib.item, Black, Far(d, ctx.sib), ctx.up))
  }

  /** The subtree at the parent after its black sibling turned red. */
  function SiblingReddened<N>(ctx: Ctx<N>, t: Tree<N>): Tree<N>
    requires ctx.Frame? && ctx.sib.Node?
  {
    Join(ctx.dir, t, ctx.item, ctx.color, ctx.sib.(color := Red))
  }

  /** The sibling after the preparatory rotation, if its far child is black. */
  function SiblingPrepared<N>(d: Dir, w: Tree<N>): Tree<N>
    requires w.Node? && (IsBlack(Far(d, w)) ==> Near(d, w).Node?)
  {
    if IsBlack(Far(d, w)) then
      var x := Near(d, w);
      Join(d, Near(d, x), x.item, Black, Join(d, Far(d, x), w.item, Red, Far(d, w)))
    else w
  }

  /** The subtree at the parent's place after the closing rotation. */
  function EraseRotated<N>(ctx: Ctx<N>, t: Tree<N>, w: Tree<N>): Tree<N>
    requires ctx.Frame? && w.Node?
  {
    var d := ctx.dir;
    Join(d, Join(d, t, ctx.item, Black, Near(d, w)), w.item, ctx.color, Blacken(Far(d, w)))
  }

  function EraseMeasure<N>(ctx: Ctx<N>, t: Tree<N>): nat {
    if !IsBlack(t) || ctx.Top? then 0
    else if !IsBlack(ctx.sib) then 3 + 2 * Depth(ctx)
    else if ctx.color == Red then 1
    else 2 + 2 * Depth(ctx)
  }

  /** __rb_erase_color. */
  function EraseFix<N>(ctx: Ctx<N>, t: Tree<N>): Tree<N>
    requires EraseReady(ctx, t)
    decreases EraseMeasure(ctx, t)
  {
    if !IsBlack(t) || ctx.Top? then Plug(ctx, Blacken(t))
    else
      SiblingExists(ctx, t);
      if !IsBlack(ctx.sib) then
        SiblingTurnedReady(ctx, t);
        EraseFix(SiblingTurned(ctx), t)
      else if IsBlack(ctx.sib.left) && IsBlack(ctx.sib.right) then
        SiblingReddenedReady(ctx, t);
        EraseFix(ctx.up, SiblingReddened(ctx, t))
      else
        EraseRotatedFits(ctx, t);
        Plug(ctx.up, EraseRotated(ctx, t, SiblingPrepared(ctx.dir, ctx.sib)))
  }

  /** A red sibling: the rotation at the parent brings a black sibling down. */
  lemma SiblingTurnedReady<N>(ctx: Ctx<N>, t: Tree<N>)
    requires EraseReady(ctx, t) && IsBlack(t) && ctx.Frame? && !IsBlack(ctx.sib)
    ensures EraseReady(SiblingTurned(ctx), t) && IsBlack(Near(ctx.dir, ctx.sib)) && ctx.color == Black
    ensures EraseMeasure(SiblingTurned(ctx), t) < EraseMeasure(ctx, t)
  {
    var d, w := ctx.dir, ctx.sib;
    assert w == Join(d, Near(d, w), w.item, Red, Far(d, w));
    JoinSound(d, Near(d, w), w.item, Red, Far(d, w));
  }

  /** A black sibling with black children: one black node less on its side too. */
  lemma SiblingReddenedReady<N>(ctx: Ctx<N>, t: Tree<N>)
    requires EraseReady(ctx, t) && IsBlack(t) && ctx.Frame? && ctx.sib.Node?
    requires IsBlack(ctx.sib) && IsBlack(ctx.sib.left) && IsBlack(ctx.sib.right)
    ensures EraseReady(ctx.up, SiblingReddened(ctx, t))
    ensures EraseMeasure(ctx.up, SiblingReddened(ctx, t)) < EraseMeasure(ctx, t)
  {
    var w := ctx.sib;
    JoinSound(Left, w.left, w.item, Black, w.right);
    JoinSound(Left, w.left, w.item, Red, w.right);
    JoinSound(ctx.dir, t, ctx.item, Black, w.(color := Red));
    assert Blacken(SiblingReddened(ctx, t)) == Join(ctx.dir, t, ctx.item, Black, w.(color := Red));
  }

  /** A black sibling with a red child: one or two rotations finish. */
  lemma EraseRotatedFits<N>(ctx: Ctx<N>, t: Tree<N>)
    requires EraseReady(ctx, t) && IsBlack(t) && ctx.Frame? && ctx.sib.Node?
    requires IsBlack(ctx.sib) && !(IsBlack(ctx.sib.left) && IsBlack(ctx.sib.right))
    ensures IsBlack(Far(ctx.dir, ctx.sib)) ==> Near(ctx.dir, ctx.sib).Node?
    ensures Fits(ctx.up, EraseRotated(ctx, t, SiblingPrepared(ctx.dir, ctx.sib)))
  {
    var d, w := ctx.dir, ctx.sib;
    JoinSound(d, Near(d, w), w.item, Black, Far(d, w));
    var near, far := Near(d, w), Far(d, w);
    if IsBlack(far) {
      var a, b := Near(d, near), Far(d, near);
      JoinSound(d, a, near.item, Red, b);
      JoinSound(d, b, w.item, Black, far);
      near, far := a, Join(d, b, w.item, Red, far);
    } else {
      JoinSound(d, far.left, far.item, Red, far.right);
      JoinSound(Left, far.left, far.item, Red, far.right);
      JoinSound(Left, far.left, far.item, Black, far.right);
    }
    var w' := SiblingPrepared(d, w);
    assert near == Near(d, w') && far == Far(d, w');
    JoinSound(d, t, ctx.item, Black, near);
    JoinSound(d, Join(d, t, ctx.item, Black, near), w'.item, ctx.color, Blacken(far));
  }

  lemma SiblingExists<N>(ctx: Ctx<N>, t: Tree<N>)
    requires EraseReady(ctx, t) && ctx.Frame?
    ensures ctx.sib.Node?
  {
  }

  lemma EraseRotatedOrder<N>(ctx: Ctx<N>, t: Tree<N>)
    requires ctx.Frame? && ctx.sib.Node?
    requires IsBlack(Far(ctx.dir, ctx.sib)) ==> Near(ctx.dir, ctx.sib).Node?
    ensures InOrder(EraseRotated(ctx, t, SiblingPrepared(ctx.dir, ctx.sib)))
         == InOrder(Join(ctx.dir, t, ctx.item, ctx.color, ctx.sib))
  {
    var d, w := ctx.dir, ctx.sib;
    var w' := SiblingPrepared(d, w);
    assert w == Join(d, Near(d, w), w.item, w.color, Far(d, w));
    if IsBlack(Far(d, w)) {
      var x := Near(d, w);
      assert x == Join(d, Near(d, x), x.item, x.color, Far(d, x));
      RotationOrder(d, Near(d, x), x.item, x.color, Far(d, x), w.item, w.color, Far(d, w), Black, Red);
    }
    assert InOrder(w') == InOrder(w);
    assert InOrder(Blacken(Far(d, w'))) == InOrder(Far(d, w'));
    assert w' == Join(d, Near(d, w'), w'.item, w'.color, Far(d, w'));
    var p := Join(d, t, ctx.item, Black, Near(d, w'));
    JoinOrder(d, Blacken(Far(d, w')), Far(d, w'), w'.item, ctx.color, p);
    JoinOrder(Flip(d), Blacken(Far(d, w')), Far(d, w'), w'.item, ctx.color, p);
    RotationOrder(d, t, ctx.item, Black, Near(d, w'), w'.item, ctx.color, Far(d, w'), ctx.color, w'.color);
    JoinOrder(Flip(d), w', w, ctx.item, ctx.color, t);
  }

  lemma SiblingTurnedOrder<N>(ctx: Ctx<N>, t: Tree<N>)
    requires ctx.Frame? && ctx.sib.Node?
    ensures InOrder(Plug(SiblingTurned(ctx), t)) == InOrder(Plug(ctx, t))
  {
    var d, w := ctx.dir, ctx.sib;
    var was := Join(d, t, ctx.item, ctx.color, w);
    var now := Join(d, Join(d, t, ctx.item, Red, Near(d, w)), w.item, Black, Far(d, w));
    RotationOrder(d, t, ctx.item, Red, Near(d, w), w.item, Black, Far(d, w), ctx.color, w.color);
    assert w == Join(d, Near(d, w), w.item, w.color, Far(d, w));
    InOrderPlug(ctx.up, was);
    InOrderPlug(ctx.up, now);
    TurnedPlug(ctx, t);
  }

  lemma TurnedPlug<N>(ctx: Ctx<N>, t: Tree<N>)
    requires ctx.Frame? && ctx.sib.Node?
    ensures var d, w := ctx.dir, ctx.sib;
      Plug(SiblingTurned(ctx), t)
        == Plug(ctx.up, Join(d, Join(d, t, ctx.item, Red, Near(d, w)), w.item, Black, Far(d, w)))
  {
    var turned := SiblingTurned(ctx);
    assert Plug(turned, t) == Plug(turned.up, Join(ctx.dir, t, ctx.item, Red, Near(ctx.dir, ctx.sib)));
  }

  lemma {:induction false} EraseFixCorrect<N>(ctx: Ctx<N>, t: Tree<N>)
    requires EraseReady(ctx, t)
    ensures IsRb(EraseFix(ctx, t))
    ensures InOrder(EraseFix(ctx, t)) == InOrder(Plug(ctx, t))
    decreases EraseMeasure(ctx, t)
  {
    if !IsBlack(t) || ctx.Top? {
      assert !IsBlack(t) ==> Fits(ctx, Blacken(t));
      FitsIsRb(ctx, Blacken(t));
      InOrderPlug(ctx, t);
      InOrderPlug(ctx, Blacken(t));
    } else {
      SiblingExists(ctx, t);
      var was := Join(ctx.dir, t, ctx.item, ctx.color, ctx.sib);
      InOrderPlug(ctx.up, was);
      if !IsBlack(ctx.sib) {
        SiblingTurnedReady(ctx, t);
        EraseFixCorrect(SiblingTurned(ctx), t);
        SiblingTurnedOrder(ctx, t);
      } else if IsBlack(ctx.sib.left) && IsBlack(ctx.sib.right) {
        SiblingReddenedReady(ctx, t);
        EraseFixCorrect(ctx.up, SiblingReddened(ctx, t));
        InOrderPlug(ctx.up, SiblingReddened(ctx, t));
        assert InOrder(ctx.sib.(color := Red)) == InOrder(ctx.sib);
      } else {
        EraseRotatedFits(ctx, t);
        var now := EraseRotated(ctx, t, SiblingPrepared(ctx.dir, ctx.sib));
        FitsIsRb(ctx.up, now);
        EraseRotatedOrder(ctx, t);
        InOrderPlug(ctx.up, now);
      }
    }
  }
}
