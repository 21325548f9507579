/**
  When a set of linked nodes represents a tree at a position.

  The fields of the nodes are looked at through a snapshot (a map from node to cell), so that
  every lemma here is about values; RbTree takes the snapshots.
 */
module RbHeap {
  import opened RbZipper
  import opened RbErase

  /** struct rb_node. */
  class RbNode {
    var parent: RbNode?
    var color: Color
    var right: RbNode?
    var left: RbNode?

    constructor () {
      parent, color, right, left := null, Red, null, null;
    }
  }

  type Shape = Tree<RbNode>
  type Place = Ctx<RbNode>

  datatype Cell = Cell(parent: RbNode?, color: Color, left: RbNode?, right: RbNode?)

  type Heap = map<RbNode, Cell>

  ghost function CellOf(n: RbNode): Cell
    reads n
  {
    Cell(n.parent, n.color, n.left, n.right)
  }

  ghost function Snapshot(nodes: set<RbNode>): (h: Heap)
    reads nodes
    ensures h.Keys == nodes
  {
    map n | n in nodes :: CellOf(n)
  }

  function CellAt(d: Dir, parent: RbNode?, color: Color, near: RbNode?, far: RbNode?): Cell {
    if d == Left then Cell(parent, color, near, far) else Cell(parent, color, far, near)
  }

  function Root(t: Shape): RbNode? {
    if t.Leaf? then null else t.item
  }

  function ParentOf(ctx: Place): RbNode? {
    if ctx.Top? then null else ctx.item
  }

  ghost function Items(t: Shape): set<RbNode> {
    if t.Leaf? then {} else Items(t.left) + {t.item} + Items(t.right)
  }

  ghost function CtxItems(ctx: Place): set<RbNode> {
    if ctx.Top? then {} else Items(ctx.sib) + {ctx.item} + CtxItems(ctx.up)
  }

  ghost predicate Distinct(t: Shape) {
    t.Node? ==>
      && Distinct(t.left) && Distinct(t.right)
      && t.item !in Items(t.left) && t.item !in Items(t.right) && Items(t.left) !! Items(t.right)
  }

  ghost predicate CtxDistinct(ctx: Place) {
    ctx.Frame? ==>
      && Distinct(ctx.sib) && CtxDistinct(ctx.up)
      && ctx.item !in Items(ctx.sib) && ctx.item !in CtxItems(ctx.up) && Items(ctx.sib) !! CtxItems(ctx.up)
  }

  /** The cells of t's nodes are linked as t says, with the given parent above the root. */
  ghost predicate TreeAt(h: Heap, t: Shape, parent: RbNode?) {
    t.Node? ==>
      && t.item in h && h[t.item] == Cell(parent, t.color, Root(t.left), Root(t.right))
      && TreeAt(h, t.left, t.item) && TreeAt(h, t.right, t.item)
  }

  /** The cells above the position are linked as ctx says, up to the root pointer. */
  ghost predicate CtxAt(h: Heap, root: RbNode?, ctx: Place, hole: RbNode?) {
    match ctx
    case Top => root == hole
    case Frame(d, n, c, s, up) =>
      && n in h && h[n] == CellAt(d, ParentOf(up), c, hole, Root(s))
      && TreeAt(h, s, n) && CtxAt(h, root, up, n)
  }

  /** The linked nodes represent Plug(ctx, t), seen from the position of t. */
  ghost predicate Rep(h: Heap, root: RbNode?, ctx: Place, t: Shape) {
    && CtxAt(h, root, ctx, Root(t)) && TreeAt(h, t, ParentOf(ctx))
    && Distinct(t) && CtxDistinct(ctx) && Items(t) !! CtxItems(ctx)
  }

  /** The definitions above, for a tree given by its sides. */
  lemma JoinAt(h: Heap, d: Dir, a: Shape, n: RbNode, c: Color, b: Shape, parent: RbNode?)
    ensures Items(Join(d, a, n, c, b)) == Items(a) + {n} + Items(b)
    ensures Distinct(Join(d, a, n, c, b)) <==>
      Distinct(a) && Distinct(b) && n !in Items(a) && n !in Items(b) && Items(a) !! Items(b)
    ensures TreeAt(h, Join(d, a, n, c, b), parent) <==>
      && n in h && h[n] == CellAt(d, parent, c, Root(a), Root(b))
      && TreeAt(h, a, n) && TreeAt(h, b, n)
  {
  }

  // ---------- changing the position ----------

  lemma RepUp(h: Heap, root: RbNode?, ctx: Place, t: Shape)
    requires ctx.Frame?
    ensures Rep(h, root, ctx, t) <==> Rep(h, root, ctx.up, Join(ctx.dir, t, ctx.item, ctx.color, ctx.sib))
  {
  }

  lemma {:induction false} RepPlug(h: Heap, root: RbNode?, ctx: Place, t: Shape)
    ensures Rep(h, root, ctx, t) <==> Rep(h, root, Top, Plug(ctx, t))
    decreases ctx
  {
    if ctx.Frame? {
      RepUp(h, root, ctx, t);
      RepPlug(h, root, ctx.up, Join(ctx.dir, t, ctx.item, ctx.color, ctx.sib));
    }
  }

  /** Two positions in the same tree are represented together. */
  lemma RepMove(h: Heap, root: RbNode?, ctx: Place, t: Shape, ctx': Place, t': Shape)
    requires Rep(h, root, ctx, t) && Plug(ctx, t) == Plug(ctx', t')
    ensures Rep(h, root, ctx', t')
  {
    RepPlug(h, root, ctx, t);
    RepPlug(h, root, ctx', t');
  }

  /** What the links say at a position: its own node, the parent, and the sibling. */
  lemma Focus(h: Heap, root: RbNode?, ctx: Place, t: Shape)
    requires Rep(h, root, ctx, t)
    ensures t.Node? ==> t.item in h && h[t.item] == Cell(ParentOf(ctx), t.color, Root(t.left), Root(t.right))
    ensures ctx.Top? ==> root == Root(t)
    ensures ctx.Frame? ==>
      && ctx.item in h && h[ctx.item] == CellAt(ctx.dir, ParentOf(ctx.up), ctx.color, Root(t), Root(ctx.sib))
      && (ctx.sib.Node? ==> ctx.sib.item in h && ctx.sib.item != Root(t))
      && (ctx.sib.Node? ==> h[ctx.sib.item] == Cell(ctx.item, ctx.sib.color, Root(ctx.sib.left), Root(ctx.sib.right)))
  {
  }

  /** Below a frame, the root pointer leads to a node above the position. */
  lemma {:induction false} RootAbove(h: Heap, root: RbNode?, ctx: Place, hole: RbNode?)
    requires CtxAt(h, root, ctx, hole) && ctx.Frame?
    ensures root != null && root in CtxItems(ctx)
    decreases ctx
  {
    if ctx.up.Frame? {
      RootAbove(h, root, ctx.up, ctx.item);
    }
  }

  // ---------- what a change elsewhere leaves alone ----------

  ghost predicate SameOn(h: Heap, h': Heap, nodes: set<RbNode>) {
    forall n <- nodes :: n in h ==> n in h' && h'[n] == h[n]
  }

  lemma {:induction false} FrameTree(h: Heap, h': Heap, t: Shape, parent: RbNode?)
    requires TreeAt(h, t, parent) && SameOn(h, h', Items(t))
    ensures TreeAt(h', t, parent)
  {
    if t.Node? {
      FrameTree(h, h', t.left, t.item);
      FrameTree(h, h', t.right, t.item);
    }
  }

  lemma {:induction false} FrameCtx(h: Heap, h': Heap, root: RbNode?, ctx: Place, hole: RbNode?)
    requires CtxAt(h, root, ctx, hole) && SameOn(h, h', CtxItems(ctx))
    ensures CtxAt(h', root, ctx, hole)
    decreases ctx
  {
    if ctx.Frame? {
      FrameTree(h, h', ctx.sib, ctx.item);
      FrameCtx(h, h', root, ctx.up, ctx.item);
    }
  }

  /** Only the root of t has a new parent. */
  lemma Reparent(h: Heap, h': Heap, t: Shape, parent: RbNode?, parent': RbNode?)
    requires TreeAt(h, t, parent) && Distinct(t) && h.Keys <= h'.Keys
    requires t.Node? ==> h'[t.item] == h[t.item].(parent := parent') && SameOn(h, h', Items(t) - {t.item})
    ensures TreeAt(h', t, parent')
  {
    if t.Node? {
      assert SameOn(h, h', Items(t.left)) && SameOn(h, h', Items(t.right));
      FrameTree(h, h', t.left, t.item);
      FrameTree(h, h', t.right, t.item);
    }
  }

  /** Only the link that leads to the position is new. */
  lemma Relink(h: Heap, h': Heap, root: RbNode?, root': RbNode?, ctx: Place, hole: RbNode?, hole': RbNode?)
    requires CtxAt(h, root, ctx, hole) && CtxDistinct(ctx) && h.Keys <= h'.Keys
    requires if ctx.Top? then root' == hole'
             else root' == root && SameOn(h, h', CtxItems(ctx) - {ctx.item})
                  && h'[ctx.item] == CellAt(ctx.dir, ParentOf(ctx.up), ctx.color, hole', Root(ctx.sib))
    ensures CtxAt(h', root', ctx, hole')
  {
    if ctx.Frame? {
      assert SameOn(h, h', Items(ctx.sib)) && SameOn(h, h', CtxItems(ctx.up));
      FrameTree(h, h', ctx.sib, ctx.item);
      FrameCtx(h, h', root, ctx.up, ctx.item);
    }
  }

  // ---------- the elementary updates ----------

  /** Recolouring the node at the position. */
  lemma RepRecolor(h: Heap, h': Heap, root: RbNode?, ctx: Place, t: Shape, c: Color)
    requires Rep(h, root, ctx, t) && t.Node?
    requires h' == h[t.item := h[t.item].(color := c)]
    ensures Rep(h', root, ctx, t.(color := c))
  {
    FrameTree(h, h', t.left, t.item);
    FrameTree(h, h', t.right, t.item);
    FrameCtx(h, h', root, ctx, t.item);
  }

  /** The tree after rotating its root towards side d. */
  function Rotated(d: Dir, t: Shape): Shape
    requires t.Node? && Far(d, t).Node?
  {
    var y := Far(d, t);
    Join(d, Join(d, Near(d, t), t.item, t.color, Near(d, y)), y.item, y.color, Far(d, y))
  }

  /** What a rotation writes: both rotated nodes, the subtree that changes sides, the link from above. */
  ghost predicate RotationWrites(h: Heap, h': Heap, root: RbNode?, root': RbNode?, ctx: Place, d: Dir, t: Shape)
    requires t.Node? && Far(d, t).Node?
  {
    var x, y := t.item, Far(d, t).item;
    var b, c := Near(d, Far(d, t)), Far(d, Far(d, t));
    && h'.Keys == h.Keys && x in h && y in h
    && h'[x] == CellAt(d, y, t.color, Root(Near(d, t)), Root(b))
    && h'[y] == CellAt(d, ParentOf(ctx), Far(d, t).color, x, Root(c))
    && (b.Node? ==> b.item in h && h'[b.item] == h[b.item].(parent := x))
    && (if ctx.Top? then root' == y
        else root' == root && ctx.item in h
             && h'[ctx.item] == CellAt(ctx.dir, ParentOf(ctx.up), ctx.color, y, Root(ctx.sib)))
    && (forall n <- h :: n != x && n != y && n != ParentOf(ctx) && n != Root(b) ==> h'[n] == h[n])
  }

  /** The nodes a rotation touches are four different ones. */
  lemma RotationFocus(h: Heap, root: RbNode?, ctx: Place, d: Dir, t: Shape)
    requires Rep(h, root, ctx, t) && t.Node? && Far(d, t).Node?
    ensures var x, y := t.item, Far(d, t).item;
      var b, c := Near(d, Far(d, t)), Far(d, Far(d, t));
      && x in h && h[x] == CellAt(d, ParentOf(ctx), t.color, Root(Near(d, t)), y)
      && y in h && h[y] == CellAt(d, x, Far(d, t).color, Root(b), Root(c))
      && (b.Node? ==> b.item in h)
      && (ctx.Frame? ==> ctx.item in h && h[ctx.item] == CellAt(ctx.dir, ParentOf(ctx.up), ctx.color, x, Root(ctx.sib)))
      && (ctx.Top? ==> root == x)
      && x != y && Root(b) != x && Root(b) != y
      && ParentOf(ctx) != x && ParentOf(ctx) != y && (b.Node? ==> ParentOf(ctx) != b.item)
      && (ctx.Frame? ==> Root(ctx.sib) != x)
  {
    var x, y := t.item, Far(d, t);
    var a, b, c := Near(d, t), Near(d, y), Far(d, y);
    assert t == Join(d, a, x, t.color, y) && y == Join(d, b, y.item, y.color, c);
    JoinAt(h, d, a, x, t.color, y, ParentOf(ctx));
    JoinAt(h, d, b, y.item, y.color, c, x);
  }

  lemma RepRotate(h: Heap, h': Heap, root: RbNode?, root': RbNode?, ctx: Place, d: Dir, t: Shape)
    requires Rep(h, root, ctx, t) && t.Node? && Far(d, t).Node?
    requires RotationWrites(h, h', root, root', ctx, d, t)
    ensures Rep(h', root', ctx, Rotated(d, t))
  {
    var x, y := t.item, Far(d, t);
    var a, b, c := Near(d, t), Near(d, y), Far(d, y);
    assert t == Join(d, a, x, t.color, y) && y == Join(d, b, y.item, y.color, c);
    JoinAt(h, d, a, x, t.color, y, ParentOf(ctx));
    JoinAt(h, d, b, y.item, y.color, c, x);
    RotatedAbove(h, h', root, root', ctx, d, t);
    RotatedBelow(h, h', root, root', ctx, d, t);
    JoinAt(h', d, a, x, t.color, b, y.item);
    JoinAt(h', d, Join(d, a, x, t.color, b), y.item, y.color, c, ParentOf(ctx));
  }

  /** After a rotation the frames above lead to the other node. */
  lemma RotatedAbove(h: Heap, h': Heap, root: RbNode?, root': RbNode?, ctx: Place, d: Dir, t: Shape)
    requires Rep(h, root, ctx, t) && t.Node? && Far(d, t).Node?
    requires RotationWrites(h, h', root, root', ctx, d, t)
    ensures CtxAt(h', root', ctx, Far(d, t).item)
  {
    var x, y := t.item, Far(d, t);
    assert Items(y) <= Items(t) && Items(Near(d, y)) <= Items(y);
    Relink(h, h', root, root', ctx, x, y.item);
  }

  /** After a rotation the three subtrees are intact, below their new parents. */
  lemma RotatedBelow(h: Heap, h': Heap, root: RbNode?, root': RbNode?, ctx: Place, d: Dir, t: Shape)
    requires Rep(h, root, ctx, t) && t.Node? && Far(d, t).Node?
    requires RotationWrites(h, h', root, root', ctx, d, t)
    ensures var y := Far(d, t);
      TreeAt(h', Near(d, t), t.item) && TreeAt(h', Near(d, y), t.item) && TreeAt(h', Far(d, y), y.item)
  {
    var x, y := t.item, Far(d, t);
    var a, b, c := Near(d, t), Near(d, y), Far(d, y);
    assert t == Join(d, a, x, t.color, y) && y == Join(d, b, y.item, y.color, c);
    JoinAt(h, d, a, x, t.color, y, ParentOf(ctx));
    JoinAt(h, d, b, y.item, y.color, c, x);
    FrameTree(h, h', a, x);
    FrameTree(h, h', c, y.item);
    Reparent(h, h', b, y.item, x);
  }

  // ---------- linking, unlinking and replacing a node ----------

  lemma {:induction false} PlugItems(ctx: Place, t: Shape)
    ensures Items(Plug(ctx, t)) == Items(t) + CtxItems(ctx)
    decreases ctx
  {
    if ctx.Frame? {
      PlugItems(ctx.up, Join(ctx.dir, t, ctx.item, ctx.color, ctx.sib));
    }
  }

  lemma {:induction false} TreeInNodes(h: Heap, t: Shape, parent: RbNode?)
    requires TreeAt(h, t, parent)
    ensures Items(t) <= h.Keys
  {
    if t.Node? {
      TreeInNodes(h, t.left, t.item);
      TreeInNodes(h, t.right, t.item);
    }
  }

  /** The link from above the position, or the root pointer, leads to `to`. */
  ghost predicate LinkedTo(h': Heap, root: RbNode?, root': RbNode?, ctx: Place, to: RbNode?) {
    if ctx.Top? then root' == to
    else root' == root && ctx.item in h'
         && h'[ctx.item] == CellAt(ctx.dir, ParentOf(ctx.up), ctx.color, to, Root(ctx.sib))
  }

  /** rb_link_node: a new red leaf at an empty place. */
  lemma RepLink(h: Heap, h': Heap, root: RbNode?, root': RbNode?, ctx: Place, n: RbNode)
    requires Rep(h, root, ctx, Leaf) && n !in CtxItems(ctx)
    requires h.Keys <= h'.Keys && n in h' && h'[n] == Cell(ParentOf(ctx), Red, null, null)
    requires LinkedTo(h', root, root', ctx, n)
    requires forall k <- h :: k != n && k != ParentOf(ctx) ==> h'[k] == h[k]
    ensures Rep(h', root', ctx, NewLeaf(n))
  {
    assert NewLeaf(n).left == Leaf && NewLeaf(n).right == Leaf;
    assert Items(NewLeaf(n)) == {n};
    Relink(h, h', root, root', ctx, null, n);
  }

  /** The place of a node with at most one child now holds that child. */
  lemma RepUnlink(h: Heap, h': Heap, root: RbNode?, root': RbNode?, ctx: Place, t: Shape)
    requires Rep(h, root, ctx, t) && t.Node? && (t.left.Leaf? || t.right.Leaf?)
    requires var k := OnlyChild(t);
      && h'.Keys == h.Keys
      && (k.Node? ==> k.item in h && h'[k.item] == h[k.item].(parent := ParentOf(ctx)))
      && LinkedTo(h', root, root', ctx, Root(k))
      && forall n <- h :: n != Root(k) && n != ParentOf(ctx) ==> h'[n] == h[n]
    ensures Rep(h', root', ctx, OnlyChild(t))
  {
    var k := OnlyChild(t);
    assert Items(k) <= Items(t);
    Reparent(h, h', k, t.item, ParentOf(ctx));
    Relink(h, h', root, root', ctx, t.item, Root(k));
  }

  /** A node from outside the tree takes over the place of the node at the position. */
  lemma RepReplace(h: Heap, h': Heap, root: RbNode?, root': RbNode?, ctx: Place, t: Shape, s: RbNode)
    requires Rep(h, root, ctx, t) && t.Node?
    requires s in h && s !in Items(t) && s !in CtxItems(ctx)
    requires h'.Keys == h.Keys
    requires h'[s] == Cell(ParentOf(ctx), t.color, Root(t.left), Root(t.right))
    requires LinkedTo(h', root, root', ctx, s)
    requires t.left.Node? ==> t.left.item in h && h'[t.left.item] == h[t.left.item].(parent := s)
    requires t.right.Node? ==> t.right.item in h && h'[t.right.item] == h[t.right.item].(parent := s)
    requires forall n <- h :: n != s && n != ParentOf(ctx) && n != Root(t.left) && n != Root(t.right) ==> h'[n] == h[n]
    ensures Rep(h', root', ctx, t.(item := s))
  {
    Reparent(h, h', t.left, t.item, s);
    Reparent(h, h', t.right, t.item, s);
    Relink(h, h', root, root', ctx, t.item, s);
  }

  /** A snapshot of fewer nodes will do, as long as it has those of the tree. */
  lemma RepRestrict(h: Heap, h': Heap, root: RbNode?, t: Shape)
    requires Rep(h, root, Top, t) && SameOn(h, h', Items(t))
    ensures Rep(h', root, Top, t)
  {
    FrameTree(h, h', t, null);
  }

  // ---------- places ----------

  function RemoveMin(t: Shape): Shape
    requires t.Node?
  {
    if t.left.Leaf? then t.right else Node(RemoveMin(t.left), t.item, t.color, t.right)
  }

  /** The leftmost node is the same wherever the tree stands, and so is its parent unless it is the root. */
  lemma {:induction false} LeftmostPlaces(ctx: Place, ctx': Place, t: Shape)
    requires t.Node?
    ensures Leftmost(ctx, t).1 == Leftmost(ctx', t).1
    ensures Plug(Leftmost(ctx, t).0, Leftmost(ctx, t).1.right) == Plug(ctx, RemoveMin(t))
    ensures t.left.Leaf? ==> Leftmost(ctx, t) == (ctx, t)
    ensures t.left.Node? ==>
      && Leftmost(ctx, t).0.Frame? && Leftmost(ctx', t).0.Frame?
      && Leftmost(ctx, t).0.item == Leftmost(ctx', t).0.item && Leftmost(ctx, t).0.item in Items(t)
    decreases t
  {
    if t.left.Node? {
      var f, f' := Frame(Left, t.item, t.color, t.right, ctx), Frame(Left, t.item, t.color, t.right, ctx');
      LeftmostPlaces(f, f', t.left);
      LeftmostPlaces(f', f', t.left);
    }
  }

  /** The i-th node in order has a place. */
  lemma {:induction false} PlaceOf(t: Shape, i: nat) returns (ctx: Place, sub: Shape)
    requires i < |InOrder(t)|
    ensures Plug(ctx, sub) == t && sub.Node? && |Before(ctx)| + |InOrder(sub.left)| == i
  {
    ctx, sub := PlaceUnder(Top, t, i);
  }

  lemma {:induction false} PlaceUnder(up: Place, t: Shape, i: nat) returns (ctx: Place, sub: Shape)
    requires i < |InOrder(t)|
    ensures Plug(ctx, sub) == Plug(up, t) && sub.Node? && |Before(ctx)| + |InOrder(sub.left)| == |Before(up)| + i
    decreases t
  {
    var k := |InOrder(t.left)|;
    if i < k {
      ctx, sub := PlaceUnder(Frame(Left, t.item, t.color, t.right, up), t.left, i);
    } else if i == k {
      ctx, sub := up, t;
    } else {
      ctx, sub := PlaceUnder(Frame(Right, t.item, t.color, t.left, up), t.right, i - k - 1);
    }
  }

  /** Splitting the order at a place. */
  lemma OrderAt(ctx: Place, t: Shape)
    requires t.Node?
    ensures InOrder(Plug(ctx, t)) == (Before(ctx) + InOrder(t.left)) + [t.item] + (InOrder(t.right) + After(ctx))
  {
    InOrderPlug(ctx, t);
    Reassociate(Before(ctx), InOrder(t.left), [t.item], InOrder(t.right), After(ctx));
  }

  lemma {:induction false} MinFirst(t: Shape)
    requires t.Node?
    ensures InOrder(t) != [] && InOrder(t)[0] == MinItem(t)
  {
    if t.left.Node? {
      MinFirst(t.left);
    }
  }

  function MaxItem(t: Shape): RbNode
    requires t.Node?
  {
    if t.right.Leaf? then t.item else MaxItem(t.right)
  }

  lemma {:induction false} MaxLast(t: Shape)
    requires t.Node?
    ensures InOrder(t) != [] && InOrder(t)[|InOrder(t)| - 1] == MaxItem(t)
  {
    if t.right.Node? {
      MaxLast(t.right);
    }
  }
}
