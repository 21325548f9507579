/**
  datastruct/rbtree.c on linked nodes: rotations, rb_link_node, rb_insert_color,
  __rb_erase_color, rb_erase and in-order stepping, each proved against RbZipper and RbErase.

  Ghost arguments name the position the code is at: `nodes` is the set of nodes in play,
  `ctx` and `t` the frames above the position and the tree at it.
 */
module RbTree {
  import opened RbZipper
  import opened RbErase
  import opened RbHeap

  /** struct rb_root. */
  class RbRoot {
    var node: RbNode?

    /** The nodes represent the tree, seen from the position of t. */
    ghost predicate At(nodes: set<RbNode>, ctx: Place, t: Shape)
      reads this, nodes
    {
      Rep(Snapshot(nodes), node, ctx, t)
    }

    /** x hangs below its parent, or is the root. */
    ghost predicate Joined(x: RbNode, nodes: set<RbNode>)
      reads this, x, nodes
    {
      if x.parent == null then node == x
      else x.parent in nodes && x.parent != x && x.parent.left != x.parent.right
           && (x.parent.left == x || x.parent.right == x)
    }

    /** The link that led from parent, or from the root, to x now leads to y; cell is what the parent was. */
    ghost predicate Redirected(root: RbNode?, parent: RbNode?, x: RbNode, y: RbNode?, cell: Cell)
      reads this, parent
    {
      if parent == null then node == y
      else node == root && CellOf(parent) == if cell.left == x then cell.(left := y) else cell.(right := y)
    }

    /** __rb_rotate_left. */
    method RotateLeft(x: RbNode, ghost nodes: set<RbNode>, ghost ctx: Place, ghost t: Shape)
      requires At(nodes, ctx, t) && t.Node? && t.item == x && t.right.Node?
      modifies this, nodes
      ensures At(nodes, ctx, Rotated(Left, t))
    {
      ghost var h := Snapshot(nodes);
      RotationFocus(h, node, ctx, Left, t);
      RotateLeftLinks(x, nodes);
      RepRotate(h, Snapshot(nodes), old(node), node, ctx, Left, t);
    }

    /** The assignments of __rb_rotate_left, cell by cell. */
    method RotateLeftLinks(x: RbNode, ghost nodes: set<RbNode>)
      requires x in nodes && x.right in nodes && x.right != x && Joined(x, nodes) && x.parent != x.right
      requires var b := x.right.left; b != null ==> b in nodes && b != x && b != x.right && b != x.parent
      modifies this, nodes
      ensures var y, b := old(x.right), old(x.right.left);
        && CellOf(x) == old(CellOf(x)).(right := b, parent := y)
        && CellOf(y) == old(CellOf(x.right)).(left := x, parent := old(x.parent))
        && (b != null ==> CellOf(b) == old(CellOf(x.right.left)).(parent := x))
        && Redirected(old(node), old(x.parent), x, y, old(if x.parent == null then CellOf(x) else CellOf(x.parent)))
        && forall n <- nodes :: n != x && n != y && n != b && n != old(x.parent) ==> CellOf(n) == old(CellOf(n))
    {
      var right := x.right;
      x.right := right.left;
      if x.right != null {
        right.left.parent := x;
      }
      right.left := x;
      right.parent := x.parent;
      if right.parent != null {
        if x == x.parent.left {
          x.parent.left := right;
        } else {
          x.parent.right := right;
        }
      } else {
        node := right;
      }
      x.parent := right;
    }

    /** __rb_rotate_right. */
    method RotateRight(x: RbNode, ghost nodes: set<RbNode>, ghost ctx: Place, ghost t: Shape)
      requires At(nodes, ctx, t) && t.Node? && t.item == x && t.left.Node?
      modifies this, nodes
      ensures At(nodes, ctx, Rotated(Right, t))
    {
      ghost var h := Snapshot(nodes);
      RotationFocus(h, node, ctx, Right, t);
      RotateRightLinks(x, nodes);
      RepRotate(h, Snapshot(nodes), old(node), node, ctx, Right, t);
    }

    /** The assignments of __rb_rotate_right, cell by cell. */
    method RotateRightLinks(x: RbNode, ghost nodes: set<RbNode>)
      requires x in nodes && x.left in nodes && x.left != x && Joined(x, nodes) && x.parent != x.left
      requires var b := x.left.right; b != null ==> b in nodes && b != x && b != x.left && b != x.parent
      modifies this, nodes
      ensures var y, b := old(x.left), old(x.left.right);
        && CellOf(x) == old(CellOf(x)).(left := b, parent := y)
        && CellOf(y) == old(CellOf(x.left)).(right := x, parent := old(x.parent))
        && (b != null ==> CellOf(b) == old(CellOf(x.left.right)).(parent := x))
        && Redirected(old(node), old(x.parent), x, y, old(if x.parent == null then CellOf(x) else CellOf(x.parent)))
        && forall n <- nodes :: n != x && n != y && n != b && n != old(x.parent) ==> CellOf(n) == old(CellOf(n))
    {
      var left := x.left;
      x.left := left.right;
      if x.left != null {
        left.right.parent := x;
      }
      left.right := x;
      left.parent := x.parent;
      if left.parent != null {
        if x == x.parent.right {
          x.parent.right := left;
        } else {
          x.parent.left := left;
        }
      } else {
        node := left;
      }
      x.parent := left;
    }

    /** An assignment to rb_color. */
    method SetColor(x: RbNode, c: Color, ghost nodes: set<RbNode>, ghost ctx: Place, ghost t: Shape)
      requires At(nodes, ctx, t) && t.Node? && t.item == x
      modifies x`color
      ensures At(nodes, ctx, t.(color := c)) && node == old(node)
    {
      ghost var h := Snapshot(nodes);
      x.color := c;
      assert Snapshot(nodes) == h[x := h[x].(color := c)];
      RepRecolor(h, Snapshot(nodes), node, ctx, t, c);
    }

    /** The position of t is left for that of t' in the same tree. */
    lemma Move(nodes: set<RbNode>, ctx: Place, t: Shape, ctx': Place, t': Shape)
      requires At(nodes, ctx, t) && Plug(ctx, t) == Plug(ctx', t')
      ensures At(nodes, ctx', t')
    {
      RepMove(Snapshot(nodes), node, ctx, t, ctx', t');
    }

    /** The links around the parent of the position. */
    lemma FocusParent(nodes: set<RbNode>, ctx: Place, t: Shape)
      requires At(nodes, ctx, t) && ctx.Frame? && ctx.up.Frame?
      ensures var g := ctx.up;
        && ctx.item in nodes && CellOf(ctx.item) == CellAt(ctx.dir, g.item, ctx.color, Root(t), Root(ctx.sib))
        && g.item in nodes && CellOf(g.item) == CellAt(g.dir, ParentOf(g.up), g.color, ctx.item, Root(g.sib))
        && Root(g.sib) != ctx.item
        && (g.sib.Node? ==> g.sib.item in nodes && g.sib.item.color == g.sib.color)
    {
      RepUp(Snapshot(nodes), node, ctx, t);
      Focus(Snapshot(nodes), node, ctx, t);
      Focus(Snapshot(nodes), node, ctx.up, Join(ctx.dir, t, ctx.item, ctx.color, ctx.sib));
    }

    /** One pass of rb_insert_color whose parent is a left child. */
    method InsertUnderLeft(n: RbNode, parent: RbNode, gparent: RbNode,
                          ghost nodes: set<RbNode>, ghost ctx: Place, ghost t: Shape)
      returns (next: RbNode, ghost ctx': Place, ghost t': Shape)
      requires At(nodes, ctx, t) && InsertReady(ctx, t) && t.item == n
      requires ctx.Frame? && ctx.color == Red && ctx.item == parent
      requires ctx.up.Frame? && ctx.up.dir == Left && ctx.up.item == gparent
      modifies this, nodes
      ensures At(nodes, ctx', t') && InsertReady(ctx', t') && t'.item == next
      ensures InsertFix(ctx', t') == InsertFix(ctx, t) && Depth(ctx') < Depth(ctx)
    {
      InsertStepReady(ctx, t);
      FocusParent(nodes, ctx, t);
      var uncle := gparent.right;
      if uncle != null && uncle.color == Red {
        RecolorLeft(parent, gparent, uncle, nodes, ctx, t);
        next, ctx', t' := gparent, ctx.up.up, InsertRecolored(ctx, t);
      } else {
        InsertSettles(ctx, t);
        ctx', t' := InsertSettled(ctx, t).0, InsertSettled(ctx, t).1;
        next := InsertRotateLeft(n, parent, gparent, nodes, ctx, t);
      }
    }

    /** Its branch for a red uncle. */
    method RecolorLeft(parent: RbNode, gparent: RbNode, uncle: RbNode,
                       ghost nodes: set<RbNode>, ghost ctx: Place, ghost t: Shape)
      requires At(nodes, ctx, t) && ctx.Frame? && ctx.color == Red && ctx.item == parent
      requires ctx.up.Frame? && ctx.up.dir == Left && ctx.up.item == gparent && ctx.up.color == Black
      requires ctx.up.sib.Node? && ctx.up.sib.item == uncle
      modifies nodes
      ensures At(nodes, ctx.up.up, InsertRecolored(ctx, t))
    {
      ghost var g := ctx.up;
      FocusParent(nodes, ctx, t);
      ghost var p, pb := Join(ctx.dir, t, parent, Red, ctx.sib), Join(ctx.dir, t, parent, Black, ctx.sib);
      ghost var ub := Blacken(g.sib);
      ghost var atUncle := Frame(Right, gparent, g.color, p, g.up);
      Move(nodes, ctx, t, atUncle, g.sib);
      SetColor(uncle, Black, nodes, atUncle, g.sib);
      ghost var atParent := Frame(Left, gparent, g.color, ub, g.up);
      Move(nodes, atUncle, ub, atParent, p);
      SetColor(parent, Black, nodes, atParent, p);
      ghost var j := Join(Left, pb, gparent, g.color, ub);
      Move(nodes, atParent, pb, g.up, j);
      SetColor(gparent, Red, nodes, g.up, j);
    }

    /** Its rotations. */
    method InsertRotateLeft(n: RbNode, parent: RbNode, gparent: RbNode,
                      ghost nodes: set<RbNode>, ghost ctx: Place, ghost t: Shape)
      returns (next: RbNode)
      requires At(nodes, ctx, t) && t.Node? && t.item == n && t.color == Red
      requires ctx.Frame? && ctx.color == Red && ctx.item == parent
      requires ctx.up.Frame? && ctx.up.dir == Left && ctx.up.item == gparent
      modifies this, nodes
      ensures var (c, s) := InsertSettled(ctx, t); At(nodes, c, s) && s.Node? && s.item == next
    {
      ghost var g := ctx.up;
      FocusParent(nodes, ctx, t);
      next := n;
      var top := parent;
      ghost var p := Join(ctx.dir, t, parent, Red, ctx.sib);
      Move(nodes, ctx, t, g, p);
      if parent.right == n {
        RotateLeft(parent, nodes, g, p);
        p := Rotated(Left, p);
        top := n;
        next := parent;
      }
      RaiseParentLeft(top, gparent, nodes, g, p);
      ghost var j := Join(Left, p.(color := Black), gparent, Red, g.sib);
      Move(nodes, g.up, Rotated(Right, j), InsertSettled(ctx, t).0, InsertSettled(ctx, t).1);
    }

    /** The parent black, the grandparent red, and the last rotation. */
    method RaiseParentLeft(top: RbNode, gparent: RbNode, ghost nodes: set<RbNode>, ghost g: Place, ghost p: Shape)
      requires At(nodes, g, p) && p.Node? && p.item == top && g.Frame? && g.dir == Left && g.item == gparent
      modifies this, nodes
      ensures At(nodes, g.up, Rotated(Right, Join(Left, p.(color := Black), gparent, Red, g.sib)))
    {
      FocusLoop(nodes, g, p);
      SetColor(top, Black, nodes, g, p);
      ghost var j := Join(Left, p.(color := Black), gparent, g.color, g.sib);
      Move(nodes, g, p.(color := Black), g.up, j);
      SetColor(gparent, Red, nodes, g.up, j);
      RotateRight(gparent, nodes, g.up, j.(color := Red));
    }

    /** One pass of rb_insert_color whose parent is a right child. */
    method InsertUnderRight(n: RbNode, parent: RbNode, gparent: RbNode,
                          ghost nodes: set<RbNode>, ghost ctx: Place, ghost t: Shape)
      returns (next: RbNode, ghost ctx': Place, ghost t': Shape)
      requires At(nodes, ctx, t) && InsertReady(ctx, t) && t.item == n
      requires ctx.Frame? && ctx.color == Red && ctx.item == parent
      requires ctx.up.Frame? && ctx.up.dir == Right && ctx.up.item == gparent
      modifies this, nodes
      ensures At(nodes, ctx', t') && InsertReady(ctx', t') && t'.item == next
      ensures InsertFix(ctx', t') == InsertFix(ctx, t) && Depth(ctx') < Depth(ctx)
    {
      InsertStepReady(ctx, t);
      FocusParent(nodes, ctx, t);
      var uncle := gparent.left;
      if uncle != null && uncle.color == Red {
        RecolorRight(parent, gparent, uncle, nodes, ctx, t);
        next, ctx', t' := gparent, ctx.up.up, InsertRecolored(ctx, t);
      } else {
        InsertSettles(ctx, t);
        ctx', t' := InsertSettled(ctx, t).0, InsertSettled(ctx, t).1;
        next := InsertRotateRight(n, parent, gparent, nodes, ctx, t);
      }
    }

    /** Its branch for a red uncle. */
    method RecolorRight(parent: RbNode, gparent: RbNode, uncle: RbNode,
                       ghost nodes: set<RbNode>, ghost ctx: Place, ghost t: Shape)
      requires At(nodes, ctx, t) && ctx.Frame? && ctx.color == Red && ctx.item == parent
      requires ctx.up.Frame? && ctx.up.dir == Right && ctx.up.item == gparent && ctx.up.color == Black
      requires ctx.up.sib.Node? && ctx.up.sib.item == uncle
      modifies nodes
      ensures At(nodes, ctx.up.up, InsertRecolored(ctx, t))
    {
      ghost var g := ctx.up;
      FocusParent(nodes, ctx, t);
      ghost var p, pb := Join(ctx.dir, t, parent, Red, ctx.sib), Join(ctx.dir, t, parent, Black, ctx.sib);
      ghost var ub := Blacken(g.sib);
      ghost var atUncle := Frame(Left, gparent, g.color, p, g.up);
      Move(nodes, ctx, t, atUncle, g.sib);
      SetColor(uncle, Black, nodes, atUncle, g.sib);
      ghost var atParent := Frame(Right, gparent, g.color, ub, g.up);
      Move(nodes, atUncle, ub, atParent, p);
      SetColor(parent, Black, nodes, atParent, p);
      ghost var j := Join(Right, pb, gparent, g.color, ub);
      Move(nodes, atParent, pb, g.up, j);
      SetColor(gparent, Red, nodes, g.up, j);
    }

    /** Its rotations. */
    method InsertRotateRight(n: RbNode, parent: RbNode, gparent: RbNode,
                      ghost nodes: set<RbNode>, ghost ctx: Place, ghost t: Shape)
      returns (next: RbNode)
      requires At(nodes, ctx, t) && t.Node? && t.item == n && t.color == Red
      requires ctx.Frame? && ctx.color == Red && ctx.item == parent
      requires ctx.up.Frame? && ctx.up.dir == Right && ctx.up.item == gparent
      modifies this, nodes
      ensures var (c, s) := InsertSettled(ctx, t); At(nodes, c, s) && s.Node? && s.item == next
    {
      ghost var g := ctx.up;
      FocusParent(nodes, ctx, t);
      next := n;
      var top := parent;
      ghost var p := Join(ctx.dir, t, parent, Red, ctx.sib);
      Move(nodes, ctx, t, g, p);
      if parent.left == n {
        RotateRight(parent, nodes, g, p);
        p := Rotated(Right, p);
        top := n;
        next := parent;
      }
      RaiseParentRight(top, gparent, nodes, g, p);
      ghost var j := Join(Right, p.(color := Black), gparent, Red, g.sib);
      Move(nodes, g.up, Rotated(Left, j), InsertSettled(ctx, t).0, InsertSettled(ctx, t).1);
    }

    /** The parent black, the grandparent red, and the last rotation. */
    method RaiseParentRight(top: RbNode, gparent: RbNode, ghost nodes: set<RbNode>, ghost g: Place, ghost p: Shape)
      requires At(nodes, g, p) && p.Node? && p.item == top && g.Frame? && g.dir == Right && g.item == gparent
      modifies this, nodes
      ensures At(nodes, g.up, Rotated(Left, Join(Right, p.(color := Black), gparent, Red, g.sib)))
    {
      FocusLoop(nodes, g, p);
      SetColor(top, Black, nodes, g, p);
      ghost var j := Join(Right, p.(color := Black), gparent, g.color, g.sib);
      Move(nodes, g, p.(color := Black), g.up, j);
      SetColor(gparent, Red, nodes, g.up, j);
      RotateLeft(gparent, nodes, g.up, j.(color := Red));
    }

    /** rb_insert_color. */
    method InsertColor(n: RbNode, ghost nodes: set<RbNode>, ghost ctx0: Place, ghost t0: Shape)
      requires At(nodes, ctx0, t0) && InsertReady(ctx0, t0) && t0.item == n
      modifies this, nodes
      ensures At(nodes, Top, Blacken(InsertFix(ctx0, t0)))
    {
      var cur := n;
      ghost var ctx, t := ctx0, t0;
      while cur.parent != null && cur.parent.color == Red
        invariant At(nodes, ctx, t) && InsertReady(ctx, t) && t.item == cur
        invariant InsertFix(ctx, t) == InsertFix(ctx0, t0)
        decreases Depth(ctx)
      {
        InsertStepReady(ctx, t);
        FocusParent(nodes, ctx, t);
        var parent := cur.parent;
        var gparent := parent.parent;
        if parent == gparent.left {
          cur, ctx, t := InsertUnderLeft(cur, parent, gparent, nodes, ctx, t);
        } else {
          cur, ctx, t := InsertUnderRight(cur, parent, gparent, nodes, ctx, t);
        }
      }
      InsertFixCorrect(ctx, t);
      ghost var all := InsertFix(ctx, t);
      Move(nodes, ctx, t, Top, all);
      SetColor(node, Black, nodes, Top, all);
    }

    /** The links of the node at the position and of its children. */
    lemma FocusChildren(nodes: set<RbNode>, ctx: Place, t: Shape)
      requires At(nodes, ctx, t) && t.Node?
      ensures t.item in nodes && CellOf(t.item) == Cell(ParentOf(ctx), t.color, Root(t.left), Root(t.right))
      ensures t.left.Node? ==> t.left.item in nodes && t.left.item.color == t.left.color
      ensures t.right.Node? ==> t.right.item in nodes && t.right.item.color == t.right.color
    {
      Focus(Snapshot(nodes), node, ctx, t);
      RepUp(Snapshot(nodes), node, Frame(Left, t.item, t.color, t.right, ctx), t.left);
      Focus(Snapshot(nodes), node, Frame(Left, t.item, t.color, t.right, ctx), t.left);
    }

    /** __rb_erase_color, red sibling, node on the left. */
    method EraseTurnLeft(parent: RbNode, other: RbNode, ghost nodes: set<RbNode>, ghost ctx: Place, ghost t: Shape)
      requires At(nodes, ctx, t) && ctx.Frame? && ctx.dir == Left && ctx.item == parent
      requires ctx.sib.Node? && ctx.sib.item == other
      modifies this, nodes
      ensures At(nodes, SiblingTurned(ctx), t)
    {
      ghost var atOther, w := Frame(Right, parent, ctx.color, t, ctx.up), ctx.sib;
      Move(nodes, ctx, t, atOther, w);
      SetColor(other, Black, nodes, atOther, w);
      ghost var j := Join(Left, t, parent, ctx.color, w.(color := Black));
      Move(nodes, atOther, w.(color := Black), ctx.up, j);
      SetColor(parent, Red, nodes, ctx.up, j);
      RotateLeft(parent, nodes, ctx.up, j.(color := Red));
      TurnedPlug(ctx, t);
      Move(nodes, ctx.up, Rotated(Left, j.(color := Red)), SiblingTurned(ctx), t);
    }

    /** __rb_erase_color, black sibling with a red child, node on the left. */
    method EraseFinishLeft(parent: RbNode, sibling: RbNode, ghost nodes: set<RbNode>, ghost ctx: Place, ghost t: Shape)
      requires At(nodes, ctx, t) && ctx.Frame? && ctx.dir == Left && ctx.item == parent
      requires ctx.sib.Node? && ctx.sib.item == sibling && ctx.sib.color == Black
      requires !(IsBlack(ctx.sib.left) && IsBlack(ctx.sib.right))
      modifies this, nodes
      ensures At(nodes, ctx.up, EraseRotated(ctx, t, SiblingPrepared(Left, ctx.sib)))
    {
      var other := sibling;
      ghost var at := Frame(Right, parent, ctx.color, t, ctx.up);
      Move(nodes, ctx, t, at, ctx.sib);
      FocusChildren(nodes, at, ctx.sib);
      if other.right == null || other.right.color == Black {
        EraseBendLeft(other, nodes, at, ctx.sib);
        FocusLoop(nodes, at, SiblingPrepared(Left, ctx.sib));
        other := parent.right;
      }
      EraseLastLeft(parent, other, nodes, ctx, t, SiblingPrepared(Left, ctx.sib));
    }

    /** Its first part: the far nephew is black, so the near one is rotated up. */
    method EraseBendLeft(other: RbNode, ghost nodes: set<RbNode>, ghost at: Place, ghost w: Shape)
      requires At(nodes, at, w) && w.Node? && w.item == other && w.color == Black
      requires !IsBlack(w.left) && IsBlack(w.right)
      modifies this, nodes
      ensures At(nodes, at, SiblingPrepared(Left, w))
    {
      FocusChildren(nodes, at, w);
      var near := other.left;
      ghost var bent := Join(Left, Blacken(w.left), other, Black, w.right);
      if near != null {
        ghost var atNear := Frame(Left, other, Black, w.right, at);
        Move(nodes, at, w, atNear, w.left);
        SetColor(near, Black, nodes, atNear, w.left);
        Move(nodes, atNear, Blacken(w.left), at, bent);
      }
      SetColor(other, Red, nodes, at, bent);
      RotateRight(other, nodes, at, bent.(color := Red));
    }

    /** Its second part: the sibling takes the parent's colour, parent and far nephew turn black, and a rotation. */
    method EraseLastLeft(parent: RbNode, other: RbNode, ghost nodes: set<RbNode>, ghost ctx: Place, ghost t: Shape,
                         ghost w: Shape)
      requires ctx.Frame? && ctx.dir == Left && ctx.item == parent
      requires At(nodes, Frame(Right, parent, ctx.color, t, ctx.up), w) && w.Node? && w.item == other
      modifies this, nodes
      ensures At(nodes, ctx.up, EraseRotated(ctx, t, w))
    {
      ghost var at, w1 := Frame(Right, parent, ctx.color, t, ctx.up), w.(color := ctx.color);
      FocusLoop(nodes, at, w);
      SetColor(other, parent.color, nodes, at, w);
      ghost var j := Join(Left, t, parent, ctx.color, w1);
      Move(nodes, at, w1, ctx.up, j);
      SetColor(parent, Black, nodes, ctx.up, j);
      at := Frame(Right, parent, Black, t, ctx.up);
      Move(nodes, ctx.up, j.(color := Black), at, w1);
      BlackenFarLeft(other, nodes, at, w1);
      w1 := Join(Left, w1.left, other, ctx.color, Blacken(w1.right));
      j := Join(Left, t, parent, Black, w1);
      Move(nodes, at, w1, ctx.up, j);
      RotateLeft(parent, nodes, ctx.up, j);
    }

    /** The far nephew turns black, if there is one. */
    method BlackenFarLeft(other: RbNode, ghost nodes: set<RbNode>, ghost at: Place, ghost w: Shape)
      requires At(nodes, at, w) && w.Node? && w.item == other
      modifies nodes
      ensures At(nodes, at, Join(Left, w.left, other, w.color, Blacken(w.right))) && node == old(node)
    {
      FocusChildren(nodes, at, w);
      if other.right != null {
        ghost var atFar := Frame(Right, other, w.color, w.left, at);
        Move(nodes, at, w, atFar, w.right);
        SetColor(other.right, Black, nodes, atFar, w.right);
        Move(nodes, atFar, Blacken(w.right), at, Join(Left, w.left, other, w.color, Blacken(w.right)));
      }
    }

    /** __rb_erase_color, red sibling, node on the right. */
    method EraseTurnRight(parent: RbNode, other: RbNode, ghost nodes: set<RbNode>, ghost ctx: Place, ghost t: Shape)
      requires At(nodes, ctx, t) && ctx.Frame? && ctx.dir == Right && ctx.item == parent
      requires ctx.sib.Node? && ctx.sib.item == other
      modifies this, nodes
      ensures At(nodes, SiblingTurned(ctx), t)
    {
      ghost var atOther, w := Frame(Left, parent, ctx.color, t, ctx.up), ctx.sib;
      Move(nodes, ctx, t, atOther, w);
      SetColor(other, Black, nodes, atOther, w);
      ghost var j := Join(Right, t, parent, ctx.color, w.(color := Black));
      Move(nodes, atOther, w.(color := Black), ctx.up, j);
      SetColor(parent, Red, nodes, ctx.up, j);
      RotateRight(parent, nodes, ctx.up, j.(color := Red));
      TurnedPlug(ctx, t);
      Move(nodes, ctx.up, Rotated(Right, j.(color := Red)), SiblingTurned(ctx), t);
    }

    /** __rb_erase_color, black sibling with a red child, node on the right. */
    method EraseFinishRight(parent: RbNode, sibling: RbNode, ghost nodes: set<RbNode>, ghost ctx: Place, ghost t: Shape)
      requires At(nodes, ctx, t) && ctx.Frame? && ctx.dir == Right && ctx.item == parent
      requires ctx.sib.Node? && ctx.sib.item == sibling && ctx.sib.color == Black
      requires !(IsBlack(ctx.sib.left) && IsBlack(ctx.sib.right))
      modifies this, nodes
      ensures At(nodes, ctx.up, EraseRotated(ctx, t, SiblingPrepared(Right, ctx.sib)))
    {
      var other := sibling;
      ghost var at := Frame(Left, parent, ctx.color, t, ctx.up);
      Move(nodes, ctx, t, at, ctx.sib);
      FocusChildren(nodes, at, ctx.sib);
      if other.left == null || other.left.color == Black {
        EraseBendRight(other, nodes, at, ctx.sib);
        FocusLoop(nodes, at, SiblingPrepared(Right, ctx.sib));
        other := parent.left;
      }
      EraseLastRight(parent, other, nodes, ctx, t, SiblingPrepared(Right, ctx.sib));
    }

    /** Its first part: the far nephew is black, so the near one is rotated up. */
    method EraseBendRight(other: RbNode, ghost nodes: set<RbNode>, ghost at: Place, ghost w: Shape)
      requires At(nodes, at, w) && w.Node? && w.item == other && w.color == Black
      requires !IsBlack(w.right) && IsBlack(w.left)
      modifies this, nodes
      ensures At(nodes, at, SiblingPrepared(Right, w))
    {
      FocusChildren(nodes, at, w);
      var near := other.right;
      ghost var bent := Join(Right, Blacken(w.right), other, Black, w.left);
      if near != null {
        ghost var atNear := Frame(Right, other, Black, w.left, at);
        Move(nodes, at, w, atNear, w.right);
        SetColor(near, Black, nodes, atNear, w.right);
        Move(nodes, atNear, Blacken(w.right), at, bent);
      }
      SetColor(other, Red, nodes, at, bent);
      RotateLeft(other, nodes, at, bent.(color := Red));
    }

    /** Its second part: the sibling takes the parent's colour, parent and far nephew turn black, and a rotation. */
    method EraseLastRight(parent: RbNode, other: RbNode, ghost nodes: set<RbNode>, ghost ctx: Place, ghost t: Shape,
                          ghost w: Shape)
      requires ctx.Frame? && ctx.dir == Right && ctx.item == parent
      requires At(nodes, Frame(Left, parent, ctx.color, t, ctx.up), w) && w.Node? && w.item == other
      modifies this, nodes
      ensures At(nodes, ctx.up, EraseRotated(ctx, t, w))
    {
      ghost var at, w1 := Frame(Left, parent, ctx.color, t, ctx.up), w.(color := ctx.color);
      FocusLoop(nodes, at, w);
      SetColor(other, parent.color, nodes, at, w);
      ghost var j := Join(Right, t, parent, ctx.color, w1);
      Move(nodes, at, w1, ctx.up, j);
      SetColor(parent, Black, nodes, ctx.up, j);
      at := Frame(Left, parent, Black, t, ctx.up);
      Move(nodes, ctx.up, j.(color := Black), at, w1);
      BlackenFarRight(other, nodes, at, w1);
      w1 := Join(Right, w1.right, other, ctx.color, Blacken(w1.left));
      j := Join(Right, t, parent, Black, w1);
      Move(nodes, at, w1, ctx.up, j);
      RotateRight(parent, nodes, ctx.up, j);
    }

    /** The far nephew turns black, if there is one. */
    method BlackenFarRight(other: RbNode, ghost nodes: set<RbNode>, ghost at: Place, ghost w: Shape)
      requires At(nodes, at, w) && w.Node? && w.item == other
      modifies nodes
      ensures At(nodes, at, Join(Right, w.right, other, w.color, Blacken(w.left))) && node == old(node)
    {
      FocusChildren(nodes, at, w);
      if other.left != null {
        ghost var atFar := Frame(Left, other, w.color, w.right, at);
        Move(nodes, at, w, atFar, w.left);
        SetColor(other.left, Black, nodes, atFar, w.left);
        Move(nodes, atFar, Blacken(w.left), at, Join(Right, w.right, other, w.color, Blacken(w.left)));
      }
    }

    lemma FocusLoop(nodes: set<RbNode>, ctx: Place, t: Shape)
      requires At(nodes, ctx, t)
      ensures Root(t) == node <==> ctx.Top?
      ensures t.Node? ==> t.item in nodes && t.item.color == t.color && t.item.parent == ParentOf(ctx)
      ensures ctx.Frame? ==>
        && ctx.item in nodes
        && CellOf(ctx.item) == CellAt(ctx.dir, ParentOf(ctx.up), ctx.color, Root(t), Root(ctx.sib))
        && (ctx.sib.Node? ==> ctx.sib.item in nodes && ctx.sib.item.color == ctx.sib.color && ctx.sib.item != Root(t))
    {
      Focus(Snapshot(nodes), node, ctx, t);
      if ctx.Frame? {
        RootAbove(Snapshot(nodes), node, ctx, Root(t));
      }
    }

    /** One pass of __rb_erase_color with the node on the left; finished says that it was the last. */
    method EraseUnderLeft(parent: RbNode, ghost nodes: set<RbNode>, ghost ctx0: Place, ghost t: Shape)
      returns (finished: bool, ghost ctx': Place, ghost t': Shape)
      requires At(nodes, ctx0, t) && EraseReady(ctx0, t) && IsBlack(t)
      requires ctx0.Frame? && ctx0.dir == Left && ctx0.item == parent
      modifies this, nodes
      ensures At(nodes, ctx', t')
      ensures finished ==> ctx' == Top && t' == EraseFix(ctx0, t)
      ensures !finished ==> EraseReady(ctx', t') && EraseFix(ctx', t') == EraseFix(ctx0, t) && Root(t') == parent
                            && EraseMeasure(ctx', t') < EraseMeasure(ctx0, t)
    {
      ghost var ctx := ctx0;
      SiblingExists(ctx, t);
      FocusLoop(nodes, ctx, t);
      var other := parent.right;
      if other.color == Red {
        SiblingTurnedReady(ctx, t);
        EraseTurnLeft(parent, other, nodes, ctx, t);
        ctx := SiblingTurned(ctx);
        SiblingExists(ctx, t);
        FocusLoop(nodes, ctx, t);
        other := parent.right;
      }
      finished, ctx', t' := EraseBlackLeft(parent, other, nodes, ctx, t);
    }

    /** The rest of the pass, once the sibling is black. */
    method EraseBlackLeft(parent: RbNode, other: RbNode, ghost nodes: set<RbNode>, ghost ctx: Place, ghost t: Shape)
      returns (finished: bool, ghost ctx': Place, ghost t': Shape)
      requires At(nodes, ctx, t) && EraseReady(ctx, t) && IsBlack(t)
      requires ctx.Frame? && ctx.dir == Left && ctx.item == parent
      requires ctx.sib.Node? && ctx.sib.color == Black && ctx.sib.item == other
      modifies this, nodes
      ensures At(nodes, ctx', t')
      ensures finished ==> ctx' == Top && t' == EraseFix(ctx, t)
      ensures !finished ==> EraseReady(ctx', t') && EraseFix(ctx', t') == EraseFix(ctx, t) && Root(t') == parent
                            && EraseMeasure(ctx', t') < EraseMeasure(ctx, t)
    {
      ghost var at := Frame(Right, parent, ctx.color, t, ctx.up);
      Move(nodes, ctx, t, at, ctx.sib);
      FocusChildren(nodes, at, ctx.sib);
      if (other.left == null || other.left.color == Black) && (other.right == null || other.right.color == Black) {
        SiblingReddenedReady(ctx, t);
        SetColor(other, Red, nodes, at, ctx.sib);
        finished, ctx', t' := false, ctx.up, SiblingReddened(ctx, t);
        Move(nodes, at, ctx.sib.(color := Red), ctx', t');
      } else {
        EraseRotatedFits(ctx, t);
        Move(nodes, at, ctx.sib, ctx, t);
        EraseFinishLeft(parent, other, nodes, ctx, t);
        ghost var e := EraseRotated(ctx, t, SiblingPrepared(Left, ctx.sib));
        finished, ctx', t' := true, Top, Plug(ctx.up, e);
        Move(nodes, ctx.up, e, ctx', t');
      }
    }

    /** One pass of __rb_erase_color with the node on the right; finished says that it was the last. */
    method EraseUnderRight(parent: RbNode, ghost nodes: set<RbNode>, ghost ctx0: Place, ghost t: Shape)
      returns (finished: bool, ghost ctx': Place, ghost t': Shape)
      requires At(nodes, ctx0, t) && EraseReady(ctx0, t) && IsBlack(t)
      requires ctx0.Frame? && ctx0.dir == Right && ctx0.item == parent
      modifies this, nodes
      ensures At(nodes, ctx', t')
      ensures finished ==> ctx' == Top && t' == EraseFix(ctx0, t)
      ensures !finished ==> EraseReady(ctx', t') && EraseFix(ctx', t') == EraseFix(ctx0, t) && Root(t') == parent
                            && EraseMeasure(ctx', t') < EraseMeasure(ctx0, t)
    {
      ghost var ctx := ctx0;
      SiblingExists(ctx, t);
      FocusLoop(nodes, ctx, t);
      var other := parent.left;
      if other.color == Red {
        SiblingTurnedReady(ctx, t);
        EraseTurnRight(parent, other, nodes, ctx, t);
        ctx := SiblingTurned(ctx);
        SiblingExists(ctx, t);
        FocusLoop(nodes, ctx, t);
        other := parent.left;
      }
      finished, ctx', t' := EraseBlackRight(parent, other, nodes, ctx, t);
    }

    /** The rest of the pass, once the sibling is black. */
    method EraseBlackRight(parent: RbNode, other: RbNode, ghost nodes: set<RbNode>, ghost ctx: Place, ghost t: Shape)
      returns (finished: bool, ghost ctx': Place, ghost t': Shape)
      requires At(nodes, ctx, t) && EraseReady(ctx, t) && IsBlack(t)
      requires ctx.Frame? && ctx.dir == Right && ctx.item == parent
      requires ctx.sib.Node? && ctx.sib.color == Black && ctx.sib.item == other
      modifies this, nodes
      ensures At(nodes, ctx', t')
      ensures finished ==> ctx' == Top && t' == EraseFix(ctx, t)
      ensures !finished ==> EraseReady(ctx', t') && EraseFix(ctx', t') == EraseFix(ctx, t) && Root(t') == parent
                            && EraseMeasure(ctx', t') < EraseMeasure(ctx, t)
    {
      ghost var at := Frame(Left, parent, ctx.color, t, ctx.up);
      Move(nodes, ctx, t, at, ctx.sib);
      FocusChildren(nodes, at, ctx.sib);
      if (other.left == null || other.left.color == Black) && (other.right == null || other.right.color == Black) {
        SiblingReddenedReady(ctx, t);
        SetColor(other, Red, nodes, at, ctx.sib);
        finished, ctx', t' := false, ctx.up, SiblingReddened(ctx, t);
        Move(nodes, at, ctx.sib.(color := Red), ctx', t');
      } else {
        EraseRotatedFits(ctx, t);
        Move(nodes, at, ctx.sib, ctx, t);
        EraseFinishRight(parent, other, nodes, ctx, t);
        ghost var e := EraseRotated(ctx, t, SiblingPrepared(Right, ctx.sib));
        finished, ctx', t' := true, Top, Plug(ctx.up, e);
        Move(nodes, ctx.up, e, ctx', t');
      }
    }

    /** __rb_erase_color. */
    method EraseColor(child: RbNode?, above: RbNode?, ghost nodes: set<RbNode>, ghost ctx0: Place, ghost t0: Shape)
      requires At(nodes, ctx0, t0) && EraseReady(ctx0, t0)
      requires child == Root(t0) && above == ParentOf(ctx0)
      modifies this, nodes
      ensures At(nodes, Top, EraseFix(ctx0, t0))
    {
      var cur, parent := child, above;
      ghost var ctx, t, goal := ctx0, t0, EraseFix(ctx0, t0);
      EraseFixCorrect(ctx0, t0);
      FocusLoop(nodes, ctx, t);
      while (cur == null || cur.color == Black) && cur != node
        invariant At(nodes, ctx, t) && EraseReady(ctx, t) && EraseFix(ctx, t) == goal
        invariant cur == Root(t) && parent == ParentOf(ctx)
        invariant t.Node? ==> t.item in nodes && t.item.color == t.color
        invariant Root(t) == node <==> ctx.Top?
        decreases EraseMeasure(ctx, t)
      {
        var finished;
        finished, ctx, t := ErasePass(cur, parent, nodes, ctx, t);
        FocusLoop(nodes, ctx, t);
        if finished {
          cur := node;
          break;
        }
        cur := parent;
        parent := cur.parent;
      }
      assert Plug(ctx, Blacken(t)) == goal;
      if cur != null {
        SetColor(cur, Black, nodes, ctx, t);
      }
      Move(nodes, ctx, Blacken(t), Top, goal);
    }

    /** One pass of __rb_erase_color. */
    method ErasePass(cur: RbNode?, parent: RbNode?, ghost nodes: set<RbNode>, ghost ctx: Place, ghost t: Shape)
      returns (finished: bool, ghost ctx': Place, ghost t': Shape)
      requires At(nodes, ctx, t) && EraseReady(ctx, t) && IsBlack(t) && ctx.Frame?
      requires cur == Root(t) && parent == ctx.item
      modifies this, nodes
      ensures At(nodes, ctx', t')
      ensures finished ==> ctx' == Top && t' == EraseFix(ctx, t)
      ensures !finished ==> EraseReady(ctx', t') && EraseFix(ctx', t') == EraseFix(ctx, t) && Root(t') == parent
      ensures !finished ==> EraseMeasure(ctx', t') < EraseMeasure(ctx, t)
    {
      FocusLoop(nodes, ctx, t);
      SiblingExists(ctx, t);
      if parent.left == cur {
        finished, ctx', t' := EraseUnderLeft(parent, nodes, ctx, t);
      } else {
        finished, ctx', t' := EraseUnderRight(parent, nodes, ctx, t);
      }
    }

    /** rb_link_node: parent and side name the link that is set. */
    method LinkNode(n: RbNode, parent: RbNode?, side: Dir, ghost nodes: set<RbNode>, ghost ctx: Place)
      requires At(nodes, ctx, Leaf) && n !in nodes
      requires parent == ParentOf(ctx) && (ctx.Frame? ==> ctx.dir == side)
      modifies this, nodes, n
      ensures At(nodes + {n}, ctx, NewLeaf(n))
    {
      ghost var h := Snapshot(nodes);
      Focus(h, node, ctx, Leaf);
      CtxInNodes(nodes, ctx, Leaf);
      n.parent := parent;
      n.color := Red;
      n.left, n.right := null, null;
      if parent == null {
        node := n;
      } else if side == Left {
        parent.left := n;
      } else {
        parent.right := n;
      }
      RepLink(h, Snapshot(nodes + {n}), old(node), node, ctx, n);
    }

    lemma CtxInNodes(nodes: set<RbNode>, ctx: Place, t: Shape)
      requires At(nodes, ctx, t)
      ensures Items(t) <= nodes && CtxItems(ctx) <= nodes
    {
      RepPlug(Snapshot(nodes), node, ctx, t);
      PlugItems(ctx, t);
      TreeInNodes(Snapshot(nodes), Plug(ctx, t), null);
    }

    /** The lines of rb_erase that put an only child into its parent's place. */
    method Unlink(x: RbNode, child: RbNode?, parent: RbNode?, ghost nodes: set<RbNode>, ghost ctx: Place,
                  ghost t: Shape)
      requires At(nodes, ctx, t) && t.Node? && t.item == x && (t.left.Leaf? || t.right.Leaf?)
      requires child == Root(OnlyChild(t)) && parent == ParentOf(ctx)
      modifies this, nodes
      ensures At(nodes, ctx, OnlyChild(t)) && CellOf(x) == old(CellOf(x))
    {
      ghost var h := Snapshot(nodes);
      FocusLoop(nodes, ctx, t);
      FocusChildren(nodes, ctx, t);
      UnlinkLinks(x, child, parent, nodes);
      RepUnlink(h, Snapshot(nodes), old(node), node, ctx, t);
    }

    /** The assignments, cell by cell. */
    method UnlinkLinks(x: RbNode, child: RbNode?, parent: RbNode?, ghost nodes: set<RbNode>)
      requires x in nodes && Joined(x, nodes) && parent == x.parent
      requires child != null ==> child in nodes && child != x && child != parent
      modifies this, nodes
      ensures child != null ==> CellOf(child) == old(CellOf(child)).(parent := parent)
      ensures Redirected(old(node), parent, x, child, old(if parent == null then CellOf(x) else CellOf(parent)))
      ensures forall n <- nodes :: n != child && n != parent ==> CellOf(n) == old(CellOf(n))
    {
      if child != null {
        child.parent := parent;
      }
      if parent != null {
        if parent.left == x {
          parent.left := child;
        } else {
          parent.right := child;
        }
      } else {
        node := child;
      }
    }

    /** The lines of rb_erase that put the successor s, already unlinked, into the place of x. */
    method TakeOver(x: RbNode, s: RbNode, ghost nodes: set<RbNode>, ghost ctx: Place, ghost t: Shape)
      requires At(nodes, ctx, t) && t.Node? && t.item == x && t.left.Node?
      requires s in nodes && s !in Items(t) && s !in CtxItems(ctx)
      modifies this, nodes
      ensures At(nodes, ctx, t.(item := s))
    {
      ghost var h := Snapshot(nodes);
      TakeOverFocus(x, s, nodes, ctx, t);
      TakeOverLinks(x, s, nodes);
      RepReplace(h, Snapshot(nodes), old(node), node, ctx, t, s);
    }

    /** The nodes that a takeover touches are different ones. */
    lemma TakeOverFocus(x: RbNode, s: RbNode, nodes: set<RbNode>, ctx: Place, t: Shape)
      requires At(nodes, ctx, t) && t.Node? && t.item == x && t.left.Node?
      requires s in nodes && s !in Items(t) && s !in CtxItems(ctx)
      ensures x in nodes && Joined(x, nodes) && TakeOverReady(x, s, nodes)
      ensures CellOf(x) == Cell(ParentOf(ctx), t.color, Root(t.left), Root(t.right))
      ensures ctx.Frame? ==> CellOf(ctx.item) == CellAt(ctx.dir, ParentOf(ctx.up), ctx.color, x, Root(ctx.sib))
      ensures ctx.Frame? ==> Root(ctx.sib) != x
    {
      FocusLoop(nodes, ctx, t);
      FocusChildren(nodes, ctx, t);
    }

    ghost predicate TakeOverReady(x: RbNode, s: RbNode, nodes: set<RbNode>)
      reads x
    {
      && s != x && s != x.parent && s != x.left && s != x.right
      && x.left != null && x.left in nodes && x.left != x && x.left != x.parent && x.left != x.right
      && (x.right != null ==> x.right in nodes && x.right != x && x.right != x.parent)
    }

    /** The assignments, cell by cell. */
    method TakeOverLinks(x: RbNode, s: RbNode, ghost nodes: set<RbNode>)
      requires x in nodes && s in nodes && Joined(x, nodes) && TakeOverReady(x, s, nodes)
      modifies this, nodes
      ensures CellOf(s) == old(CellOf(x)) && CellOf(x) == old(CellOf(x))
      ensures CellOf(x.left) == old(CellOf(x.left)).(parent := s)
      ensures x.right != null ==> CellOf(x.right) == old(CellOf(x.right)).(parent := s)
      ensures Redirected(old(node), x.parent, x, s, old(if x.parent == null then CellOf(x) else CellOf(x.parent)))
      ensures forall n <- nodes :: n != s && n != x.parent && n != x.left && n != x.right ==>
        CellOf(n) == old(CellOf(n))
    {
      s.parent := x.parent;
      s.color := x.color;
      s.right := x.right;
      s.left := x.left;
      if x.parent != null {
        if x.parent.left == x {
          x.parent.left := s;
        } else {
          x.parent.right := s;
        }
      } else {
        node := s;
      }
      x.left.parent := s;
      if x.right != null {
        x.right.parent := s;
      }
    }

    /** The descent of rb_erase, rb_first and rb_next: the leftmost node below t. */
    method DescendLeft(x: RbNode, ghost nodes: set<RbNode>, ghost ctx: Place, ghost t: Shape) returns (m: RbNode)
      requires At(nodes, ctx, t) && t.Node? && t.item == x
      ensures At(nodes, Leftmost(ctx, t).0, Leftmost(ctx, t).1)
      ensures m == MinItem(t) && m in nodes && At(nodes, ctx, t)
    {
      m := x;
      ghost var c, s := ctx, t;
      FocusChildren(nodes, c, s);
      while m.left != null
        invariant At(nodes, c, s) && s.Node? && s.item == m && m in nodes
        invariant CellOf(m) == Cell(ParentOf(c), s.color, Root(s.left), Root(s.right))
        invariant Leftmost(c, s) == Leftmost(ctx, t) && MinItem(s) == MinItem(t)
        decreases s
      {
        m := m.left;
        Move(nodes, c, s, Frame(Left, s.item, s.color, s.right, c), s.left);
        c, s := Frame(Left, s.item, s.color, s.right, c), s.left;
        FocusChildren(nodes, c, s);
      }
    }

    /** rb_erase at a known position. */
    method EraseNode(x: RbNode, ghost nodes: set<RbNode>, ghost ctx: Place, ghost t: Shape)
      requires At(nodes, ctx, t) && t.Node? && t.item == x && IsRb(Plug(ctx, t))
      modifies this, nodes
      ensures At(nodes, Top, EraseAt(ctx, t))
    {
      var child: RbNode?, parent: RbNode?, color: Color;
      VacatedReady(ctx, t);
      ghost var c, k := Vacated(ctx, t).0, Vacated(ctx, t).2;
      FocusChildren(nodes, ctx, t);
      if x.left != null && x.right != null {
        child, parent, color := Splice(x, nodes, ctx, t);
      } else {
        child := if x.left == null then x.right else x.left;
        parent, color := x.parent, x.color;
        Unlink(x, child, parent, nodes, ctx, t);
      }
      if color == Black {
        EraseColor(child, parent, nodes, c, k);
      } else {
        Move(nodes, c, k, Top, Plug(c, k));
      }
    }

    /** The branch of rb_erase for a node with two children. */
    method Splice(x: RbNode, ghost nodes: set<RbNode>, ghost ctx: Place, ghost t: Shape)
      returns (child: RbNode?, parent: RbNode?, color: Color)
      requires At(nodes, ctx, t) && t.Node? && t.item == x && t.left.Node? && t.right.Node?
      modifies this, nodes
      ensures var (c, m) := Spliced(ctx, t);
        At(nodes, c, m.right) && child == Root(m.right) && parent == ParentOf(c) && color == m.color
    {
      ghost var above := Frame(Right, x, t.color, t.left, ctx);
      FocusChildren(nodes, ctx, t);
      Move(nodes, ctx, t, above, t.right);
      var s := DescendLeft(x.right, nodes, above, t.right);
      ghost var c, m := Leftmost(above, t.right).0, Leftmost(above, t.right).1;
      FocusChildren(nodes, c, m);
      child, parent, color := s.right, s.parent, s.color;
      ghost var above' := above.(item := s);
      LeftmostPlaces(above, above', t.right);
      LeftmostPlaces(above', above, t.right);
      SpliceDistinct(nodes, c, m, above, t);

      Unlink(s, child, parent, nodes, c, m);
      ghost var rest := Node(t.left, x, t.color, RemoveMin(t.right));
      Move(nodes, c, m.right, ctx, rest);
      if s.parent == x {
        parent := s;
      }
      TakeOver(x, s, nodes, ctx, rest);
      Move(nodes, ctx, rest.(item := s), Leftmost(above', t.right).0, m.right);
    }

    /** The successor is neither the erased node nor among what stays below or beside it. */
    lemma SpliceDistinct(nodes: set<RbNode>, c: Place, m: Shape, above: Place, t: Shape)
      requires At(nodes, c, m) && t.Node? && t.right.Node? && (c, m) == Leftmost(above, t.right)
      requires above.Frame? && above == Frame(Right, t.item, t.color, t.left, above.up)
      ensures m.item in nodes && m.item != t.item
      ensures var rest := Node(t.left, t.item, t.color, RemoveMin(t.right));
        Plug(c, m.right) == Plug(above.up, rest) && m.item !in Items(rest) && m.item !in CtxItems(above.up)
      ensures t.item !in Items(t.right)
    {
      LeftmostPlaces(above, above, t.right);
      var rest := Node(t.left, t.item, t.color, RemoveMin(t.right));
      assert Plug(c, m.right) == Plug(above, RemoveMin(t.right)) == Plug(above.up, rest);
      PlugItems(c, m.right);
      PlugItems(above.up, rest);
      Move(nodes, c, m, above, t.right);
    }

    // ---------- the operations on a whole tree ----------

    /** The nodes of shape represent it, and it is a red-black tree. */
    ghost predicate Valid(shape: Shape)
      reads this, Items(shape)
    {
      At(Items(shape), Top, shape) && IsRb(shape)
    }

    /** RB_ROOT: an empty tree. */
    constructor ()
      ensures node == null && Valid(Leaf)
    {
      node := null;
    }

    lemma Settle(nodes: set<RbNode>, shape: Shape)
      requires At(nodes, Top, shape) && IsRb(shape)
      ensures Valid(shape)
    {
      RepRestrict(Snapshot(nodes), Snapshot(Items(shape)), node, shape);
    }

    /** rb_link_node at an empty place, then rb_insert_color. */
    method Insert(n: RbNode, parent: RbNode?, side: Dir, ghost shape: Shape, ghost ctx: Place)
      returns (ghost shape': Shape)
      requires Valid(shape) && n !in Items(shape)
      requires Plug(ctx, Leaf) == shape && parent == ParentOf(ctx) && (ctx.Frame? ==> ctx.dir == side)
      modifies this, Items(shape), n
      ensures Valid(shape') && shape' == InsertAt(ctx, n)
      ensures InOrder(shape) == Before(ctx) + After(ctx)
      ensures InOrder(shape') == Before(ctx) + [n] + After(ctx)
    {
      ghost var nodes := Items(shape) + {n};
      Move(Items(shape), Top, shape, ctx, Leaf);
      LinkNode(n, parent, side, Items(shape), ctx);
      NewLeafReady(ctx, n);
      InsertColor(n, nodes, ctx, NewLeaf(n));
      InsertAtCorrect(ctx, n);
      shape' := InsertAt(ctx, n);
      Settle(nodes, shape');
    }

    /** rb_erase of the i-th node in order. */
    method Erase(x: RbNode, ghost shape: Shape, ghost i: nat) returns (ghost shape': Shape)
      requires Valid(shape) && i < |InOrder(shape)| && InOrder(shape)[i] == x
      modifies this, Items(shape)
      ensures Valid(shape')
      ensures InOrder(shape') == InOrder(shape)[..i] + InOrder(shape)[i + 1..]
    {
      ghost var ctx, t := PlaceOf(shape, i);
      EraseAtCorrect(ctx, t);
      WithoutMiddle(Before(ctx) + InOrder(t.left), t.item, InOrder(t.right) + After(ctx));
      Move(Items(shape), Top, shape, ctx, t);
      EraseNode(x, Items(shape), ctx, t);
      shape' := EraseAt(ctx, t);
      Settle(Items(shape), shape');
    }

    // ---------- in-order stepping ----------

    /** rb_first. */
    method First(ghost shape: Shape) returns (r: RbNode?)
      requires Valid(shape)
      ensures Valid(shape)
      ensures r == if InOrder(shape) == [] then null else InOrder(shape)[0]
    {
      Focus(Snapshot(Items(shape)), node, Top, shape);
      if node == null {
        return null;
      }
      MinFirst(shape);
      r := DescendLeft(node, Items(shape), Top, shape);
    }

    /** The descent to the right, the mirror of DescendLeft. */
    method DescendRight(x: RbNode, ghost nodes: set<RbNode>, ghost ctx: Place, ghost t: Shape) returns (m: RbNode)
      requires At(nodes, ctx, t) && t.Node? && t.item == x
      ensures m == MaxItem(t) && At(nodes, ctx, t)
    {
      m := x;
      ghost var c, s := ctx, t;
      FocusChildren(nodes, c, s);
      while m.right != null
        invariant At(nodes, c, s) && s.Node? && s.item == m && m in nodes
        invariant CellOf(m) == Cell(ParentOf(c), s.color, Root(s.left), Root(s.right))
        invariant MaxItem(s) == MaxItem(t)
        decreases s
      {
        m := m.right;
        Move(nodes, c, s, Frame(Right, s.item, s.color, s.left, c), s.right);
        c, s := Frame(Right, s.item, s.color, s.left, c), s.right;
        FocusChildren(nodes, c, s);
      }
    }

    /** rb_last. */
    method Last(ghost shape: Shape) returns (r: RbNode?)
      requires Valid(shape)
      ensures Valid(shape)
      ensures r == if InOrder(shape) == [] then null else InOrder(shape)[|InOrder(shape)| - 1]
    {
      Focus(Snapshot(Items(shape)), node, Top, shape);
      if node == null {
        return null;
      }
      MaxLast(shape);
      r := DescendRight(node, Items(shape), Top, shape);
    }

    /** rb_next of the i-th node in order. */
    method Next(x: RbNode, ghost shape: Shape, ghost i: nat) returns (r: RbNode?)
      requires Valid(shape) && i < |InOrder(shape)| && InOrder(shape)[i] == x
      ensures Valid(shape)
      ensures r == if i + 1 < |InOrder(shape)| then InOrder(shape)[i + 1] else null
    {
      ghost var nodes := Items(shape);
      ghost var ctx, t := PlaceOf(shape, i);
      OrderAt(ctx, t);
      Move(nodes, Top, shape, ctx, t);
      FocusChildren(nodes, ctx, t);
      if x.right != null {
        MinFirst(t.right);
        ghost var c := Frame(Right, t.item, t.color, t.left, ctx);
        Move(nodes, ctx, t, c, t.right);
        r := DescendLeft(x.right, nodes, c, t.right);
        Move(nodes, c, t.right, Top, shape);
        return;
      }
      assert InOrder(t.right) + After(ctx) == After(ctx);
      r := ClimbRight(x, nodes, ctx, t);
      Move(nodes, ctx, t, Top, shape);
    }

    /** The climb of rb_next: up while coming from the right; the first node after the subtree. */
    method ClimbRight(x: RbNode, ghost nodes: set<RbNode>, ghost ctx: Place, ghost t: Shape) returns (r: RbNode?)
      requires At(nodes, ctx, t) && t.Node? && t.item == x
      ensures At(nodes, ctx, t)
      ensures r == if After(ctx) == [] then null else After(ctx)[0]
    {
      var cur := x;
      ghost var c, s := ctx, t;
      FocusLoop(nodes, c, s);
      while cur.parent != null && cur == cur.parent.right
        invariant At(nodes, c, s) && s.Node? && s.item == cur && cur in nodes
        invariant cur.parent == ParentOf(c) && After(c) == After(ctx) && Plug(c, s) == Plug(ctx, t)
        invariant c.Frame? ==> c.item in nodes && (cur == c.item.right <==> c.dir == Right)
        decreases c
      {
        cur := cur.parent;
        ghost var j := Join(c.dir, s, c.item, c.color, c.sib);
        Move(nodes, c, s, c.up, j);
        c, s := c.up, j;
        FocusLoop(nodes, c, s);
      }
      r := cur.parent;
      Move(nodes, c, s, ctx, t);
    }

    /** rb_prev of the i-th node in order. */
    method Prev(x: RbNode, ghost shape: Shape, ghost i: nat) returns (r: RbNode?)
      requires Valid(shape) && i < |InOrder(shape)| && InOrder(shape)[i] == x
      ensures Valid(shape)
      ensures r == if i > 0 then InOrder(shape)[i - 1] else null
    {
      ghost var nodes := Items(shape);
      ghost var ctx, t := PlaceOf(shape, i);
      OrderAt(ctx, t);
      Move(nodes, Top, shape, ctx, t);
      FocusChildren(nodes, ctx, t);
      if x.left != null {
        MaxLast(t.left);
        ghost var c := Frame(Left, t.item, t.color, t.right, ctx);
        Move(nodes, ctx, t, c, t.left);
        r := DescendRight(x.left, nodes, c, t.left);
        Move(nodes, c, t.left, Top, shape);
        return;
      }
      assert Before(ctx) + InOrder(t.left) == Before(ctx);
      r := ClimbLeft(x, nodes, ctx, t);
      Move(nodes, ctx, t, Top, shape);
    }

    /** The climb of rb_prev: up while coming from the left; the last node before the subtree. */
    method ClimbLeft(x: RbNode, ghost nodes: set<RbNode>, ghost ctx: Place, ghost t: Shape) returns (r: RbNode?)
      requires At(nodes, ctx, t) && t.Node? && t.item == x
      ensures At(nodes, ctx, t)
      ensures r == if Before(ctx) == [] then null else Before(ctx)[|Before(ctx)| - 1]
    {
      var cur := x;
      ghost var c, s := ctx, t;
      FocusLoop(nodes, c, s);
      while cur.parent != null && cur == cur.parent.left
        invariant At(nodes, c, s) && s.Node? && s.item == cur && cur in nodes
        invariant cur.parent == ParentOf(c) && Before(c) == Before(ctx) && Plug(c, s) == Plug(ctx, t)
        invariant c.Frame? ==> c.item in nodes && (cur == c.item.left <==> c.dir == Left)
        decreases c
      {
        cur := cur.parent;
        ghost var j := Join(c.dir, s, c.item, c.color, c.sib);
        Move(nodes, c, s, c.up, j);
        c, s := c.up, j;
        FocusLoop(nodes, c, s);
      }
      r := cur.parent;
      Move(nodes, c, s, ctx, t);
    }

    /** rb_first and repeated rb_next visit exactly the order, and end in NULL. */
    method Walk(ghost shape: Shape) returns (visited: seq<RbNode>)
      requires Valid(shape)
      ensures visited == InOrder(shape)
    {
      visited := [];
      var cur := First(shape);
      while cur != null
        invariant Valid(shape) && |visited| <= |InOrder(shape)| && visited == InOrder(shape)[..|visited|]
        invariant cur == if |visited| < |InOrder(shape)| then InOrder(shape)[|visited|] else null
        decreases |InOrder(shape)| - |visited|
      {
        visited := visited + [cur];
        cur := Next(cur, shape, |visited| - 1);
      }
    }

    /** rb_last and repeated rb_prev visit it backwards. */
    method WalkBack(ghost shape: Shape) returns (visited: seq<RbNode>)
      requires Valid(shape)
      ensures |visited| == |InOrder(shape)|
      ensures forall i :: 0 <= i < |visited| ==> visited[i] == InOrder(shape)[|visited| - 1 - i]
    {
      visited := [];
      ghost var order := InOrder(shape);
      var cur := Last(shape);
      while cur != null
        invariant Valid(shape) && |visited| <= |order|
        invariant forall i :: 0 <= i < |visited| ==> visited[i] == order[|order| - 1 - i]
        invariant cur == if |visited| < |order| then order[|order| - 1 - |visited|] else null
        decreases |order| - |visited|
      {
        visited := visited + [cur];
        cur := Prev(cur, shape, |order| - |visited|);
      }
    }

    /** rb_prev undoes rb_next and rb_next undoes rb_prev, wherever both are defined. */
    method ThereAndBack(x: RbNode, ghost shape: Shape, ghost i: nat) returns (back: RbNode?, forth: RbNode?)
      requires Valid(shape) && i < |InOrder(shape)| && InOrder(shape)[i] == x
      ensures back == if i + 1 < |InOrder(shape)| then x else null
      ensures forth == if i > 0 then x else null
    {
      back, forth := null, null;
      var next := Next(x, shape, i);
      if next != null {
        back := Prev(next, shape, i + 1);
      }
      var prev := Prev(x, shape, i);
      if prev != null {
        forth := Next(prev, shape, i - 1);
      }
    }
  }
}
