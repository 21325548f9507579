/**
  The radix tree of datastruct/idr.c as a table from positions to layers.

  A position is a level (0 for leaves) and the digits of the ids above it, so the layer for
  ids with Shr(id, l + 1) == q is at Pos(l, q) whatever the height of the tree is.  All rules
  about bitmaps, counts and links are local to a position and its children; what they mean for
  whole subtrees is proved below.
 */
module IdrTable {
  import opened IdrDigits

  /** What a slot of ary holds: nothing, a layer below, or a user's pointer. */
  datatype Entry = Nil | Sub(layer: Layer) | Val(addr: nat)

  /** The address of a layer; NULL is no layer. */
  type Layer = nat

  const NULL: Layer := 0

  /** struct idr_layer. */
  datatype Record = Record(bitmap: seq<bool>, ary: seq<Entry>, count: int)

  /** A layer as the slab cache hands it out. */
  function Blank(): Record {
    Record(NoBits(), NoLinks(), 0)
  }

  function NoBits(): (s: seq<bool>)
    ensures |s| == IDR_SIZE && forall i :: 0 <= i < |s| ==> !s[i]
  {
    seq(IDR_SIZE, i => false)
  }

  function NoLinks(): (s: seq<Entry>)
    ensures |s| == IDR_SIZE && forall i :: 0 <= i < |s| ==> s[i] == Nil
  {
    seq(IDR_SIZE, i => Nil)
  }

  datatype Pos = Pos(level: nat, prefix: nat)

  /** A layer with its address. */
  datatype Node = Node(obj: Layer, bits: seq<bool>, ary: seq<Entry>, count: int)

  type Table = map<Pos, Node>

  datatype Graph = Graph(layers: nat, tab: Table)

  function Child(p: Pos, i: nat): Pos
    requires p.level > 0
  {
    Pos(p.level - 1, Times(p.prefix) + i)
  }

  function Parent(p: Pos): Pos {
    Pos(p.level + 1, Over(p.prefix))
  }

  function SlotIn(p: Pos): (i: nat)
    ensures i < IDR_SIZE
  {
    Rest(p.prefix)
  }

  lemma ChildParent(p: Pos, i: nat)
    requires p.level > 0 && i < IDR_SIZE
    ensures Parent(Child(p, i)) == p && SlotIn(Child(p, i)) == i
  {
    DivMod(p.prefix, i);
  }

  lemma ParentChild(p: Pos)
    ensures Child(Parent(p), SlotIn(p)) == p
  {
    Recompose(p.prefix);
  }

  /** The position that id passes through at level l. */
  function PathPos(id: nat, l: nat): Pos {
    Pos(l, Shr(id, l + 1))
  }

  lemma PathStep(id: nat, l: nat)
    ensures Parent(PathPos(id, l)) == PathPos(id, l + 1)
    ensures SlotIn(PathPos(id, l)) == Digit(id, l + 1)
    ensures Child(PathPos(id, l + 1), Digit(id, l + 1)) == PathPos(id, l)
  {
    ParentChild(PathPos(id, l));
  }

  // ---------- well-formed trees ----------

  predicate Full(bits: seq<bool>) {
    forall i :: 0 <= i < |bits| ==> bits[i]
  }

  function CountTrue(bits: seq<bool>): nat {
    if bits == [] then 0 else CountTrue(bits[..|bits| - 1]) + if bits[|bits| - 1] then 1 else 0
  }

  /** Slots of ary in use. */
  function Used(ary: seq<Entry>): seq<bool> {
    seq(|ary|, i requires 0 <= i < |ary| => !ary[i].Nil?)
  }

  function Link(tab: Table, c: Pos): Entry {
    if c in tab then Sub(tab[c].obj) else Nil
  }

  predicate Sized(n: Node) {
    |n.bits| == IDR_SIZE && |n.ary| == IDR_SIZE
  }

  /** A bit of an inner layer is set exactly when the layer below exists and is full. */
  predicate BitOk(tab: Table, p: Pos, i: nat)
    requires p in tab && p.level > 0 && Sized(tab[p]) && i < IDR_SIZE
  {
    tab[p].bits[i] <==> Child(p, i) in tab && Full(tab[Child(p, i)].bits)
  }

  predicate LinksOk(tab: Table, p: Pos)
    requires p in tab
  {
    && Sized(tab[p])
    && forall i :: 0 <= i < IDR_SIZE ==>
         if p.level == 0 then !tab[p].ary[i].Sub? && (tab[p].bits[i] || tab[p].ary[i].Nil?)
         else tab[p].ary[i] == Link(tab, Child(p, i))
  }

  predicate BitsOk(tab: Table, p: Pos)
    requires p in tab
  {
    p.level > 0 ==> Sized(tab[p]) && forall i :: 0 <= i < IDR_SIZE ==> BitOk(tab, p, i)
  }

  /** How many slots of the layer at p are occupied. */
  function Occupied(tab: Table, p: Pos): nat
    requires p in tab
  {
    CountTrue(if p.level == 0 then tab[p].bits else Used(tab[p].ary))
  }

  /** p is below the top, and so is everything between. */
  predicate Placed(g: Graph, p: Pos) {
    && p.level < g.layers
    && (p.level == g.layers - 1 ==> p.prefix == 0)
    && (p.level < g.layers - 1 ==> Parent(p) in g.tab)
  }

  /** The layers at p and q are different ones, unless p is q. */
  predicate Separate(tab: Table, p: Pos, q: Pos)
    requires p in tab && q in tab
  {
    tab[p].obj == tab[q].obj ==> p == q
  }

  /** No layer is at two places. */
  ghost predicate Injective(tab: Table) {
    forall p, q {:trigger Separate(tab, p, q)} :: p in tab && q in tab ==> Separate(tab, p, q)
  }

  ghost predicate Shaped(g: Graph) {
    && (g.layers > 0 ==> Pos(g.layers - 1, 0) in g.tab)
    && Injective(g.tab)
    && (forall p {:trigger Placed(g, p)} :: p in g.tab ==> Placed(g, p))
    && (forall p {:trigger LinksOk(g.tab, p)} :: p in g.tab ==> LinksOk(g.tab, p))
  }

  predicate Counted(g: Graph, p: Pos, extra: nat)
    requires p in g.tab
  {
    g.tab[p].count == Occupied(g.tab, p) + extra
  }

  /** The representation invariant of a tree at rest. */
  ghost predicate Wf(g: Graph) {
    Shaped(g) && Ruled(g)
  }

  /** Bitmaps and counts are right. */
  ghost predicate Ruled(g: Graph) {
    && (forall p {:trigger BitsOk(g.tab, p)} :: p in g.tab ==> BitsOk(g.tab, p))
    && (forall p {:trigger Counted(g, p, 0)} :: p in g.tab ==> Counted(g, p, 0))
  }

  /** The rules at one position of a tree at rest. */
  predicate AtRest(g: Graph, p: Pos)
    requires p in g.tab
  {
    Placed(g, p) && LinksOk(g.tab, p) && BitsOk(g.tab, p) && Counted(g, p, 0)
  }

  lemma AllAtRest(g: Graph)
    requires Injective(g.tab) && (g.layers > 0 ==> Pos(g.layers - 1, 0) in g.tab)
    requires forall p {:trigger AtRest(g, p)} :: p in g.tab ==> AtRest(g, p)
    ensures Wf(g)
  {
    forall p | p in g.tab
      ensures Placed(g, p) && LinksOk(g.tab, p) && BitsOk(g.tab, p) && Counted(g, p, 0)
    {
      assert AtRest(g, p);
    }
  }

  lemma RestAt(g: Graph, p: Pos)
    requires Wf(g) && p in g.tab
    ensures AtRest(g, p)
  {
    assert Placed(g, p) && LinksOk(g.tab, p) && BitsOk(g.tab, p) && Counted(g, p, 0);
  }

  /** Updates that move no layer keep layers apart. */
  lemma SameLayers(tab: Table, tab': Table)
    requires Injective(tab) && forall p <- tab' :: p in tab && tab'[p].obj == tab[p].obj
    ensures Injective(tab')
  {
    forall p, q | p in tab' && q in tab'
      ensures Separate(tab', p, q)
    {
      assert Separate(tab, p, q);
    }
  }

  /** So does a layer from elsewhere. */
  lemma NewLayer(tab: Table, pos: Pos, n: Node)
    requires Injective(tab) && forall p <- tab :: tab[p].obj != n.obj
    ensures Injective(tab[pos := n])
  {
    var tab' := tab[pos := n];
    forall p, q | p in tab' && q in tab'
      ensures Separate(tab', p, q)
    {
      if p != pos && q != pos {
        assert Separate(tab, p, q);
      }
    }
  }

  // ---------- what a tree means ----------

  predicate Allocated(g: Graph, id: nat) {
    var p := Pos(0, Over(id));
    p in g.tab && |g.tab[p].bits| == IDR_SIZE && g.tab[p].bits[Rest(id)]
  }

  /** The pointer idr_find is to return. */
  function Stored(g: Graph, id: nat): Entry {
    var p := Pos(0, Over(id));
    if p in g.tab && |g.tab[p].ary| == IDR_SIZE then g.tab[p].ary[Rest(id)] else Nil
  }

  /** The tree stands for the map from allocated ids to their pointers. */
  ghost predicate Denotes(g: Graph, m: map<nat, Entry>) {
    && (forall id: nat {:trigger Allocated(g, id)} :: id in m <==> Allocated(g, id))
    && (forall id: nat {:trigger Stored(g, id)} :: id in m ==> m[id] == Stored(g, id))
  }

  /** Both trees hold the same pointers under the same ids. */
  ghost predicate SameIds(g: Graph, g': Graph) {
    forall id: nat :: (Allocated(g', id) <==> Allocated(g, id)) && Stored(g', id) == Stored(g, id)
  }

  /** The leaf at p holds what it held; a leaf that came or went is empty. */
  predicate SameLeaf(g: Graph, g': Graph, p: Pos) {
    var n := if p in g.tab then (g.tab[p].bits, g.tab[p].ary) else (NoBits(), NoLinks());
    var n' := if p in g'.tab then (g'.tab[p].bits, g'.tab[p].ary) else (NoBits(), NoLinks());
    n == n'
  }

  lemma SameLeaves(g: Graph, g': Graph)
    requires forall q: nat :: SameLeaf(g, g', Pos(0, q))
    ensures SameIds(g, g')
  {
    forall id: nat
      ensures (Allocated(g', id) <==> Allocated(g, id)) && Stored(g', id) == Stored(g, id)
    {
      assert SameLeaf(g, g', Pos(0, Over(id)));
    }
  }

  /** Below a full bitmap every id is taken. */
  lemma {:induction false} FullSubtree(g: Graph, p: Pos, id: nat)
    requires Wf(g) && p in g.tab && Full(g.tab[p].bits) && Shr(id, p.level + 1) == p.prefix
    ensures Allocated(g, id)
    decreases p.level
  {
    assert LinksOk(g.tab, p) && BitsOk(g.tab, p);
    var i := Digit(id, p.level);
    assert g.tab[p].bits[i];
    if p.level == 0 {
      assert Shr(id, 0) == id;
    } else {
      assert BitOk(g.tab, p, i);
      PathStep(id, p.level - 1);
      FullSubtree(g, Child(p, i), id);
    }
  }

  /** Every layer on the path of an allocated id is there, up to the top. */
  lemma {:induction false} PathPresent(g: Graph, id: nat, l: nat)
    requires Shaped(g) && PathPos(id, 0) in g.tab && l < g.layers
    ensures PathPos(id, l) in g.tab
  {
    if l > 0 {
      PathPresent(g, id, l - 1);
      PathStep(id, l - 1);
      assert Placed(g, PathPos(id, l - 1));
    }
  }

  lemma AllocatedInCapacity(g: Graph, id: nat)
    requires Shaped(g) && PathPos(id, 0) in g.tab
    ensures g.layers > 0 && id < Capacity(g.layers)
  {
    assert Placed(g, PathPos(id, 0));
    PathPresent(g, id, g.layers - 1);
    assert Placed(g, PathPos(id, g.layers - 1));
    InCapacity(id, g.layers);
  }

  // ---------- counting ----------

  lemma {:induction false} CountUpdate(s: seq<bool>, i: nat, b: bool)
    requires i < |s|
    ensures CountTrue(s[i := b]) == CountTrue(s) - (if s[i] then 1 else 0) + (if b then 1 else 0)
    decreases |s|
  {
    var n := |s| - 1;
    if i < n {
      CountUpdate(s[..n], i, b);
      assert s[i := b][..n] == s[..n][i := b];
    } else {
      assert s[i := b][..n] == s[..n];
    }
  }

  lemma {:induction false} CountZero(s: seq<bool>)
    ensures CountTrue(s) == 0 <==> forall i :: 0 <= i < |s| ==> !s[i]
    decreases |s|
  {
    if s != [] {
      var n := |s| - 1;
      CountZero(s[..n]);
      assert forall i :: 0 <= i < n ==> s[..n][i] == s[i];
    }
  }

  /** If one slot is taken and the count is one, no other slot is. */
  lemma CountOne(s: seq<bool>, i: nat)
    requires i < |s| && s[i] && CountTrue(s) == 1
    ensures forall j :: 0 <= j < |s| && j != i ==> !s[j]
  {
    CountUpdate(s, i, false);
    CountZero(s[i := false]);
    forall j | 0 <= j < |s| && j != i
      ensures !s[j]
    {
      assert s[i := false][j] == s[j];
    }
  }

  lemma UsedUpdate(ary: seq<Entry>, i: nat, e: Entry)
    requires i < |ary|
    ensures Used(ary[i := e]) == Used(ary)[i := !e.Nil?]
  {
  }

  // ---------- allocation ----------

  /** The leaf of id with v planted. */
  function Planted(g: Graph, id: nat, v: Entry): Graph
    requires PathPos(id, 0) in g.tab && Sized(g.tab[PathPos(id, 0)])
  {
    var p, i := PathPos(id, 0), Digit(id, 0);
    var n := g.tab[p];
    g.(tab := g.tab[p := Node(n.obj, n.bits[i := true], n.ary[i := v], n.count + 1)])
  }

  /** The bits of the layer at p are right, but the one for c is not set yet. */
  predicate BitsOkBut(tab: Table, p: Pos, c: Pos)
    requires p in tab
  {
    p.level > 0 ==>
      && Sized(tab[p])
      && forall i :: 0 <= i < IDR_SIZE ==>
           if Child(p, i) == c then !tab[p].bits[i] else BitOk(tab, p, i)
  }

  /** All is well, except that the bit for c in the layer above may still have to be set. */
  ghost predicate Stale(g: Graph, c: Pos) {
    && Shaped(g) && c in g.tab
    && (forall p {:trigger Counted(g, p, 0)} :: p in g.tab ==> Counted(g, p, 0))
    && (forall p {:trigger BitsOkBut(g.tab, p, c)} :: p in g.tab ==> BitsOkBut(g.tab, p, c))
  }

  /** The rules at one position, if the bit for c may still have to be set. */
  predicate StaleAt(g: Graph, p: Pos, c: Pos)
    requires p in g.tab
  {
    Placed(g, p) && LinksOk(g.tab, p) && Counted(g, p, 0) && BitsOkBut(g.tab, p, c)
  }

  lemma AllStale(g: Graph, c: Pos)
    requires c in g.tab && Injective(g.tab) && (g.layers > 0 ==> Pos(g.layers - 1, 0) in g.tab)
    requires forall p {:trigger StaleAt(g, p, c)} :: p in g.tab ==> StaleAt(g, p, c)
    ensures Stale(g, c)
  {
    forall p | p in g.tab
      ensures Placed(g, p) && LinksOk(g.tab, p) && Counted(g, p, 0) && BitsOkBut(g.tab, p, c)
    {
      assert StaleAt(g, p, c);
    }
  }

  lemma PlantedIds(g: Graph, id: nat, v: Entry, k: nat)
    requires PathPos(id, 0) in g.tab && Sized(g.tab[PathPos(id, 0)])
    ensures Allocated(Planted(g, id, v), k) <==> k == id || Allocated(g, k)
    ensures Stored(Planted(g, id, v), k) == if k == id then v else Stored(g, k)
  {
    assert Shr(id, 0) == id && Shr(id, 1) == Over(id);
    Recompose(k);
    Recompose(id);
  }

  lemma PlantedStale(g: Graph, id: nat, v: Entry)
    requires Wf(g) && PathPos(id, 0) in g.tab && Sized(g.tab[PathPos(id, 0)])
    requires !Allocated(g, id) && !v.Sub?
    ensures Stale(Planted(g, id, v), PathPos(id, 0))
  {
    var g' := Planted(g, id, v);
    SameLayers(g.tab, g'.tab);
    forall p | p in g'.tab
      ensures StaleAt(g', p, PathPos(id, 0))
    {
      PlantedNode(g, id, v, p);
    }
    AllStale(g', PathPos(id, 0));
  }

  lemma PlantedNode(g: Graph, id: nat, v: Entry, p: Pos)
    requires Wf(g) && PathPos(id, 0) in g.tab && Sized(g.tab[PathPos(id, 0)])
    requires !Allocated(g, id) && !v.Sub? && p in g.tab
    ensures StaleAt(Planted(g, id, v), p, PathPos(id, 0))
  {
    var g', leaf, j := Planted(g, id, v), PathPos(id, 0), Digit(id, 0);
    assert Shr(id, 0) == id && Shr(id, 1) == Over(id);
    assert Placed(g, p) && LinksOk(g.tab, p) && BitsOk(g.tab, p) && Counted(g, p, 0);
    assert !g.tab[leaf].bits[j];
    if p == leaf {
      CountUpdate(g.tab[leaf].bits, j, true);
    }
    if p.level > 0 {
      forall i | 0 <= i < IDR_SIZE
        ensures if Child(p, i) == leaf then !g'.tab[p].bits[i] else BitOk(g'.tab, p, i)
        ensures g'.tab[p].ary[i] == Link(g'.tab, Child(p, i))
      {
        assert BitOk(g.tab, p, i);
      }
    }
  }

  /** The tree with bit m of the layer at p set. */
  function BitSet(g: Graph, p: Pos, m: nat): Graph
    requires p in g.tab && Sized(g.tab[p]) && m < IDR_SIZE
  {
    var n := g.tab[p];
    g.(tab := g.tab[p := n.(bits := n.bits[m := true])])
  }

  /** The bit for c set in the layer above. */
  function Marked(g: Graph, c: Pos): Graph
    requires Parent(c) in g.tab && Sized(g.tab[Parent(c)])
  {
    BitSet(g, Parent(c), SlotIn(c))
  }

  /** Bits above the leaves do not decide which ids are taken. */
  lemma BitSetIds(g: Graph, p: Pos, m: nat)
    requires p in g.tab && Sized(g.tab[p]) && m < IDR_SIZE && p.level > 0
    ensures SameIds(g, BitSet(g, p, m))
  {
    assert forall q: nat :: SameLeaf(g, BitSet(g, p, m), Pos(0, q));
    SameLeaves(g, BitSet(g, p, m));
  }

  /** Nor where layers are. */
  lemma BitSetShape(g: Graph, p: Pos, m: nat)
    requires Shaped(g) && p in g.tab && Sized(g.tab[p]) && m < IDR_SIZE && p.level > 0
    ensures Shaped(BitSet(g, p, m))
  {
    var g' := BitSet(g, p, m);
    SameLayers(g.tab, g'.tab);
    forall q | q in g'.tab
      ensures InShape(g', q)
    {
      BitSetNode(g, p, m, q);
    }
    AllInShape(g');
  }

  predicate InShape(g: Graph, p: Pos)
    requires p in g.tab
  {
    Placed(g, p) && LinksOk(g.tab, p)
  }

  lemma AllInShape(g: Graph)
    requires Injective(g.tab) && (g.layers > 0 ==> Pos(g.layers - 1, 0) in g.tab)
    requires forall p {:trigger InShape(g, p)} :: p in g.tab ==> InShape(g, p)
    ensures Shaped(g)
  {
    forall p | p in g.tab
      ensures Placed(g, p) && LinksOk(g.tab, p)
    {
      assert InShape(g, p);
    }
  }

  lemma BitSetNode(g: Graph, p: Pos, m: nat, q: Pos)
    requires Shaped(g) && p in g.tab && Sized(g.tab[p]) && m < IDR_SIZE && p.level > 0 && q in g.tab
    ensures InShape(BitSet(g, p, m), q)
  {
    var g' := BitSet(g, p, m);
    assert Placed(g, q) && LinksOk(g.tab, q);
    forall i | 0 <= i < IDR_SIZE && q.level > 0
      ensures Link(g'.tab, Child(q, i)) == Link(g.tab, Child(q, i))
    {
    }
  }

  /** Setting the bit moves the doubt one level up. */
  lemma MarkedStale(g: Graph, c: Pos)
    requires Stale(g, c) && Full(g.tab[c].bits) && Parent(c) in g.tab && Sized(g.tab[Parent(c)])
    ensures Stale(Marked(g, c), Parent(c))
  {
    SameLayers(g.tab, Marked(g, c).tab);
    MarkedNodes(g, c);
    AllStale(Marked(g, c), Parent(c));
  }

  lemma MarkedNodes(g: Graph, c: Pos)
    requires Stale(g, c) && Full(g.tab[c].bits) && Parent(c) in g.tab && Sized(g.tab[Parent(c)])
    ensures var g', q := Marked(g, c), Parent(c);
      forall p {:trigger StaleAt(g', p, q)} :: p in g'.tab ==> StaleAt(g', p, q)
  {
    var g', q := Marked(g, c), Parent(c);
    forall p | p in g'.tab
      ensures StaleAt(g', p, q)
    {
      MarkedNode(g, c, p);
    }
  }

  lemma MarkedNode(g: Graph, c: Pos, p: Pos)
    requires Stale(g, c) && Full(g.tab[c].bits) && Parent(c) in g.tab && Sized(g.tab[Parent(c)]) && p in g.tab
    ensures StaleAt(Marked(g, c), p, Parent(c))
  {
    var g', q := Marked(g, c), Parent(c);
    ParentChild(c);
    assert BitsOkBut(g.tab, q, c) && !g.tab[q].bits[SlotIn(c)];
    assert Placed(g, p) && LinksOk(g.tab, p) && BitsOkBut(g.tab, p, c) && Counted(g, p, 0);
    if p.level > 0 {
      forall i | 0 <= i < IDR_SIZE
        ensures if Child(p, i) == q then !g'.tab[p].bits[i] else BitOk(g'.tab, p, i)
        ensures g'.tab[p].ary[i] == Link(g'.tab, Child(p, i))
      {
        ChildParent(p, i);
        assert Child(p, i) == c || BitOk(g.tab, p, i);
      }
    }
  }

  /** Below a full bitmap every id is taken, also while a bit above it is in doubt. */
  lemma {:induction false} StaleFull(g: Graph, c: Pos, p: Pos, id: nat)
    requires Stale(g, c) && p in g.tab && p.level <= c.level && Full(g.tab[p].bits) && Shr(id, p.level + 1) == p.prefix
    ensures Allocated(g, id)
    decreases p.level
  {
    assert LinksOk(g.tab, p) && BitsOkBut(g.tab, p, c);
    var i := Digit(id, p.level);
    assert g.tab[p].bits[i];
    if p.level == 0 {
      assert Shr(id, 0) == id;
    } else {
      assert BitOk(g.tab, p, i);
      PathStep(id, p.level - 1);
      StaleFull(g, c, Child(p, i), id);
    }
  }

  lemma StaleDone(g: Graph, c: Pos)
    requires Stale(g, c) && (Parent(c) !in g.tab || !Full(g.tab[c].bits))
    ensures Wf(g)
  {
    forall p | p in g.tab
      ensures BitsOk(g.tab, p) && Counted(g, p, 0)
    {
      assert LinksOk(g.tab, p) && BitsOkBut(g.tab, p, c);
      if p.level > 0 {
        forall i | 0 <= i < IDR_SIZE
          ensures BitOk(g.tab, p, i)
        {
          ChildParent(p, i);
        }
      }
    }
  }

  /** An empty layer hung into an empty slot. */
  function Hung(g: Graph, p: Pos, i: nat, layer: Layer): Graph
    requires p in g.tab && p.level > 0 && i < IDR_SIZE && Sized(g.tab[p])
  {
    var n := g.tab[p];
    g.(tab := g.tab[p := n.(ary := n.ary[i := Sub(layer)], count := n.count + 1)]
                   [Child(p, i) := Node(layer, NoBits(), NoLinks(), 0)])
  }

  ghost predicate Foreign(g: Graph, layer: Layer) {
    forall p <- g.tab :: g.tab[p].obj != layer
  }

  lemma EmptyNode(tab: Table, p: Pos)
    requires p in tab && tab[p].bits == NoBits() && tab[p].ary == NoLinks() && tab[p].count == 0
    requires p.level > 0 ==> forall i :: 0 <= i < IDR_SIZE ==> Child(p, i) !in tab
    ensures LinksOk(tab, p) && BitsOk(tab, p) && Occupied(tab, p) == 0 && !Full(tab[p].bits)
  {
    CountZero(tab[p].bits);
    CountZero(Used(tab[p].ary));
    assert !tab[p].bits[0];
  }

  lemma HungWf(g: Graph, p: Pos, i: nat, layer: Layer)
    requires Wf(g) && p in g.tab && p.level > 0 && i < IDR_SIZE && Sized(g.tab[p])
    requires Child(p, i) !in g.tab && Foreign(g, layer)
    ensures Wf(Hung(g, p, i, layer))
  {
    HungShape(g, p, i, layer);
    HungNodes(g, p, i, layer);
    AllAtRest(Hung(g, p, i, layer));
  }

  lemma HungNodes(g: Graph, p: Pos, i: nat, layer: Layer)
    requires Wf(g) && p in g.tab && p.level > 0 && i < IDR_SIZE && Sized(g.tab[p]) && Child(p, i) !in g.tab
    ensures var g' := Hung(g, p, i, layer); forall q {:trigger AtRest(g', q)} :: q in g'.tab ==> AtRest(g', q)
  {
    var g' := Hung(g, p, i, layer);
    forall q | q in g'.tab
      ensures AtRest(g', q)
    {
      HungAny(g, p, i, layer, q);
    }
  }

  lemma HungAny(g: Graph, p: Pos, i: nat, layer: Layer, q: Pos)
    requires Wf(g) && p in g.tab && p.level > 0 && i < IDR_SIZE && Sized(g.tab[p])
    requires Child(p, i) !in g.tab && q in Hung(g, p, i, layer).tab
    ensures AtRest(Hung(g, p, i, layer), q)
  {
    if q == Child(p, i) {
      HungEmpty(g, p, i, layer);
    } else {
      HungNode(g, p, i, layer, q);
    }
  }

  lemma HungShape(g: Graph, p: Pos, i: nat, layer: Layer)
    requires Shaped(g) && p in g.tab && p.level > 0 && i < IDR_SIZE && Sized(g.tab[p])
    requires Child(p, i) !in g.tab && Foreign(g, layer)
    ensures Injective(Hung(g, p, i, layer).tab)
    ensures g.layers > 0 ==> Pos(g.layers - 1, 0) in Hung(g, p, i, layer).tab
  {
    var n := g.tab[p];
    var tab := g.tab[p := n.(ary := n.ary[i := Sub(layer)], count := n.count + 1)];
    SameLayers(g.tab, tab);
    NewLayer(tab, Child(p, i), Node(layer, NoBits(), NoLinks(), 0));
  }

  lemma HungIds(g: Graph, p: Pos, i: nat, layer: Layer)
    requires p in g.tab && p.level > 0 && i < IDR_SIZE && Sized(g.tab[p]) && Child(p, i) !in g.tab
    ensures SameIds(g, Hung(g, p, i, layer))
  {
    assert forall q: nat :: SameLeaf(g, Hung(g, p, i, layer), Pos(0, q));
    SameLeaves(g, Hung(g, p, i, layer));
  }

  lemma HungEmpty(g: Graph, p: Pos, i: nat, layer: Layer)
    requires Wf(g) && p in g.tab && p.level > 0 && i < IDR_SIZE && Sized(g.tab[p])
    requires Child(p, i) !in g.tab
    ensures var tab, c := Hung(g, p, i, layer).tab, Child(p, i);
      && Placed(Hung(g, p, i, layer), c) && Counted(Hung(g, p, i, layer), c, 0)
      && LinksOk(tab, c) && BitsOk(tab, c)
  {
    var tab, c := Hung(g, p, i, layer).tab, Child(p, i);
    assert Placed(g, p);
    ChildParent(p, i);
    forall k | c.level > 0 && 0 <= k < IDR_SIZE
      ensures Child(c, k) !in tab
    {
      ChildParent(c, k);
      assert Child(c, k) in g.tab ==> Placed(g, Child(c, k));
    }
    EmptyNode(tab, c);
  }

  lemma HungNode(g: Graph, p: Pos, i: nat, layer: Layer, q: Pos)
    requires Wf(g) && p in g.tab && p.level > 0 && i < IDR_SIZE && Sized(g.tab[p])
    requires Child(p, i) !in g.tab && q in g.tab
    ensures LinksOk(Hung(g, p, i, layer).tab, q) && BitsOk(Hung(g, p, i, layer).tab, q)
    ensures Counted(Hung(g, p, i, layer), q, 0) && Placed(Hung(g, p, i, layer), q)
  {
    var g', c := Hung(g, p, i, layer), Child(p, i);
    assert Counted(g, q, 0) && Placed(g, q);
    if q == p {
      assert LinksOk(g.tab, p);
      CountUpdate(Used(g.tab[p].ary), i, true);
      UsedUpdate(g.tab[p].ary, i, Sub(layer));
    }
    assert LinksOk(g.tab, q) && BitsOk(g.tab, q);
    ChildParent(p, i);
    assert !NoBits()[0];
    if q.level > 0 {
      forall k | 0 <= k < IDR_SIZE
        ensures g'.tab[q].ary[k] == Link(g'.tab, Child(q, k)) && BitOk(g'.tab, q, k)
      {
        ChildParent(q, k);
        assert BitOk(g.tab, q, k);
      }
    }
  }

  // ---------- growing and dropping the top ----------

  function Grown(g: Graph, layer: Layer): Graph
    requires g.layers > 0 && Pos(g.layers - 1, 0) in g.tab
  {
    var top := g.tab[Pos(g.layers - 1, 0)];
    var bits := if Full(top.bits) then NoBits()[0 := true] else NoBits();
    Graph(g.layers + 1, g.tab[Pos(g.layers, 0) := Node(layer, bits, NoLinks()[0 := Sub(top.obj)], 1)])
  }

  lemma GrownWf(g: Graph, layer: Layer)
    requires Wf(g) && g.layers > 0 && Foreign(g, layer)
    ensures Wf(Grown(g, layer))
  {
    var g' := Grown(g, layer);
    NewLayer(g.tab, Pos(g.layers, 0), g'.tab[Pos(g.layers, 0)]);
    forall p | p in g'.tab
      ensures AtRest(g', p)
    {
      if p == Pos(g.layers, 0) {
        GrownTop(g, layer);
      } else {
        GrownNode(g, layer, p);
      }
    }
    AllAtRest(g');
  }

  lemma GrownIds(g: Graph, layer: Layer)
    requires g.layers > 0 && Pos(g.layers - 1, 0) in g.tab
    ensures SameIds(g, Grown(g, layer))
  {
    assert forall q: nat :: SameLeaf(g, Grown(g, layer), Pos(0, q));
    SameLeaves(g, Grown(g, layer));
  }

  lemma GrownTop(g: Graph, layer: Layer)
    requires Wf(g) && g.layers > 0
    ensures var g', p := Grown(g, layer), Pos(g.layers, 0);
      LinksOk(g'.tab, p) && BitsOk(g'.tab, p) && Counted(g', p, 0)
  {
    var g', top, p := Grown(g, layer), Pos(g.layers - 1, 0), Pos(g.layers, 0);
    CountZero(Used(NoLinks()));
    CountUpdate(Used(NoLinks()), 0, true);
    UsedUpdate(NoLinks(), 0, Sub(g.tab[top].obj));
    forall i | 0 <= i < IDR_SIZE
      ensures g'.tab[p].ary[i] == Link(g'.tab, Child(p, i)) && BitOk(g'.tab, p, i)
    {
      var c := Child(p, i);
      assert c == Pos(g.layers - 1, i);
      assert c in g.tab ==> Placed(g, c);
    }
  }

  lemma GrownNode(g: Graph, layer: Layer, p: Pos)
    requires Wf(g) && g.layers > 0 && p in g.tab
    ensures var g' := Grown(g, layer);
      p in g'.tab && Placed(g', p) && LinksOk(g'.tab, p) && BitsOk(g'.tab, p) && Counted(g', p, 0)
  {
    var g' := Grown(g, layer);
    assert Placed(g, p) && LinksOk(g.tab, p) && BitsOk(g.tab, p) && Counted(g, p, 0);
    if p.level > 0 {
      forall i | 0 <= i < IDR_SIZE
        ensures g'.tab[p].ary[i] == Link(g'.tab, Child(p, i)) && BitOk(g'.tab, p, i)
      {
        assert BitOk(g.tab, p, i) && Child(p, i).level < g.layers;
      }
    }
  }

  /** The tree without its top layer. */
  function Dropped(g: Graph): Graph
    requires g.layers > 0
  {
    Graph(g.layers - 1, g.tab - {Pos(g.layers - 1, 0)})
  }

  lemma DroppedWf(g: Graph)
    requires Wf(g) && g.layers > 1
    requires var n := g.tab[Pos(g.layers - 1, 0)]; |n.ary| > 0 && n.count == 1 && !n.ary[0].Nil?
    ensures Wf(Dropped(g))
    ensures Pos(g.layers - 2, 0) in g.tab
    ensures g.tab[Pos(g.layers - 1, 0)].ary[0] == Sub(g.tab[Pos(g.layers - 2, 0)].obj)
    ensures g.tab[Pos(g.layers - 1, 0)].ary == NoLinks()[0 := g.tab[Pos(g.layers - 1, 0)].ary[0]]
  {
    var g', top := Dropped(g), Pos(g.layers - 1, 0);
    assert LinksOk(g.tab, top) && Counted(g, top, 0);
    assert Child(top, 0) == Pos(g.layers - 2, 0);
    var used := Used(g.tab[top].ary);
    CountOne(used, 0);
    forall i | 1 <= i < IDR_SIZE
      ensures g.tab[top].ary[i] == Nil
    {
      assert !used[i];
    }
    SameLayers(g.tab, g'.tab);
    forall p | p in g'.tab
      ensures AtRest(g', p)
    {
      DroppedNode(g, p);
    }
    AllAtRest(g');
  }

  lemma DroppedIds(g: Graph)
    requires g.layers > 1
    ensures SameIds(g, Dropped(g))
  {
    assert forall q: nat :: SameLeaf(g, Dropped(g), Pos(0, q));
    SameLeaves(g, Dropped(g));
  }

  /** Only the first slot of the top is in use. */
  predicate OnlyFirst(n: Node) {
    |n.ary| == IDR_SIZE && forall i :: 1 <= i < IDR_SIZE ==> n.ary[i] == Nil
  }

  lemma DroppedNode(g: Graph, p: Pos)
    requires Wf(g) && g.layers > 1 && p in Dropped(g).tab && OnlyFirst(g.tab[Pos(g.layers - 1, 0)])
    ensures AtRest(Dropped(g), p)
  {
    RestAt(g, p);
    DroppedPlace(g, p);
    DroppedSlots(g, p);
  }

  /** The layer below the top that stays is its first child, and becomes the top. */
  lemma DroppedPlace(g: Graph, p: Pos)
    requires Wf(g) && g.layers > 1 && p in Dropped(g).tab && OnlyFirst(g.tab[Pos(g.layers - 1, 0)])
    ensures Placed(Dropped(g), p)
  {
    var top := Pos(g.layers - 1, 0);
    RestAt(g, p);
    ParentChild(p);
    if p.level == g.layers - 2 {
      RestAt(g, top);
      RestAt(g, Parent(p));
      assert g.tab[top].ary[SlotIn(p)] == Link(g.tab, Child(top, SlotIn(p)));
      assert SlotIn(p) == 0 && Times(0) == 0;
    }
  }

  /** Nothing below the top changes. */
  lemma DroppedSlots(g: Graph, p: Pos)
    requires Wf(g) && g.layers > 1 && p in Dropped(g).tab && AtRest(g, p)
    ensures LinksOk(Dropped(g).tab, p) && BitsOk(Dropped(g).tab, p) && Counted(Dropped(g), p, 0)
  {
    if p.level > 0 {
      forall i | 0 <= i < IDR_SIZE
        ensures Dropped(g).tab[p].ary[i] == Link(Dropped(g).tab, Child(p, i)) && BitOk(Dropped(g).tab, p, i)
      {
        assert BitOk(g.tab, p, i) && Child(p, i) != Pos(g.layers - 1, 0);
      }
    }
  }

  // ---------- removal ----------

  predicate OnPath(id: nat, p: Pos) {
    p == PathPos(id, p.level)
  }

  /** The layer at p with the bit for id cleared. */
  function WithoutBit(n: Node, id: nat, l: nat): Node
    requires Sized(n)
  {
    n.(bits := n.bits[Digit(id, l) := false])
  }

  predicate AllSized(g: Graph) {
    forall p <- g.tab :: Sized(g.tab[p])
  }

  /** The tree with the bits for id cleared at levels from..layers. */
  function Cleared(g: Graph, id: nat, from: nat): Graph
    requires AllSized(g)
  {
    g.(tab := map p | p in g.tab ::
      if OnPath(id, p) && p.level >= from then WithoutBit(g.tab[p], id, p.level) else g.tab[p])
  }

  /** The tree after the bits on the path and the pointer of id are gone; only the leaf's count is old. */
  function Emptied(g: Graph, id: nat): Graph
    requires AllSized(g) && PathPos(id, 0) in g.tab
  {
    WithoutPointer(Cleared(g, id, 0), PathPos(id, 0), Digit(id, 0))
  }

  function WithoutPointer(g: Graph, leaf: Pos, i: nat): Graph
    requires leaf in g.tab && i < |g.tab[leaf].ary|
  {
    g.(tab := g.tab[leaf := g.tab[leaf].(ary := g.tab[leaf].ary[i := Nil])])
  }

  /** All is well, except that the count at c is still one too many. */
  ghost predicate Overcounted(g: Graph, c: Pos) {
    && Shaped(g) && c in g.tab
    && (forall p {:trigger BitsOk(g.tab, p)} :: p in g.tab ==> BitsOk(g.tab, p))
    && (forall p {:trigger Counted(g, p, 0)} :: p in g.tab && p != c ==> Counted(g, p, 0))
    && Counted(g, c, 1)
  }

  lemma EmptiedOvercounted(g: Graph, id: nat)
    requires Wf(g) && Allocated(g, id) && AllSized(g) && PathPos(id, 0) in g.tab
    ensures Overcounted(Emptied(g, id), PathPos(id, 0))
  {
    var g', leaf := Emptied(g, id), PathPos(id, 0);
    EmptiedSame(g, id);
    forall p | p in g'.tab
      ensures AtRestBut(g', p, leaf)
    {
      EmptiedBits(g, id, p);
      EmptiedLinks(g, id, p);
    }
    AllAtRestBut(g', leaf);
  }

  /** The rules at one position, if the count at c is one too many. */
  predicate AtRestBut(g: Graph, p: Pos, c: Pos)
    requires p in g.tab
  {
    && Placed(g, p) && LinksOk(g.tab, p) && BitsOk(g.tab, p)
    && if p == c then Counted(g, p, 1) else Counted(g, p, 0)
  }

  lemma AllAtRestBut(g: Graph, c: Pos)
    requires c in g.tab && Injective(g.tab) && (g.layers > 0 ==> Pos(g.layers - 1, 0) in g.tab)
    requires forall p {:trigger AtRestBut(g, p, c)} :: p in g.tab ==> AtRestBut(g, p, c)
    ensures Overcounted(g, c)
  {
    forall p | p in g.tab
      ensures Placed(g, p) && LinksOk(g.tab, p) && BitsOk(g.tab, p) && (p != c ==> Counted(g, p, 0))
    {
      assert AtRestBut(g, p, c);
    }
    assert AtRestBut(g, c, c);
  }

  lemma EmptiedSame(g: Graph, id: nat)
    requires Wf(g) && AllSized(g) && PathPos(id, 0) in g.tab
    ensures Emptied(g, id).tab.Keys == g.tab.Keys && Emptied(g, id).layers == g.layers
    ensures Injective(Emptied(g, id).tab)
    ensures g.layers > 0 ==> Pos(g.layers - 1, 0) in Emptied(g, id).tab
    ensures forall p <- g.tab :: Emptied(g, id).tab[p].obj == g.tab[p].obj
  {
    ClearedShape(g, id, 0);
    SameLayers(g.tab, Emptied(g, id).tab);
  }

  lemma EmptiedLinks(g: Graph, id: nat, p: Pos)
    requires Wf(g) && Allocated(g, id) && AllSized(g) && PathPos(id, 0) in g.tab && p in g.tab
    ensures var g' := Emptied(g, id);
      Placed(g', p) && LinksOk(g'.tab, p) && if p == PathPos(id, 0) then Counted(g', p, 1) else Counted(g', p, 0)
  {
    var g' := Emptied(g, id);
    EmptiedSame(g, id);
    assert Placed(g, p) && LinksOk(g.tab, p) && Counted(g, p, 0);
    if p == PathPos(id, 0) {
      EmptiedLeaf(g.tab[p], g'.tab[p], id);
    } else {
      assert g'.tab[p].ary == g.tab[p].ary && g'.tab[p].count == g.tab[p].count;
    }
  }

  lemma EmptiedLeaf(n: Node, n': Node, id: nat)
    requires Sized(n) && n' == WithoutBit(n, id, 0).(ary := n.ary[Digit(id, 0) := Nil]) && n.bits[Digit(id, 0)]
    ensures CountTrue(n'.bits) + 1 == CountTrue(n.bits)
  {
    CountUpdate(n.bits, Digit(id, 0), false);
  }

  /** Exactly id is gone. */
  lemma EmptiedIds(g: Graph, id: nat, k: nat)
    requires Wf(g) && Allocated(g, id) && AllSized(g) && PathPos(id, 0) in g.tab
    ensures Allocated(Emptied(g, id), k) <==> k != id && Allocated(g, k)
    ensures k != id ==> Stored(Emptied(g, id), k) == Stored(g, k)
  {
    assert Shr(id, 0) == id && Shr(id, 1) == Over(id);
    Recompose(k);
    Recompose(id);
  }

  lemma EmptiedBits(g: Graph, id: nat, p: Pos)
    requires Wf(g) && Allocated(g, id) && AllSized(g) && PathPos(id, 0) in g.tab
    requires p in g.tab
    ensures BitsOk(Emptied(g, id).tab, p)
  {
    if p.level > 0 {
      forall i | 0 <= i < IDR_SIZE
        ensures BitOk(Emptied(g, id).tab, p, i)
      {
        if Child(p, i) == PathPos(id, p.level - 1) {
          EmptiedOnPath(g, id, p, i);
        } else {
          EmptiedOffPath(g, id, p, i);
        }
      }
    }
  }

  /** On the path, the bit is cleared, and the layer below is not full any more. */
  lemma EmptiedOnPath(g: Graph, id: nat, p: Pos, i: nat)
    requires AllSized(g) && PathPos(id, 0) in g.tab
    requires p in g.tab && p.level > 0 && i < IDR_SIZE && Child(p, i) == PathPos(id, p.level - 1)
    ensures BitOk(Emptied(g, id).tab, p, i)
  {
    var g', c := Emptied(g, id), Child(p, i);
    ChildParent(p, i);
    PathStep(id, p.level - 1);
    assert !g'.tab[p].bits[i];
    if c in g'.tab {
      assert !g'.tab[c].bits[Digit(id, c.level)];
    }
  }

  /** Beside the path, nothing changes. */
  lemma EmptiedOffPath(g: Graph, id: nat, p: Pos, i: nat)
    requires Wf(g) && AllSized(g) && PathPos(id, 0) in g.tab
    requires p in g.tab && p.level > 0 && i < IDR_SIZE && Child(p, i) != PathPos(id, p.level - 1)
    ensures BitOk(Emptied(g, id).tab, p, i)
  {
    var g', c := Emptied(g, id), Child(p, i);
    assert BitsOk(g.tab, p) && BitOk(g.tab, p, i);
    PathStep(id, p.level - 1);
    assert g'.tab[p].bits[i] == g.tab[p].bits[i];
    assert c in g.tab ==> g'.tab[c] == g.tab[c];
  }

  /** The tree without the empty layer at c, whose slot above is cleared. */
  function Released(g: Graph, c: Pos): Graph
    requires Parent(c) in g.tab && Sized(g.tab[Parent(c)])
  {
    var n := g.tab[Parent(c)];
    g.(tab := g.tab[Parent(c) := n.(ary := n.ary[SlotIn(c) := Nil])] - {c})
  }

  lemma ReleasedOvercounted(g: Graph, c: Pos)
    requires Overcounted(g, c) && g.tab[c].count == 1 && Parent(c) in g.tab && Sized(g.tab[Parent(c)])
    ensures Overcounted(Released(g, c), Parent(c))
  {
    var g', q := Released(g, c), Parent(c);
    ReleasedShape(g, c);
    forall p | p in g'.tab
      ensures AtRestBut(g', p, q)
    {
      ReleasedNode(g, c, p);
    }
    AllAtRestBut(g', q);
  }

  lemma ReleasedShape(g: Graph, c: Pos)
    requires Shaped(g) && c in g.tab && Parent(c) in g.tab && Sized(g.tab[Parent(c)])
    ensures Parent(c) in Released(g, c).tab && Injective(Released(g, c).tab)
    ensures g.layers > 0 && Pos(g.layers - 1, 0) in Released(g, c).tab
  {
    assert Placed(g, c) && Placed(g, Parent(c));
    SameLayers(g.tab, Released(g, c).tab);
  }

  lemma ReleasedIds(g: Graph, c: Pos)
    requires Overcounted(g, c) && g.tab[c].count == 1 && Parent(c) in g.tab && Sized(g.tab[Parent(c)])
    ensures SameIds(g, Released(g, c))
  {
    EmptyLayer(g, c);
    ParentChild(c);
    assert forall q: nat :: SameLeaf(g, Released(g, c), Pos(0, q));
    SameLeaves(g, Released(g, c));
  }

  lemma ReleasedNode(g: Graph, c: Pos, p: Pos)
    requires Overcounted(g, c) && g.tab[c].count == 1 && Parent(c) in g.tab && Sized(g.tab[Parent(c)])
    requires p in Released(g, c).tab
    ensures AtRestBut(Released(g, c), p, Parent(c))
  {
    EmptyLayer(g, c);
    assert LinksOk(g.tab, p);
    ReleasedPlace(g, c, p);
    ReleasedCount(g, c, p);
    if p.level > 0 {
      forall i | 0 <= i < IDR_SIZE
        ensures Released(g, c).tab[p].ary[i] == Link(Released(g, c).tab, Child(p, i)) && BitOk(Released(g, c).tab, p, i)
      {
        ReleasedSlot(g, c, p, i);
      }
    }
  }

  lemma ReleasedPlace(g: Graph, c: Pos, p: Pos)
    requires Overcounted(g, c) && Parent(c) in g.tab && Sized(g.tab[Parent(c)]) && p in Released(g, c).tab
    requires c.level > 0 ==> forall i :: 0 <= i < IDR_SIZE ==> Child(c, i) !in g.tab
    ensures Placed(Released(g, c), p)
  {
    assert Placed(g, p);
    if p.level < g.layers - 1 && Parent(p) == c {
      // p would hang below the empty layer
      ParentChild(p);
      assert false;
    }
  }

  lemma ReleasedCount(g: Graph, c: Pos, p: Pos)
    requires Overcounted(g, c) && Parent(c) in g.tab && Sized(g.tab[Parent(c)]) && p in Released(g, c).tab
    ensures if p == Parent(c) then Counted(Released(g, c), p, 1) else Counted(Released(g, c), p, 0)
  {
    var q := g.tab[Parent(c)];
    assert Counted(g, p, 0);
    ParentChild(c);
    if p == Parent(c) {
      assert LinksOk(g.tab, p);
      CountUpdate(Used(q.ary), SlotIn(c), false);
      UsedUpdate(q.ary, SlotIn(c), Nil);
    }
  }

  lemma ReleasedSlot(g: Graph, c: Pos, p: Pos, i: nat)
    requires Overcounted(g, c) && g.tab[c].bits == NoBits() && Parent(c) in g.tab && Sized(g.tab[Parent(c)])
    requires p in Released(g, c).tab && p.level > 0 && i < IDR_SIZE && Sized(g.tab[p])
    ensures Released(g, c).tab[p].ary[i] == Link(Released(g, c).tab, Child(p, i)) && BitOk(Released(g, c).tab, p, i)
  {
    assert LinksOk(g.tab, p) && BitsOk(g.tab, p) && BitOk(g.tab, p, i);
    ChildParent(p, i);
    ParentChild(c);
    assert !g.tab[c].bits[0];
  }

  /** A layer whose last occupant is gone is as the slab cache made it, and has nothing below. */
  lemma EmptyLayer(g: Graph, c: Pos)
    requires Overcounted(g, c) && g.tab[c].count == 1
    ensures g.tab[c].bits == NoBits() && g.tab[c].ary == NoLinks()
    ensures c.level > 0 ==> forall i :: 0 <= i < IDR_SIZE ==> Child(c, i) !in g.tab
  {
    var n := g.tab[c];
    assert LinksOk(g.tab, c) && BitsOk(g.tab, c) && Counted(g, c, 1);
    if c.level == 0 {
      CountZero(n.bits);
    } else {
      CountZero(Used(n.ary));
      forall i | 0 <= i < IDR_SIZE
        ensures Child(c, i) !in g.tab && !n.bits[i] && n.ary[i] == Nil
      {
        assert !Used(n.ary)[i] && BitOk(g.tab, c, i);
      }
    }
  }

  // ---------- layers that are missing ----------

  /** How many of the layers on the path of id, from level l to below level n, are not there. */
  function AbsentFrom(tab: Table, id: nat, l: nat, n: nat): (k: nat)
    ensures l <= n ==> k <= n - l
    decreases n - l
  {
    if l >= n then 0 else (if PathPos(id, l) in tab then 0 else 1) + AbsentFrom(tab, id, l + 1, n)
  }

  lemma {:induction false} AbsentSame(tab: Table, tab': Table, id: nat, id': nat, l: nat, n: nat)
    requires forall j: nat :: l <= j < n ==> (PathPos(id, j) in tab <==> PathPos(id', j) in tab')
    ensures AbsentFrom(tab, id, l, n) == AbsentFrom(tab', id', l, n)
    decreases n - l
  {
    if l < n {
      AbsentSame(tab, tab', id, id', l + 1, n);
    }
  }

  lemma {:induction false} AbsentNone(tab: Table, id: nat, l: nat, n: nat)
    requires forall j: nat :: l <= j < n ==> PathPos(id, j) in tab
    ensures AbsentFrom(tab, id, l, n) == 0
    decreases n - l
  {
    if l < n {
      AbsentNone(tab, id, l + 1, n);
    }
  }

  lemma {:induction false} AbsentAll(tab: Table, id: nat, l: nat, n: nat)
    requires l <= n && forall j: nat :: l <= j < n ==> PathPos(id, j) !in tab
    ensures AbsentFrom(tab, id, l, n) == n - l
    decreases n - l
  {
    if l < n {
      AbsentAll(tab, id, l + 1, n);
    }
  }

  lemma {:induction false} AbsentMore(tab: Table, id: nat, l: nat, m: nat, n: nat)
    requires l <= m
    ensures AbsentFrom(tab, id, l, n) >= AbsentFrom(tab, id, m, n)
    decreases m - l
  {
    if l < m {
      AbsentMore(tab, id, l + 1, m, n);
    }
  }

  /** Below a present layer on the way to id, everything is within the tree's range. */
  lemma {:induction false} PathUp(g: Graph, id: nat, l: nat, j: nat)
    requires Shaped(g) && PathPos(id, l) in g.tab && l <= j < g.layers
    ensures PathPos(id, j) in g.tab
    decreases j
  {
    if l < j {
      PathUp(g, id, l, j - 1);
      PathStep(id, j - 1);
      assert Placed(g, PathPos(id, j - 1));
    }
  }

  lemma PathInRange(g: Graph, id: nat, l: nat)
    requires Shaped(g) && PathPos(id, l) in g.tab
    ensures g.layers > 0 && id < Capacity(g.layers)
  {
    assert Placed(g, PathPos(id, l));
    PathUp(g, id, l, g.layers - 1);
    assert Placed(g, PathPos(id, g.layers - 1));
    InCapacity(id, g.layers);
  }

  // ---------- the search for a free id ----------

  /** id has only zero digits below level l. */
  predicate Aligned(id: nat, l: nat) {
    id == Shl(Shr(id, l), l)
  }

  /** id with digit m at level l and zeros below; the source writes ((id >> sh) ^ n ^ m) << sh. */
  function Retarget(id: nat, l: nat, m: nat): nat {
    Shl(Shr(id, l) - Digit(id, l) + m, l)
  }

  lemma RetargetDigits(id: nat, l: nat, m: nat)
    requires m < IDR_SIZE
    ensures Shr(id, l) - Digit(id, l) + m == Times(Shr(id, l + 1)) + m
    ensures var r := Retarget(id, l, m);
      Aligned(r, l) && Shr(r, l) == Times(Shr(id, l + 1)) + m && Digit(r, l) == m && Shr(r, l + 1) == Shr(id, l + 1)
  {
    var x := Shr(id, l);
    Recompose(x);
    ShrShl(Times(Over(x)) + m, l);
    DivMod(Over(x), m);
  }

  lemma {:induction false} SameUpper(id: nat, r: nat, l: nat, j: nat)
    requires l <= j && Shr(id, l) == Shr(r, l)
    ensures Shr(id, j) == Shr(r, j)
  {
    if l < j {
      SameUpper(id, r, l, j - 1);
    }
  }

  lemma AlignedBelow(id: nat, l: nat)
    requires l > 0 && Aligned(id, l)
    ensures Aligned(id, l - 1) && Digit(id, l - 1) == 0
  {
    ShrShl(Times(Shr(id, l)), l - 1);
    DivMod(Shr(id, l), 0);
  }

  /** An id and its carried form are turned to the same slot. */
  lemma RetargetLift(id: nat, e: nat, l: nat, m: nat)
    requires l < e && m < IDR_SIZE
    ensures Retarget(id + Capacity(e), l, m) == Retarget(id, l, m) + Capacity(e)
  {
    ShrLift(id, e, l);
    DigitLift(id, e, l);
    RetargetDigits(id, l, m);
    ShlAdd(Shr(id, l) - Digit(id, l) + m, Capacity(e - l), l);
    CapacityAdd(e - l, l);
  }

  /** The ids under the slots n .. m whose bits are set are all taken. */
  lemma SkippedTaken(g: Graph, p: Pos, n: nat, m: nat, k: nat)
    requires Wf(g) && p in g.tab && n <= m <= IDR_SIZE && Sized(g.tab[p])
    requires forall d :: n <= d < m ==> g.tab[p].bits[d]
    requires Shl(Times(p.prefix) + n, p.level) <= k < Shl(Times(p.prefix) + m, p.level)
    ensures Allocated(g, k)
  {
    var l, q := p.level, p.prefix;
    BelowShl(k, Times(q) + n, l);
    BelowShl(k, Times(q) + m, l);
    var d := Shr(k, l) - Times(q);
    DivMod(q, d);
    assert g.tab[p].bits[d];
    if l > 0 {
      assert BitsOk(g.tab, p) && BitOk(g.tab, p, d);
      FullSubtree(g, Child(p, d), k);
    } else {
      assert Shr(k, 0) == k;
    }
  }

  /** Below a missing layer there is no id. */
  lemma MissingFree(g: Graph, id: nat, l: nat)
    requires Wf(g) && l < g.layers && PathPos(id, l) !in g.tab
    ensures !Allocated(g, id)
  {
    assert Shr(id, 0) == id && Shr(id, 1) == Over(id);
    if PathPos(id, 0) in g.tab {
      PathPresent(g, id, l);
    }
  }

  /** Under a slot whose bit is clear there is a free id. */
  lemma {:induction false} FreeUnder(g: Graph, p: Pos, i: nat) returns (k: nat)
    requires Wf(g) && p in g.tab && Sized(g.tab[p]) && i < IDR_SIZE && !g.tab[p].bits[i]
    ensures Shr(k, p.level) == Times(p.prefix) + i && !Allocated(g, k)
    decreases p.level
  {
    k := Shl(Times(p.prefix) + i, p.level);
    ShrShl(Times(p.prefix) + i, p.level);
    DivMod(p.prefix, i);
    if p.level == 0 {
      assert Shr(k, 0) == k;
    } else {
      assert BitsOk(g.tab, p) && BitOk(g.tab, p, i) && Placed(g, p);
      var c := Child(p, i);
      if c in g.tab {
        assert LinksOk(g.tab, c);
        var d: nat :| d < IDR_SIZE && !g.tab[c].bits[d];
        k := FreeUnder(g, c, d);
        DivMod(c.prefix, d);
      } else {
        MissingFree(g, k, p.level - 1);
      }
    }
  }

  /** An id under a slot whose bit is clear, at the leaf, is free. */
  lemma ClearIsFree(g: Graph, id: nat)
    requires Wf(g) && PathPos(id, 0) in g.tab && Sized(g.tab[PathPos(id, 0)])
    ensures Allocated(g, id) <==> g.tab[PathPos(id, 0)].bits[Digit(id, 0)]
  {
    assert Shr(id, 0) == id && Shr(id, 1) == Over(id);
  }

  // ---------- raising an empty top ----------

  /** A blank layer alone at the top of a tree with the given height. */
  function Alone(layers: nat, layer: Layer): Graph
    requires layers > 0
  {
    Graph(layers, map[Pos(layers - 1, 0) := Node(layer, NoBits(), NoLinks(), 0)])
  }

  lemma AloneWf(layers: nat, layer: Layer)
    requires layers > 0
    ensures Wf(Alone(layers, layer))
    ensures forall id: nat :: !Allocated(Alone(layers, layer), id) && Stored(Alone(layers, layer), id) == Nil
  {
    var g, p := Alone(layers, layer), Pos(layers - 1, 0);
    EmptyNode(g.tab, p);
    forall q | q in g.tab
      ensures Placed(g, q) && LinksOk(g.tab, q) && BitsOk(g.tab, q) && Counted(g, q, 0)
    {
    }
  }

  /** Below an empty top there is nothing. */
  lemma EmptyTop(g: Graph)
    requires Wf(g) && g.layers > 0 && g.tab[Pos(g.layers - 1, 0)].count == 0
    ensures g == Alone(g.layers, g.tab[Pos(g.layers - 1, 0)].obj)
  {
    var top := Pos(g.layers - 1, 0);
    var n := g.tab[top];
    assert LinksOk(g.tab, top) && BitsOk(g.tab, top) && Counted(g, top, 0);
    CountZero(if top.level == 0 then n.bits else Used(n.ary));
    forall i | 0 <= i < IDR_SIZE
      ensures !n.bits[i] && n.ary[i] == Nil
    {
      if top.level > 0 {
        assert !Used(n.ary)[i] && BitOk(g.tab, top, i);
      }
    }
    assert n.bits == NoBits() && n.ary == NoLinks();
    forall p | p in g.tab
      ensures p == top
    {
      assert Placed(g, p);
      if p.level < g.layers - 1 {
        var i := BelowTop(g, p);
      }
    }
    assert g.tab == Alone(g.layers, n.obj).tab;
  }

  /** A layer below the top hangs below one of the top's slots. */
  lemma {:induction false} BelowTop(g: Graph, p: Pos) returns (i: nat)
    requires Wf(g) && p in g.tab && p.level < g.layers - 1
    ensures i < IDR_SIZE && Child(Pos(g.layers - 1, 0), i) in g.tab
    decreases g.layers - p.level
  {
    assert Placed(g, p) && Placed(g, Parent(p));
    ParentChild(p);
    if p.level + 1 < g.layers - 1 {
      i := BelowTop(g, Parent(p));
    } else {
      i := SlotIn(p);
    }
  }

  /** A full layer is not empty. */
  lemma FullNotEmpty(g: Graph, p: Pos)
    requires Wf(g) && p in g.tab && Full(g.tab[p].bits)
    ensures g.tab[p].count != 0
  {
    assert LinksOk(g.tab, p) && BitsOk(g.tab, p) && Counted(g, p, 0);
    var n := g.tab[p];
    CountZero(if p.level == 0 then n.bits else Used(n.ary));
    if p.level > 0 {
      assert BitOk(g.tab, p, 0) && n.bits[0] && Used(n.ary)[0];
    } else {
      assert n.bits[0];
    }
  }

  // ---------- a half-built top ----------

  /** g has the layers of g0 and, above them, a chain of new tops linked through slot 0. */
  ghost predicate Extends(g0: Graph, g: Graph) {
    && 0 < g0.layers <= g.layers
    && (forall p {:trigger p in g0.tab} :: p in g0.tab ==> p in g.tab && g.tab[p] == g0.tab[p] && p.level < g0.layers)
    && (forall p {:trigger p in g.tab} :: p in g.tab ==>
          p in g0.tab || (g0.layers <= p.level < g.layers && p.prefix == 0))
    && (forall j: nat {:trigger Chained(g, j)} :: g0.layers <= j < g.layers ==> Chained(g, j))
  }

  predicate Chained(g: Graph, j: nat) {
    && j > 0 && Pos(j, 0) in g.tab && Pos(j - 1, 0) in g.tab
    && g.tab[Pos(j, 0)].ary == NoLinks()[0 := Sub(g.tab[Pos(j - 1, 0)].obj)]
  }

  lemma ExtendsItself(g: Graph)
    requires Wf(g) && g.layers > 0
    ensures Extends(g, g)
  {
    assert forall p <- g.tab :: Placed(g, p);
  }

  lemma GrownExtends(g0: Graph, g: Graph, layer: Layer)
    requires Extends(g0, g) && Pos(g.layers - 1, 0) in g.tab
    ensures Extends(g0, Grown(g, layer))
  {
    var g' := Grown(g, layer);
    forall j: nat | g0.layers <= j < g'.layers
      ensures Chained(g', j)
    {
      assert j < g.layers ==> Chained(g, j);
    }
  }

  /** Taking the last new top away again. */
  lemma CutExtends(g0: Graph, g: Graph)
    requires Extends(g0, g) && g0.layers < g.layers
    ensures Extends(g0, Dropped(g)) && Chained(g, g.layers - 1)
  {
    var g' := Dropped(g);
    assert Chained(g, g.layers - 1);
    forall j: nat | g0.layers <= j < g'.layers
      ensures Chained(g', j)
    {
      assert Chained(g, j);
    }
  }

  lemma ExtendsNothing(g0: Graph, g: Graph)
    requires Extends(g0, g) && g0.layers == g.layers
    ensures g == g0
  {
    assert g.tab.Keys == g0.tab.Keys;
    assert g.tab == g0.tab;
  }

  // ---------- the walk of a removal ----------

  lemma ClearedAll(g: Graph, id: nat)
    requires AllSized(g) && (forall p <- g.tab :: p.level < g.layers)
    ensures Cleared(g, id, g.layers) == g
  {
    assert Cleared(g, id, g.layers).tab == g.tab;
  }

  /** One level further down, one bit more is cleared. */
  lemma ClearedStep(g: Graph, id: nat, l: nat)
    requires AllSized(g) && PathPos(id, l) in g.tab
    ensures var c, p := Cleared(g, id, l + 1), PathPos(id, l);
      c.tab[p] == g.tab[p] && Cleared(g, id, l) == c.(tab := c.tab[p := WithoutBit(c.tab[p], id, l)])
  {
    var c, p := Cleared(g, id, l + 1), PathPos(id, l);
    assert Cleared(g, id, l).tab == c.tab[p := WithoutBit(c.tab[p], id, l)];
  }

  lemma ClearedShape(g: Graph, id: nat, l: nat)
    requires AllSized(g) && Injective(g.tab)
    ensures Cleared(g, id, l).tab.Keys == g.tab.Keys && Injective(Cleared(g, id, l).tab)
    ensures forall p <- g.tab :: Cleared(g, id, l).tab[p].obj == g.tab[p].obj
                                 && Cleared(g, id, l).tab[p].ary == g.tab[p].ary
  {
    SameLayers(g.tab, Cleared(g, id, l).tab);
  }

  /** The bits on the way to an id that is not taken are clear already. */
  lemma ClearedFree(g: Graph, id: nat, l: nat)
    requires Wf(g) && AllSized(g) && !Allocated(g, id) && l > 0
    ensures Cleared(g, id, l) == g
  {
    forall p | p in g.tab && OnPath(id, p) && p.level >= l
      ensures WithoutBit(g.tab[p], id, p.level) == g.tab[p]
    {
      var i := Digit(id, p.level);
      assert BitsOk(g.tab, p) && BitOk(g.tab, p, i);
      PathStep(id, p.level - 1);
      if g.tab[p].bits[i] {
        FullSubtree(g, Child(p, i), id);
      }
      assert g.tab[p].bits[i := false] == g.tab[p].bits;
    }
    assert Cleared(g, id, l).tab == g.tab;
  }

  /** The count is put right. */
  function Recounted(g: Graph, c: Pos): Graph
    requires c in g.tab
  {
    g.(tab := g.tab[c := g.tab[c].(count := g.tab[c].count - 1)])
  }

  lemma RecountedWf(g: Graph, c: Pos)
    requires Overcounted(g, c)
    ensures Wf(Recounted(g, c))
  {
    SameLayers(g.tab, Recounted(g, c).tab);
    RecountedNodes(g, c);
    AllAtRest(Recounted(g, c));
  }

  lemma RecountedNodes(g: Graph, c: Pos)
    requires Overcounted(g, c)
    ensures var g' := Recounted(g, c);
      forall p {:trigger AtRest(g', p)} :: p in g'.tab ==> AtRest(g', p)
  {
    var g' := Recounted(g, c);
    forall p | p in g'.tab
      ensures AtRest(g', p)
    {
      RecountedNode(g, c, p);
    }
  }

  lemma RecountedNode(g: Graph, c: Pos, p: Pos)
    requires Overcounted(g, c) && p in g.tab
    ensures AtRest(Recounted(g, c), p)
  {
    var g' := Recounted(g, c);
    assert Placed(g, p) && LinksOk(g.tab, p) && BitsOk(g.tab, p) && (p != c ==> Counted(g, p, 0));
    if p.level > 0 {
      forall i | 0 <= i < IDR_SIZE
        ensures g'.tab[p].ary[i] == Link(g'.tab, Child(p, i)) && BitOk(g'.tab, p, i)
      {
        assert BitOk(g.tab, p, i);
      }
    }
  }

  lemma RecountedIds(g: Graph, c: Pos)
    requires c in g.tab
    ensures SameIds(g, Recounted(g, c))
  {
    assert forall q: nat :: SameLeaf(g, Recounted(g, c), Pos(0, q));
    SameLeaves(g, Recounted(g, c));
  }

  /** When the top loses its last occupant, nothing is left. */
  lemma LastLayer(g: Graph)
    requires g.layers > 0 && Overcounted(g, Pos(g.layers - 1, 0)) && g.tab[Pos(g.layers - 1, 0)].count == 1
    ensures Wf(Graph(0, map[])) && SameIds(g, Graph(0, map[])) && g.tab.Keys == {Pos(g.layers - 1, 0)}
    ensures g.tab[Pos(g.layers - 1, 0)].bits == NoBits() && g.tab[Pos(g.layers - 1, 0)].ary == NoLinks()
  {
    var top := Pos(g.layers - 1, 0);
    EmptyLayer(g, top);
    RecountedWf(g, top);
    EmptyTop(Recounted(g, top));
    var alone := Alone(g.layers, g.tab[top].obj);
    AloneWf(g.layers, g.tab[top].obj);
    RecountedIds(g, top);
    assert alone == Recounted(g, top);
    assert g.tab.Keys == alone.tab.Keys;
    var none := Graph(0, map[]);
    forall k: nat
      ensures (Allocated(none, k) <==> Allocated(g, k)) && Stored(none, k) == Stored(g, k)
    {
      assert (Allocated(alone, k) <==> Allocated(g, k)) && Stored(alone, k) == Stored(g, k);
    }
  }

  // ---------- trees without idle layers ----------

  /** Some id of m lies below position p. */
  ghost predicate Inhabited(m: map<nat, Entry>, p: Pos) {
    exists id: nat :: id in m && PathPos(id, p.level) == p
  }

  /** No layer is empty. */
  ghost predicate Thick(g: Graph) {
    forall p {:trigger g.tab[p]} :: p in g.tab ==> g.tab[p].count != 0
  }

  lemma EmptiedThick(g: Graph, id: nat)
    requires AllSized(g) && PathPos(id, 0) in g.tab
    ensures Thick(g) ==> Thick(Emptied(g, id))
  {
    forall p | p in Emptied(g, id).tab
      ensures p in g.tab && Emptied(g, id).tab[p].count == g.tab[p].count
    {
    }
  }

  /** A layer with an id below it is not empty. */
  lemma InhabitedCount(g: Graph, m: map<nat, Entry>, p: Pos)
    requires Wf(g) && Denotes(g, m) && p in g.tab && Inhabited(m, p)
    ensures g.tab[p].count != 0
  {
    var id: nat :| id in m && PathPos(id, p.level) == p;
    assert Allocated(g, id);
    assert Shr(id, 0) == id && Shr(id, 1) == Over(id);
    assert LinksOk(g.tab, p) && Counted(g, p, 0) && Placed(g, p);
    var n := g.tab[p];
    CountZero(if p.level == 0 then n.bits else Used(n.ary));
    if p.level == 0 {
      assert n.bits[Rest(id)];
    } else {
      PathPresent(g, id, p.level - 1);
      PathStep(id, p.level - 1);
      assert Used(n.ary)[Digit(id, p.level)];
    }
  }

  /** Below a layer of a tree without empty layers there is an id. */
  lemma {:induction false} ThickInhabited(g: Graph, m: map<nat, Entry>, p: Pos)
    requires Wf(g) && Denotes(g, m) && p in g.tab && Thick(g)
    ensures Inhabited(m, p)
    decreases p.level
  {
    assert LinksOk(g.tab, p) && Counted(g, p, 0);
    var n := g.tab[p];
    CountZero(if p.level == 0 then n.bits else Used(n.ary));
    if p.level == 0 {
      var i: nat :| i < IDR_SIZE && n.bits[i];
      var id := Times(p.prefix) + i;
      DivMod(p.prefix, i);
      assert Shr(id, 0) == id && Shr(id, 1) == Over(id);
      assert Allocated(g, id) && PathPos(id, 0) == p;
    } else {
      var i: nat :| i < IDR_SIZE && Used(n.ary)[i];
      ThickInhabited(g, m, Child(p, i));
      ChildParent(p, i);
      var id: nat :| id in m && PathPos(id, p.level - 1) == Child(p, i);
      PathStep(id, p.level - 1);
    }
  }

  /** Growth and a new id leave no layer without an id. */
  lemma ChainInhabited(m: map<nat, Entry>, l: nat, p: Pos)
    requires Inhabited(m, Pos(l, 0)) && p.prefix == 0 && l <= p.level
    ensures Inhabited(m, p)
  {
    var id: nat :| id in m && PathPos(id, l) == Pos(l, 0);
    ShrZero(l + 1);
    ShrZero(p.level + 1);
    SameUpper(id, 0, l + 1, p.level + 1);
    assert PathPos(id, p.level) == p;
  }

  /** In a tree without empty layers the top has only its first child exactly if all ids fit one layer less. */
  lemma TopOnlyFirst(g: Graph, m: map<nat, Entry>)
    requires Wf(g) && Denotes(g, m) && Thick(g) && g.layers > 1
    ensures var n := g.tab[Pos(g.layers - 1, 0)];
      |n.ary| == IDR_SIZE && (n.count == 1 && n.ary[0] != Nil <==> forall id <- m :: id < Capacity(g.layers - 1))
  {
    var top := Pos(g.layers - 1, 0);
    var n := g.tab[top];
    assert LinksOk(g.tab, top) && Counted(g, top, 0);
    if n.count == 1 && n.ary[0] != Nil {
      forall id | id in m
        ensures id < Capacity(g.layers - 1)
      {
        BelowFirst(g, m, id);
      }
    }
    if forall id <- m :: id < Capacity(g.layers - 1) {
      FirstChildOnly(g, m);
    }
  }

  lemma BelowFirst(g: Graph, m: map<nat, Entry>, id: nat)
    requires Wf(g) && Denotes(g, m) && g.layers > 1 && id in m
    requires var n := g.tab[Pos(g.layers - 1, 0)]; |n.ary| == IDR_SIZE && n.count == 1 && n.ary[0] != Nil
    ensures id < Capacity(g.layers - 1)
  {
    var top, l := Pos(g.layers - 1, 0), g.layers - 2;
    assert LinksOk(g.tab, top) && Counted(g, top, 0);
    CountOne(Used(g.tab[top].ary), 0);
    assert Allocated(g, id) && Shr(id, 0) == id && Shr(id, 1) == Over(id);
    PathPresent(g, id, l);
    PathPresent(g, id, l + 1);
    assert Placed(g, PathPos(id, l + 1));
    PathStep(id, l);
    assert Used(g.tab[top].ary)[Digit(id, l + 1)];
    Recompose(Shr(id, l + 1));
    InCapacity(id, l + 1);
  }

  lemma FirstChildOnly(g: Graph, m: map<nat, Entry>)
    requires Wf(g) && Denotes(g, m) && Thick(g) && g.layers > 1 && forall id <- m :: id < Capacity(g.layers - 1)
    ensures var n := g.tab[Pos(g.layers - 1, 0)]; |n.ary| == IDR_SIZE && n.count == 1 && n.ary[0] != Nil
  {
    var top := Pos(g.layers - 1, 0);
    var n := g.tab[top];
    assert LinksOk(g.tab, top) && Counted(g, top, 0);
    forall i | 1 <= i < IDR_SIZE
      ensures n.ary[i] == Nil
    {
      if Child(top, i) in g.tab {
        ThickInhabited(g, m, Child(top, i));
        var id: nat :| id in m && PathPos(id, top.level - 1) == Child(top, i);
        InCapacity(id, g.layers - 1);
      }
    }
    var used := Used(n.ary);
    CountZero(used);
    CountUpdate(used, 0, false);
    CountZero(used[0 := false]);
  }
}
