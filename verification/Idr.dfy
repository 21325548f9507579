/**
  datastruct/idr.c: the id allocator on linked layers.

  Layers live in `mem`, a map from addresses to records, so that links, the free list that runs
  through ary[0] and every in-place update are as in the source.  Of the ghost fields, `tree` is
  the tree the layers represent, `spare` lists the free list, and `entries` is the map from ids
  to pointers that the tree stands for.
 */
module Idr {
  import opened IdrDigits
  import opened IdrTable

  type Memory = map<Layer, Record>

  /** MAX_ID_BIT; masking an id by MAX_ID_MASK is taking the remainder. */
  type IdLimit = n: nat | 0 < n witness 1

  /** The memory holds the layer of node n. */
  predicate Backed(mem: Memory, n: Node) {
    n.obj != NULL && n.obj in mem && mem[n.obj] == Record(n.bits, n.ary, n.count)
  }

  /** The memory holds the whole tree. */
  ghost predicate Backs(mem: Memory, g: Graph) {
    forall p {:trigger Backed(mem, g.tab[p])} :: p in g.tab ==> Backed(mem, g.tab[p])
  }

  /** The spare layers are linked through slot 0 and otherwise blank. */
  ghost predicate FreeList(mem: Memory, head: Layer, spare: seq<Layer>) {
    && head == (if spare == [] then NULL else spare[0])
    && (forall i, j :: 0 <= i < j < |spare| ==> spare[i] != spare[j])
    && (forall i: nat {:trigger SpareOk(mem, spare, i)} :: i < |spare| ==> SpareOk(mem, spare, i))
  }

  ghost predicate SpareOk(mem: Memory, spare: seq<Layer>, i: nat)
    requires i < |spare|
  {
    && spare[i] != NULL && spare[i] in mem
    && mem[spare[i]] == Record(NoBits(), NoLinks()[0 := if i + 1 < |spare| then Sub(spare[i + 1]) else Nil], 0)
  }

  /** No layer is both in the tree and spare. */
  ghost predicate Apart(g: Graph, spare: seq<Layer>) {
    forall p {:trigger g.tab[p]} :: p in g.tab ==> g.tab[p].obj !in spare
  }

  /** The free list does not care about writes to other layers. */
  lemma FreeFrame(mem: Memory, mem': Memory, head: Layer, spare: seq<Layer>)
    requires FreeList(mem, head, spare)
    requires forall l <- spare :: l in mem ==> l in mem' && mem'[l] == mem[l]
    ensures FreeList(mem', head, spare)
  {
    forall i: nat | i < |spare|
      ensures SpareOk(mem', spare, i)
    {
      assert SpareOk(mem, spare, i);
    }
  }

  /** Nor does the tree. */
  lemma TreeFrame(mem: Memory, mem': Memory, g: Graph, l: Layer)
    requires Backs(mem, g) && Foreign(g, l)
    requires forall k <- mem :: k != l ==> k in mem' && mem'[k] == mem[k]
    ensures Backs(mem', g)
  {
    forall p | p in g.tab
      ensures Backed(mem', g.tab[p])
    {
      assert Backed(mem, g.tab[p]);
    }
  }

  /** A write to the layer of one node is a change of that node. */
  lemma WriteNode(mem: Memory, g: Graph, pos: Pos, n: Node)
    requires Injective(g.tab) && Backs(mem, g) && pos in g.tab && n.obj == g.tab[pos].obj
    ensures Backs(mem[n.obj := Record(n.bits, n.ary, n.count)], g.(tab := g.tab[pos := n]))
  {
    var mem', g' := mem[n.obj := Record(n.bits, n.ary, n.count)], g.(tab := g.tab[pos := n]);
    assert Backed(mem, g.tab[pos]);
    forall p | p in g'.tab
      ensures Backed(mem', g'.tab[p])
    {
      assert Backed(mem, g.tab[p]);
      assert Separate(g.tab, p, pos);
    }
  }

  /** A node whose layer is in memory joins the tree. */
  lemma AddNode(mem: Memory, g: Graph, layers: nat, pos: Pos, n: Node)
    requires Backs(mem, g) && Backed(mem, n)
    ensures Backs(mem, Graph(layers, g.tab[pos := n]))
  {
    var g' := Graph(layers, g.tab[pos := n]);
    forall p | p in g'.tab
      ensures Backed(mem, g'.tab[p])
    {
      assert p != pos ==> Backed(mem, g.tab[p]);
    }
  }

  /** A node leaves the tree. */
  lemma DropNode(mem: Memory, g: Graph, layers: nat, pos: Pos)
    requires Backs(mem, g)
    ensures Backs(mem, Graph(layers, g.tab - {pos}))
  {
    var g' := Graph(layers, g.tab - {pos});
    forall p | p in g'.tab
      ensures Backed(mem, g'.tab[p])
    {
      assert Backed(mem, g.tab[p]);
    }
  }

  /** pa holds, at level j, the layer on the way to id. */
  predicate Passes(pa: seq<Layer>, g: Graph, id: nat, j: nat) {
    j < |pa| && PathPos(id, j) in g.tab && pa[j] == g.tab[PathPos(id, j)].obj
  }

  /** pa holds the layers above level l on the way to id, and NULL above the top. */
  ghost predicate PathIn(pa: seq<Layer>, g: Graph, id: nat, l: nat) {
    && g.layers < |pa| && pa[g.layers] == NULL
    && forall j: nat {:trigger Passes(pa, g, id, j)} :: l < j < g.layers ==> Passes(pa, g, id, j)
  }

  lemma PlantedPath(pa: seq<Layer>, g: Graph, id: nat, v: Entry)
    requires PathPos(id, 0) in g.tab && Sized(g.tab[PathPos(id, 0)]) && PathIn(pa, g, id, 0)
    ensures PathIn(pa, Planted(g, id, v), id, 0)
  {
    var g' := Planted(g, id, v);
    forall j: nat | 0 < j < g'.layers
      ensures Passes(pa, g', id, j)
    {
      assert Passes(pa, g, id, j);
    }
  }

  lemma BitSetPath(pa: seq<Layer>, g: Graph, id: nat, l: nat, m: nat)
    requires PathPos(id, l + 1) in g.tab && Sized(g.tab[PathPos(id, l + 1)]) && PathIn(pa, g, id, l) && m < IDR_SIZE
    ensures PathIn(pa, BitSet(g, PathPos(id, l + 1), m), id, l + 1)
  {
    var g' := BitSet(g, PathPos(id, l + 1), m);
    forall j: nat | l + 1 < j < g'.layers
      ensures Passes(pa, g', id, j)
    {
      assert Passes(pa, g, id, j);
    }
  }

  lemma PlantedDenotes(g: Graph, id: nat, v: Entry, m: map<nat, Entry>)
    requires PathPos(id, 0) in g.tab && Sized(g.tab[PathPos(id, 0)]) && Denotes(g, m)
    ensures Denotes(Planted(g, id, v), m[id := v])
  {
    forall k: nat
      ensures Allocated(Planted(g, id, v), k) <==> k == id || Allocated(g, k)
      ensures Stored(Planted(g, id, v), k) == if k == id then v else Stored(g, k)
    {
      PlantedIds(g, id, v, k);
    }
  }

  function TopOf(g: Graph): Layer {
    if g.layers > 0 && Pos(g.layers - 1, 0) in g.tab then g.tab[Pos(g.layers - 1, 0)].obj else NULL
  }

  /** Hanging a blank layer into the tree. */
  lemma HangBacks(mem: Memory, g: Graph, pos: Pos, m: nat, layer: Layer)
    requires Shaped(g) && Backs(mem, g) && pos in g.tab && Sized(g.tab[pos])
    requires pos.level > 0 && m < IDR_SIZE && Child(pos, m) !in g.tab
    requires layer != NULL && layer in mem && mem[layer] == Blank() && Foreign(g, layer)
    ensures var n := g.tab[pos];
      Backs(mem[n.obj := Record(n.bits, n.ary[m := Sub(layer)], n.count + 1)], Hung(g, pos, m, layer))
    ensures TopOf(Hung(g, pos, m, layer)) == TopOf(g)
  {
    var n := g.tab[pos].(ary := g.tab[pos].ary[m := Sub(layer)], count := g.tab[pos].count + 1);
    WriteNode(mem, g, pos, n);
    var mem' := mem[n.obj := Record(n.bits, n.ary, n.count)];
    AddNode(mem', g.(tab := g.tab[pos := n]), g.layers, Child(pos, m), Node(layer, NoBits(), NoLinks(), 0));
    if g.layers > 0 {
      assert Pos(g.layers - 1, 0) in g.tab;
    }
  }

  /** What is left after the top is cut off. */
  lemma CutBacks(mem: Memory, g: Graph, spare: seq<Layer>)
    requires Backs(mem, g) && Injective(g.tab) && Apart(g, spare) && g.layers > 0 && Pos(g.layers - 1, 0) in g.tab
    ensures Backs(mem, Dropped(g)) && Injective(Dropped(g).tab) && Foreign(Dropped(g), TopOf(g))
    ensures Apart(Dropped(g), [TopOf(g)] + spare) && TopOf(g) !in spare && Backed(mem, g.tab[Pos(g.layers - 1, 0)])
    ensures |Dropped(g).tab| + 1 == |g.tab|
  {
    var q := Pos(g.layers - 1, 0);
    DropNode(mem, g, g.layers - 1, q);
    SameLayers(g.tab, Dropped(g).tab);
    assert Backed(mem, g.tab[q]);
    assert g.tab.Keys == Dropped(g).tab.Keys + {q};
    forall p | p in Dropped(g).tab
      ensures Dropped(g).tab[p].obj !in [TopOf(g)] + spare && Dropped(g).tab[p].obj != TopOf(g)
    {
      assert g.tab[p].obj !in spare && Separate(g.tab, p, q);
    }
  }

  /** The link of a new top leads to the one it was put on. */
  lemma CutLink(mem: Memory, g0: Graph, g: Graph)
    requires Extends(g0, g) && g0.layers < g.layers && Backs(mem, g) && Pos(g.layers - 1, 0) in g.tab
    ensures var n := TopOf(g); n in mem && mem[n].ary == NoLinks()[0 := Sub(TopOf(Dropped(g)))]
  {
    assert Chained(g, g.layers - 1) && Backed(mem, g.tab[Pos(g.layers - 1, 0)]);
  }

  /** Climbing down the chain ends at the old top. */
  lemma ChainStart(mem: Memory, g0: Graph, g: Graph)
    requires Extends(g0, g) && Backs(mem, g) && Injective(g.tab) && Pos(g0.layers - 1, 0) in g0.tab
    requires TopOf(g) == NULL || TopOf(g) == TopOf(g0)
    ensures g.layers == g0.layers
  {
    assert Pos(g0.layers - 1, 0) in g.tab;
    assert g0.layers < g.layers && Pos(g.layers - 1, 0) in g.tab ==>
      Separate(g.tab, Pos(g0.layers - 1, 0), Pos(g.layers - 1, 0));
    assert g0.layers < g.layers ==> Chained(g, g.layers - 1);
    assert g0.layers < g.layers ==> Backed(mem, g.tab[Pos(g.layers - 1, 0)]);
  }

  /** The tree has a top that is not empty. */
  predicate Stocked(g: Graph) {
    g.layers > 0 && Pos(g.layers - 1, 0) in g.tab && g.tab[Pos(g.layers - 1, 0)].count != 0
  }

  /** A blank layer alone holds no id at any height. */
  lemma AloneSame(g: Graph, a: nat, b: nat, p: Layer)
    requires 0 < a && 0 < b && SameIds(g, Alone(a, p))
    ensures SameIds(g, Alone(b, p))
  {
    AloneWf(a, p);
    AloneWf(b, p);
    forall k: nat
      ensures (Allocated(Alone(b, p), k) <==> Allocated(g, k)) && Stored(Alone(b, p), k) == Stored(g, k)
    {
      assert (Allocated(Alone(a, p), k) <==> Allocated(g, k)) && Stored(Alone(a, p), k) == Stored(g, k);
    }
  }

  lemma AloneShell(mem: Memory, a: nat, b: nat, p: Layer, spare: seq<Layer>)
    requires 0 < a && 0 < b && Backs(mem, Alone(a, p)) && Apart(Alone(a, p), spare)
    ensures Backs(mem, Alone(b, p)) && Apart(Alone(b, p), spare)
    ensures |Alone(a, p).tab| == |Alone(b, p).tab| == 1 && TopOf(Alone(b, p)) == p && !Stocked(Alone(b, p))
  {
    assert Backed(mem, Alone(a, p).tab[Pos(a - 1, 0)]);
    assert Alone(a, p).tab[Pos(a - 1, 0)].obj !in spare;
  }

  lemma SameIdsTrans(g1: Graph, g2: Graph, g3: Graph)
    requires SameIds(g1, g2) && SameIds(g2, g3)
    ensures SameIds(g1, g3)
  {
    forall k: nat
      ensures (Allocated(g3, k) <==> Allocated(g1, k)) && Stored(g3, k) == Stored(g1, k)
    {
      assert (Allocated(g2, k) <==> Allocated(g1, k)) && Stored(g2, k) == Stored(g1, k);
    }
  }

  lemma Settled(g: Graph, g': Graph, m: map<nat, Entry>)
    requires Denotes(g, m) && SameIds(g, g')
    ensures Denotes(g', m)
  {
  }

  /** A layer is unlinked and its memory put to other use. */
  lemma ReleaseBacks(mem: Memory, mem': Memory, g: Graph, c: Pos)
    requires Shaped(g) && Backs(mem, g) && c in g.tab && Parent(c) in g.tab && Sized(g.tab[Parent(c)])
    requires mem'.Keys == mem.Keys && forall k <- mem :: k != g.tab[c].obj ==> mem'[k] == mem[k]
    ensures var q := g.tab[Parent(c)];
      && q.obj in mem' && q.obj != g.tab[c].obj && mem'[q.obj] == Record(q.bits, q.ary, q.count)
      && Backs(mem'[q.obj := Record(q.bits, q.ary[SlotIn(c) := Nil], q.count)], Released(g, c))
  {
    var p, q := g.tab[c].obj, g.tab[Parent(c)];
    var g1 := Graph(g.layers, g.tab - {c});
    DropNode(mem, g, g.layers, c);
    SameLayers(g.tab, g1.tab);
    forall r | r in g1.tab
      ensures g1.tab[r].obj != p
    {
      assert Separate(g.tab, r, c);
    }
    TreeFrame(mem, mem', g1, p);
    assert Backed(mem, g.tab[Parent(c)]);
    WriteNode(mem', g1, Parent(c), q.(ary := q.ary[SlotIn(c) := Nil]));
    assert g1.tab[Parent(c) := q.(ary := q.ary[SlotIn(c) := Nil])] == Released(g, c).tab;
  }

  lemma ReleaseApart(g: Graph, c: Pos, spare: seq<Layer>)
    requires Injective(g.tab) && Apart(g, spare) && c in g.tab && Parent(c) in g.tab && Sized(g.tab[Parent(c)])
    ensures Apart(Released(g, c), [g.tab[c].obj] + spare) && |Released(g, c).tab| + 1 == |g.tab|
    ensures Parent(c) != c && g.tab[Parent(c)].obj !in [g.tab[c].obj] + spare
  {
    assert Parent(c).level != c.level && Separate(g.tab, Parent(c), c);
    assert g.tab.Keys == Released(g, c).tab.Keys + {c};
    forall r | r in Released(g, c).tab
      ensures Released(g, c).tab[r].obj !in [g.tab[c].obj] + spare
    {
      assert g.tab[r].obj !in spare && Separate(g.tab, r, c);
    }
  }

  lemma ReleaseTopOf(g: Graph, c: Pos)
    requires Shaped(g) && c in g.tab && Parent(c) in g.tab && Sized(g.tab[Parent(c)])
    ensures TopOf(Released(g, c)) == TopOf(g)
  {
    ReleasedShape(g, c);
  }

  /** Clearing the leaf completes the removal of the pointer. */
  lemma EmptiedBacks(mem: Memory, g: Graph, e: nat)
    requires AllSized(g) && Injective(g.tab) && PathPos(e, 0) in g.tab && Backs(mem, Cleared(g, e, 1))
    ensures var p, n := g.tab[PathPos(e, 0)].obj, Digit(e, 0);
      && p in mem && |mem[p].bitmap| == |mem[p].ary| == IDR_SIZE
      && Backs(mem[p := Record(mem[p].bitmap[n := false], mem[p].ary[n := Nil], mem[p].count)], Emptied(g, e))
  {
    var q, c, n := PathPos(e, 0), Cleared(g, e, 1), Digit(e, 0);
    ClearedShape(g, e, 1);
    ClearedStep(g, e, 0);
    assert Backed(mem, c.tab[q]);
    var node := WithoutBit(c.tab[q], e, 0).(ary := c.tab[q].ary[n := Nil]);
    WriteNode(mem, c, q, node);
    assert Emptied(g, e) == c.(tab := c.tab[q := node]);
  }

  /** A removal takes exactly one id out of the map. */
  lemma EmptiedDenotes(g: Graph, id: nat, m: map<nat, Entry>)
    requires Wf(g) && Allocated(g, id) && AllSized(g) && PathPos(id, 0) in g.tab && Denotes(g, m)
    ensures Denotes(Emptied(g, id), m - {id})
  {
    forall k: nat
      ensures Allocated(Emptied(g, id), k) <==> k != id && Allocated(g, k)
      ensures k != id ==> Stored(Emptied(g, id), k) == Stored(g, k)
    {
      EmptiedIds(g, id, k);
    }
  }

  /** The layers on id's way down, level by level, as far as they exist. */
  ghost predicate WayDown(pa: seq<Layer>, g: Graph, id: nat, l: nat) {
    |pa| == g.layers && forall j: nat {:trigger Passes(pa, g, id, j)} :: l <= j < g.layers ==> Passes(pa, g, id, j)
  }

  /** What idr_remove needs to know to drop the top. */
  lemma DropFacts(mem: Memory, g: Graph, spare: seq<Layer>, m: map<nat, Entry>)
    requires Wf(g) && g.layers > 1 && Backs(mem, g) && Apart(g, spare) && Denotes(g, m)
    requires var n := g.tab[Pos(g.layers - 1, 0)]; |n.ary| > 0 && n.count == 1 && !n.ary[0].Nil?
    ensures Wf(Dropped(g)) && Denotes(Dropped(g), m) && Backs(mem, Dropped(g)) && Foreign(Dropped(g), TopOf(g))
    ensures Apart(Dropped(g), [TopOf(g)] + spare) && |Dropped(g).tab| + 1 == |g.tab|
    ensures TopOf(g) !in spare && TopOf(g) != NULL && TopOf(g) in mem
    ensures |mem[TopOf(g)].ary| == IDR_SIZE && mem[TopOf(g)].ary[0 := Nil] == NoLinks()
    ensures mem[TopOf(g)].ary[0] == Sub(TopOf(Dropped(g)))
  {
    DroppedWf(g);
    DroppedIds(g);
    Settled(g, Dropped(g), m);
    CutBacks(mem, g, spare);
    assert LinksOk(g.tab, Pos(g.layers - 1, 0));
  }

  /** The new layers that a tree of h layers needs on top of g: none as long as nothing is stored in it. */
  function Tops(g: Graph, h: nat): nat {
    if g.layers == 0 then 1 else if Stocked(g) && h > g.layers then h - g.layers else 0
  }

  /** The height of g after it has grown as far as id needs. */
  function HeightOf(g: Graph, id: nat): (h: nat)
    ensures h > 0 && h >= g.layers
  {
    HeightFor(id, if g.layers == 0 then 1 else g.layers)
  }

  /** How many layers an allocation of id takes: new tops, and what is missing on the path of id below the top. */
  function Missing(g: Graph, id: nat): nat {
    var h := HeightOf(g, id);
    Tops(g, h) + if h < MAX_LEVEL then AbsentFrom(g.tab, id, 0, h - 1) else 0
  }

  /** A position of the grown tree is an old one, or in the chain from slot 0 of the new top. */
  predicate OldOrTop(g0: Graph, g: Graph, q: Pos) {
    q in g0.tab || (q.prefix == 0 && g0.layers <= q.level < g.layers && (q.level == g.layers - 1 || Stocked(g0)))
  }

  /** g is g0 grown to the height that id needs. */
  ghost predicate GrownFor(g0: Graph, g: Graph, id: nat) {
    && g.layers == HeightOf(g0, id) && (g.layers == g0.layers ==> g == g0)
    && (forall q {:trigger q in g.tab} :: q in g.tab ==> OldOrTop(g0, g, q))
  }

  /** What growth means for the layers that are missing: all of them, if there was any. */
  lemma MissingGrown(g0: Graph, g: Graph, id: nat, at: nat)
    requires Shaped(g0) && GrownFor(g0, g, id) && g.layers < MAX_LEVEL && at < Capacity(g.layers)
    requires g.layers > g0.layers ==> at == id
    ensures HeightOf(g0, at) == g.layers
    ensures Missing(g0, at) == Tops(g0, g.layers) + AbsentFrom(g.tab, at, 0, g.layers - 1)
  {
    if g.layers == g0.layers {
      HeightMeans(at, g0.layers);
    } else {
      forall j: nat | 0 <= j < g.layers - 1
        ensures PathPos(at, j) !in g0.tab && PathPos(at, j) !in g.tab
      {
        NewPath(g0, g, at, j);
      }
      AbsentSame(g0.tab, g.tab, at, at, 0, g.layers - 1);
    }
  }

  /** The path of an id that growth was needed for is new. */
  lemma NewPath(g0: Graph, g: Graph, id: nat, j: nat)
    requires Shaped(g0) && GrownFor(g0, g, id) && g0.layers < g.layers && j + 1 < g.layers
    ensures PathPos(id, j) !in g0.tab && PathPos(id, j) !in g.tab
  {
    CapacityMonotone(j + 1, g.layers - 1);
    InCapacity(id, j + 1);
    CapacityMonotone(g0.layers, g.layers - 1);
    if PathPos(id, j) in g0.tab {
      PathInRange(g0, id, j);
    }
  }

  /** What a search began with: its start id, the tree and the free list. */
  datatype Quest = Quest(start: nat, was: Graph, stock: seq<Layer>)

  /** The parts of a search: down the path of the start id, back up, and down from where there is room. */
  datatype Phase = Onset | Back | Down

  /**
    From the tree of q with q's stock to tab with n spare layers: the layers missing on the way to
    at, from level l up, were hung.
   */
  ghost predicate Walked(q: Quest, at: nat, l: nat, layers: nat, tab: Table, n: nat) {
    && 0 < q.was.layers == layers && n + AbsentFrom(q.was.tab, at, l, layers - 1) == |q.stock|
    && (forall p {:trigger p in q.was.tab} :: p in q.was.tab ==> p in tab)
    && (forall p {:trigger p in tab} :: p in tab ==> p in q.was.tab || (p.level >= l && p == PathPos(at, p.level)))
  }

  /** One level down, to a layer that is there. */
  lemma WalkedOn(q: Quest, at: nat, l: nat, layers: nat, tab: Table, n: nat)
    requires Walked(q, at, l, layers, tab, n) && 0 < l < layers && PathPos(at, l - 1) in tab
    ensures Walked(q, at, l - 1, layers, tab, n)
  {
  }

  /** One level down, to a new layer. */
  lemma WalkedHung(q: Quest, at: nat, l: nat, layers: nat, tab: Table, n: nat, tab': Table)
    requires Walked(q, at, l, layers, tab, n) && 0 < l < layers && PathPos(at, l - 1) !in tab && n > 0
    requires tab'.Keys == tab.Keys + {PathPos(at, l - 1)}
    ensures Walked(q, at, l - 1, layers, tab', n - 1)
  {
    forall p | p in tab'
      ensures p in q.was.tab || (p.level >= l - 1 && p == PathPos(at, p.level))
    {
      assert p == PathPos(at, l - 1) || p in tab;
    }
  }

  /** Without a layer for the next level, there were not enough for the way. */
  lemma WalkedOut(q: Quest, at: nat, l: nat, layers: nat, tab: Table)
    requires Walked(q, at, l, layers, tab, 0) && 0 < l < layers && PathPos(at, l - 1) !in tab
    ensures |q.stock| < AbsentFrom(q.was.tab, at, 0, layers - 1)
  {
    AbsentMore(q.was.tab, at, 0, l - 1, layers - 1);
  }

  /** struct idr, with the memory its layers live in. */
  class Handle {
    var mem: Memory
    var top: Layer
    var layers: nat
    var idFree: Layer
    var idFreeCnt: nat
    const maxIdBit: IdLimit

    ghost var tree: Graph
    ghost var spare: seq<Layer>
    ghost var entries: map<nat, Entry>
    ghost var obtained: nat
    ghost var returned: nat

    ghost predicate FreeOk()
      reads this
    {
      idFreeCnt == |spare| && FreeList(mem, idFree, spare)
    }

    /** The tree is in memory, hangs off top, and stands for entries. */
    ghost predicate TreeIn()
      reads this
    {
      && Backs(mem, tree) && Denotes(tree, entries)
      && layers == tree.layers < MAX_LEVEL && 2 * Capacity(MAX_LEVEL - 1) <= maxIdBit
      && top == TopOf(tree)
    }

    /** Layers obtained and not given back are in the tree, spare, or held by the running call. */
    ghost predicate Conserved(held: nat)
      reads this
    {
      |tree.tab| + |spare| + held + returned == obtained
    }

    ghost predicate Valid()
      reads this
    {
      Around(0) && Wf(tree)
    }

    /** All of Valid but the rules inside the tree, while a call holds some layers. */
    ghost predicate Around(held: nat)
      reads this
    {
      FreeOk() && Apart(tree, spare) && TreeIn() && Conserved(held)
    }

    /** Every layer in the tree has an id below it. */
    ghost predicate Tidy()
      reads this
    {
      forall p {:trigger Inhabited(entries, p)} :: p in tree.tab ==> Inhabited(entries, p)
    }

    lemma TidyThick()
      requires Valid()
      ensures Tidy() <==> Thick(tree)
    {
      if Tidy() {
        forall p | p in tree.tab
          ensures tree.tab[p].count != 0
        {
          InhabitedCount(tree, entries, p);
        }
      }
      if Thick(tree) {
        forall p | p in tree.tab
          ensures Inhabited(entries, p)
        {
          ThickInhabited(tree, entries, p);
        }
      }
    }

    /** idr_init; maxIdBit is 1 << 31 in the source, beyond what MAX_LEVEL - 1 layers hold. */
    constructor (maxIdBit: IdLimit)
      requires 2 * Capacity(MAX_LEVEL - 1) <= maxIdBit
      ensures Valid() && mem == map[] && entries == map[] && tree == Graph(0, map[]) && obtained == returned == 0
    {
      mem, top, layers, idFree, idFreeCnt := map[], NULL, 0, NULL, 0;
      this.maxIdBit := maxIdBit;
      tree, spare, entries, obtained, returned := Graph(0, map[]), [], map[], 0, 0;
    }

    // ---------- the free list ----------

    /** alloc_layer. */
    method AllocLayer() returns (p: Layer)
      requires FreeOk()
      modifies this`mem, this`idFree, this`idFreeCnt, this`spare
      ensures FreeOk()
      ensures p == NULL <==> old(spare) == []
      ensures p == NULL ==> spare == old(spare) && mem == old(mem)
      ensures p != NULL ==> old(spare) == [p] + spare && p !in spare && p in old(mem)
      ensures p != NULL ==> mem == old(mem)[p := Blank()]
    {
      p := idFree;
      assert spare != [] ==> SpareOk(mem, spare, 0);
      if p != NULL {
        ghost var was, mem0 := spare, mem;
        assert |spare| > 1 ==> SpareOk(mem, spare, 1);
        idFree := if mem[p].ary[0].Sub? then mem[p].ary[0].layer else NULL;
        idFreeCnt := idFreeCnt - 1;
        mem := mem[p := mem[p].(ary := mem[p].ary[0 := Nil])];
        spare := spare[1..];
        assert mem[p] == Blank();
        forall i: nat | i < |spare|
          ensures SpareOk(mem, spare, i)
        {
          assert SpareOk(mem0, was, i + 1) && spare[i] == was[i + 1];
        }
      }
    }

    /** free_layer: the layer must be blank up to slot 0. */
    method FreeLayer(p: Layer)
      requires FreeOk() && p !in spare && p != NULL && p in mem
      requires |mem[p].ary| == IDR_SIZE && mem[p] == Record(NoBits(), NoLinks()[0 := mem[p].ary[0]], 0)
      modifies this`mem, this`idFree, this`idFreeCnt, this`spare
      ensures FreeOk() && spare == [p] + old(spare)
      ensures mem.Keys == old(mem).Keys && forall q <- mem :: q != p ==> mem[q] == old(mem)[q]
    {
      ghost var was, mem0 := spare, mem;
      mem := mem[p := mem[p].(ary := mem[p].ary[0 := if idFree == NULL then Nil else Sub(idFree)])];
      idFree := p;
      idFreeCnt := idFreeCnt + 1;
      spare := [p] + spare;
      forall i: nat | i < |spare|
        ensures SpareOk(mem, spare, i)
      {
        if i > 0 {
          assert spare[i] == was[i - 1] && SpareOk(mem0, was, i - 1);
        } else if was != [] {
          assert SpareOk(mem0, was, 0);
        }
      }
    }

    // ---------- elementary updates of one layer ----------

    /** find_next_bit on the complement of the bitmap. */
    static method NextClear(bits: seq<bool>, n: nat) returns (m: nat)
      requires n <= |bits|
      ensures n <= m <= |bits| && (m < |bits| ==> !bits[m])
      ensures forall i :: n <= i < m ==> bits[i]
    {
      m := n;
      while m < |bits| && bits[m]
        invariant n <= m <= |bits| && forall i :: n <= i < m ==> bits[i]
      {
        m := m + 1;
      }
    }

    /** The layer at a position is in memory, and is not spare. */
    lemma LayerAt(pos: Pos)
      requires Backs(mem, tree) && Shaped(tree) && pos in tree.tab
      ensures Sized(tree.tab[pos]) && Backed(mem, tree.tab[pos])
    {
      assert LinksOk(tree.tab, pos) && Backed(mem, tree.tab[pos]);
    }

    /** The missing layer below slot m of p is taken off the free list and hung there. */
    method AllocBelow(p: Layer, m: nat, ghost pos: Pos) returns (layer: Layer)
      requires Valid() && pos in tree.tab && tree.tab[pos].obj == p
      requires pos.level > 0 && m < IDR_SIZE && Child(pos, m) !in tree.tab
      modifies this`mem, this`idFree, this`idFreeCnt, this`spare, this`tree
      ensures Valid() && Sized(old(tree).tab[pos])
      ensures layer == NULL ==> mem == old(mem) && tree == old(tree) && old(spare) == [] == spare
      ensures layer != NULL ==> tree == Hung(old(tree), pos, m, layer) && |spare| == old(|spare|) - 1
    {
      LayerAt(pos);
      layer := AllocLayer();
      if layer != NULL {
        assert layer in old(spare);
        TreeFrame(old(mem), mem, tree, layer);
        Hang(p, m, layer, pos);
      }
    }

    /** The new layer goes into slot m of the layer above it, which counts one more. */
    method Hang(p: Layer, m: nat, layer: Layer, ghost pos: Pos)
      requires Around(1) && Wf(tree)
      requires pos in tree.tab && tree.tab[pos].obj == p
      requires pos.level > 0 && m < IDR_SIZE && Child(pos, m) !in tree.tab
      requires layer != NULL && layer in mem && Foreign(tree, layer) && layer !in spare && mem[layer] == Blank()
      modifies this`mem, this`tree
      ensures Sized(old(tree).tab[pos]) && tree == Hung(old(tree), pos, m, layer) && Valid()
    {
      LayerAt(pos);
      ghost var g, mem0 := tree, mem;
      HungWf(g, pos, m, layer);
      HungIds(g, pos, m, layer);
      Settled(g, Hung(g, pos, m, layer), entries);
      HangBacks(mem, g, pos, m, layer);
      mem := mem[p := Record(mem[p].bitmap, mem[p].ary[m := Sub(layer)], mem[p].count + 1)];
      tree := Hung(g, pos, m, layer);
      FreeFrame(mem0, mem, idFree, spare);
    }

    // ---------- allocation ----------

    /** Every id from start up to bound is taken. */
    ghost predicate TakenFrom(start: nat, bound: nat)
      reads this`entries
    {
      forall k: nat :: start <= k < bound ==> k in entries
    }

    /** __set_bit in the layer on the way to id above level l; which bit is right decides the caller. */
    method SetBit(p: Layer, m: nat, ghost id: nat, ghost l: nat, ghost pa: seq<Layer>)
      requires Around(0) && Shaped(tree) && PathIn(pa, tree, id, l) && m < IDR_SIZE
      requires PathPos(id, l + 1) in tree.tab && p == tree.tab[PathPos(id, l + 1)].obj
      modifies this`mem, this`tree
      ensures Around(0) && Shaped(tree) && PathIn(pa, tree, id, l + 1) && Sized(old(tree).tab[PathPos(id, l + 1)])
      ensures tree == BitSet(old(tree), PathPos(id, l + 1), m) && tree.tab.Keys == old(tree).tab.Keys
      ensures PathPos(id, l + 1) in tree.tab && p == tree.tab[PathPos(id, l + 1)].obj
      ensures Backed(mem, tree.tab[PathPos(id, l + 1)])
    {
      ghost var q, g, mem0 := PathPos(id, l + 1), tree, mem;
      LayerAt(q);
      BitSetShape(g, q, m);
      BitSetIds(g, q, m);
      BitSetPath(pa, g, id, l, m);
      Settled(g, BitSet(g, q, m), entries);
      WriteNode(mem, g, q, g.tab[q].(bits := g.tab[q].bits[m := true]));
      mem := mem[p := mem[p].(bitmap := mem[p].bitmap[m := true])];
      tree := BitSet(g, q, m);
      FreeFrame(mem0, mem, idFree, spare);
      LayerAt(q);
    }

    /** Some id of the block of e digits around id is free. */
    ghost predicate RoomAround(id: nat, e: nat)
      reads this`entries
    {
      exists k: nat :: Shr(k, e) == Shr(id, e) && k !in entries
    }

    /** The state of the marking loop: up to the digits that were carried, only one bit is in doubt. */
    ghost predicate Marking(id: nat, e: nat, l: nat, p: Layer, pa: seq<Layer>)
      reads this
    {
      && Around(0) && Shaped(tree) && PathIn(pa, tree, id, l) && l < layers
      && PathPos(id, l) in tree.tab && p == tree.tab[PathPos(id, l)].obj && Backed(mem, tree.tab[PathPos(id, l)])
      && (e == 0 || l < e ==> Stale(tree, PathPos(id, l)))
      && (0 < e <= l ==> !RoomAround(id, e))
    }

    /** One round of the marking loop. */
    method MarkOne(p: Layer, m: nat, ghost id: nat, ghost e: nat, ghost l: nat, ghost below: Layer,
                   ghost pa: seq<Layer>)
      requires Marking(id, e, l, below, pa) && Full(tree.tab[PathPos(id, l)].bits) && m < IDR_SIZE && l + 1 < layers
      requires PathPos(id, l + 1) in tree.tab && p == tree.tab[PathPos(id, l + 1)].obj
      requires e == 0 || l + 1 < e ==> m == Digit(id, l + 1)
      modifies this`mem, this`tree
      ensures Marking(id, e, l + 1, p, pa) && layers == old(layers) && tree.tab.Keys == old(tree).tab.Keys
    {
      ghost var c, g := PathPos(id, l), tree;
      PathStep(id, l);
      LayerAt(PathPos(id, l + 1));
      if e == 0 || l < e {
        if l + 1 == e {
          BlockTaken(id, l);
        } else {
          MarkedStale(g, c);
        }
      }
      SetBit(p, m, id, l, pa);
    }

    /** A full layer, with the layers below it in order, has no room. */
    lemma BlockTaken(id: nat, l: nat)
      requires Around(0) && Stale(tree, PathPos(id, l)) && Full(tree.tab[PathPos(id, l)].bits)
      ensures !RoomAround(id, l + 1)
    {
      forall k: nat | Shr(k, l + 1) == Shr(id, l + 1)
        ensures k in entries
      {
        StaleFull(tree, PathPos(id, l), PathPos(id, l), k);
      }
    }

    /** The id that the search works with: at itself, or at with a carry into the digits from e on. */
    static ghost function Lifted(at: nat, e: nat): nat {
      at + if e == 0 then 0 else Capacity(e)
    }

    static lemma LiftedDigit(at: nat, e: nat, l: nat)
      requires e == 0 || l < e
      ensures Digit(Lifted(at, e), l) == Digit(at, l)
    {
      if e > 0 {
        DigitLift(at, e, l);
      }
    }

    /**
      The last part of sub_alloc: mark full layers in the layers above.  The digits of id say which
      bits; a carry into the digits from e on sets a wrong one if it gets that far.
     */
    method MarkUp(id: nat, leaf: Layer, pa: seq<Layer>, ghost at: nat, ghost e: nat)
      requires Marking(at, e, 0, leaf, pa) && id == Lifted(at, e)
      modifies this`mem, this`tree
      ensures Around(0) && Shaped(tree) && layers == old(layers) && tree.tab.Keys == old(tree).tab.Keys
      ensures e == 0 || e == layers || RoomAround(at, e) ==> Ruled(tree)
    {
      var p, n, l: nat := leaf, id, 0;
      while Full(mem[p].bitmap)
        invariant layers == old(layers) && tree.tab.Keys == old(tree).tab.Keys
        invariant Marking(at, e, l, p, pa) && n == Shr(id, l)
        decreases layers - l
      {
        ghost var below := p;
        p := pa[l + 1];
        if l + 1 < layers {
          assert Passes(pa, tree, at, l + 1);
          LayerAt(PathPos(at, l + 1));
        }
        if p == NULL {
          break;
        }
        n := Over(n);
        if e == 0 || l + 1 < e {
          LiftedDigit(at, e, l + 1);
        }
        MarkOne(p, Rest(n), at, e, l, below, pa);
        l := l + 1;
      }
      MarkingDone(at, e, l);
    }

    /** What is left when the loop ends. */
    lemma MarkingDone(at: nat, e: nat, l: nat)
      requires Around(0) && Shaped(tree) && l < layers && PathPos(at, l) in tree.tab
      requires e == 0 || l < e ==> Stale(tree, PathPos(at, l))
      requires 0 < e <= l ==> !RoomAround(at, e)
      requires !Full(tree.tab[PathPos(at, l)].bits) || l + 1 == layers
      ensures e == 0 || e == layers || RoomAround(at, e) ==> Ruled(tree)
    {
      if e == 0 || l < e {
        PathStep(at, l);
        if Parent(PathPos(at, l)) in tree.tab {
          assert Placed(tree, Parent(PathPos(at, l)));
        }
        StaleDone(tree, PathPos(at, l));
      }
    }

    /** The pointer goes into the leaf of the id at. */
    method Plant(p: Layer, m: nat, ptr: Entry, id: nat, pa: seq<Layer>, ghost at: nat, ghost e: nat)
      requires Valid() && 0 < layers && PathIn(pa, tree, at, 0) && id == Lifted(at, e) && !ptr.Sub?
      requires PathPos(at, 0) in tree.tab && p == tree.tab[PathPos(at, 0)].obj && m == Digit(at, 0)
      requires Sized(tree.tab[PathPos(at, 0)]) && !tree.tab[PathPos(at, 0)].bits[m]
      modifies this`mem, this`tree, this`entries
      ensures Around(0) && Shaped(tree) && layers == old(layers) && tree.tab.Keys == old(tree).tab.Keys
      ensures at !in old(entries) && entries == old(entries)[at := ptr]
      ensures e == 0 || e == layers || RoomAround(at, e) ==> Ruled(tree)
    {
      ghost var q, g, mem0 := PathPos(at, 0), tree, mem;
      LayerAt(q);
      ClearIsFree(g, at);
      ghost var g' := Planted(g, at, ptr);
      PlantedStale(g, at, ptr);
      PlantedDenotes(g, at, ptr, entries);
      PlantedPath(pa, g, at, ptr);
      WriteNode(mem, g, q, g'.tab[q]);
      mem := mem[p := Record(mem[p].bitmap[m := true], mem[p].ary[m := ptr], mem[p].count + 1)];
      tree := g';
      entries := entries[at := ptr];
      FreeFrame(mem0, mem, idFree, spare);
      LayerAt(q);
      MarkUp(id, p, pa, at, e);
    }

    // ---------- the search ----------

    /**
      The search from start goes astray in the layer at level i: the block of i digits around start,
      the last one of that layer, has free ids, but none from start on.  The step back to the layer
      then carries into the digit beyond it, while the search stays there.
     */
    ghost predicate AstrayAt(start: nat, i: nat)
      reads this`entries, this`layers
    {
      && 0 < i < layers && Digit(start, i) == IDR_SIZE - 1 && RoomAround(start, i)
      && forall k: nat :: start <= k && Shr(k, i) == Shr(start, i) ==> k in entries
    }

    ghost predicate Astray(start: nat)
      reads this`entries, this`layers
    {
      exists i: nat :: AstrayAt(start, i)
    }

    /** A start id that is free is never led astray. */
    lemma FreeStart(start: nat)
      requires start !in entries
      ensures !Astray(start)
    {
    }

    /** Going back up to level l was no problem: blocks below were full, or not the last ones. */
    ghost predicate Clean(start: nat, l: nat)
      reads this`entries
    {
      forall i: nat :: 0 < i <= l && Digit(start, i) == IDR_SIZE - 1 ==> !RoomAround(start, i)
    }

    /** So the search is not astray if it finds room, or reaches the top. */
    lemma NotAstray(start: nat, l: nat)
      requires Clean(start, l)
      requires l + 1 >= layers || exists k: nat :: start <= k && Shr(k, l + 1) == Shr(start, l + 1) && k !in entries
      ensures !Astray(start)
    {
      if i: nat :| AstrayAt(start, i) {
        if i > l {
          var k: nat :| start <= k && Shr(k, l + 1) == Shr(start, l + 1) && k !in entries;
          SameUpper(k, start, l + 1, i);
        }
      }
    }

    /** The rest of the tree and the free list are as the search found them. */
    ghost predicate Untouched(q: Quest)
      reads this
    {
      tree == q.was && spare == q.stock
    }

    ghost predicate BlankAt(at: nat, l: nat)
      reads this
    {
      && PathPos(at, l) in tree.tab
      && tree.tab[PathPos(at, l)].bits == NoBits() && tree.tab[PathPos(at, l)].ary == NoLinks()
    }

    /** The search has strayed, by a carry into the digits from e on. */
    ghost predicate Strayed(start: nat, at: nat, e: nat)
      reads this`entries, this`layers
    {
      && 2 <= e <= layers && AstrayAt(start, e - 1) && (forall i: nat :: i < e - 1 ==> !AstrayAt(start, i))
      && Shr(at, e) == Shr(start, e) && TakenFrom(Shl(Shr(start, e), e), at)
    }

    /**
      The id that an allocation for start is to be stored under: the first free one from start on,
      or, if the search goes astray, the first free one of the block in which it does.
     */
    ghost predicate Destined(start: nat, at: nat, e: nat)
      reads this`entries, this`layers
    {
      at !in entries && if e == 0 then start <= at && TakenFrom(start, at) && !Astray(start) else Strayed(start, at, e)
    }

    /** What is known of an id that the search has turned to. */
    ghost predicate Found(start: nat, at: nat, e: nat)
      reads this`entries, this`layers
    {
      if e == 0 then start < at && TakenFrom(start, at) && !Astray(start) else Strayed(start, at, e)
    }

    /** The search is at level l, in the layer p on the way to the id at. */
    ghost predicate Standing(q: Quest, at: nat, e: nat, l: nat, p: Layer, pa: seq<Layer>)
      reads this
    {
      && Valid() && l < layers && |pa| == MAX_LEVEL && PathIn(pa, tree, at, l)
      && PathPos(at, l) in tree.tab && p == tree.tab[PathPos(at, l)].obj
      && Shr(at, layers) == 0 && Shr(q.start, layers) == 0 && (e > 0 ==> l < e <= layers)
      && (l < layers - 1 ==> !Full(tree.tab[PathPos(at, l)].bits))
      && Stepped(q, at, l)
    }

    /** Since the search began, exactly the missing layers on the way to at, from level l up, were hung. */
    ghost predicate Stepped(q: Quest, at: nat, l: nat)
      reads this
    {
      Walked(q, at, l, layers, tree.tab, |spare|)
    }

    /** The first descent: new layers are blank, all others were there before. */
    ghost predicate OnPathOfStart(q: Quest, at: nat, e: nat, l: nat)
      reads this
    {
      at == q.start && e == 0 && (Untouched(q) || BlankAt(at, l))
    }

    ghost predicate Seeking(q: Quest, f: Phase, at: nat, e: nat, l: nat, p: Layer, pa: seq<Layer>)
      reads this
    {
      && Standing(q, at, e, l, p, pa)
      && match f
         case Onset => OnPathOfStart(q, at, e, l)
         case Back =>
           && e == 0 && Aligned(at, l) && q.start < at && Shr(at, l + 1) == Shr(q.start, l + 1)
           && TakenFrom(q.start, at) && Clean(q.start, l) && Untouched(q)
         case Down =>
           && Aligned(at, l) && Digit(at, l) == 0 && !Full(tree.tab[PathPos(at, l)].bits) && Found(q.start, at, e)
    }

    /** A clear slot was chosen at level l, and at names it. */
    ghost predicate Chose(q: Quest, at: nat, e: nat, l: nat, m: nat, p: Layer, pa: seq<Layer>)
      reads this
    {
      && Standing(q, at, e, l, p, pa) && Digit(at, l) == m
      && Sized(tree.tab[PathPos(at, l)]) && !tree.tab[PathPos(at, l)].bits[m]
      && (OnPathOfStart(q, at, e, l) || (Aligned(at, l) && Found(q.start, at, e)))
    }

    /** Slots whose bits are set hold no free id. */
    lemma TakeMore(start: nat, at: nat, l: nat, m: nat)
      requires Valid() && PathPos(at, l) in tree.tab && TakenFrom(start, at) && (at == start || Aligned(at, l))
      requires Digit(at, l) <= m <= IDR_SIZE && Sized(tree.tab[PathPos(at, l)])
      requires forall d :: Digit(at, l) <= d < m ==> tree.tab[PathPos(at, l)].bits[d]
      ensures TakenFrom(start, Shl(Times(Shr(at, l + 1)) + m, l))
    {
      Recompose(Shr(at, l));
      FloorBelow(at, l);
      forall k: nat | start <= k < Shl(Times(Shr(at, l + 1)) + m, l)
        ensures k in entries
      {
        if Shl(Shr(at, l), l) <= k {
          SkippedTaken(tree, PathPos(at, l), Digit(at, l), m, k);
        }
      }
    }

    /** A set bit for start at level l: the blocks around start below it are full. */
    lemma CleanStart(start: nat, l: nat)
      requires Valid() && PathPos(start, l) in tree.tab && Sized(tree.tab[PathPos(start, l)])
      requires tree.tab[PathPos(start, l)].bits[Digit(start, l)]
      ensures Clean(start, l)
    {
      var d := Digit(start, l);
      Recompose(Shr(start, l));
      forall i: nat | i <= l
        ensures !RoomAround(start, i)
      {
        forall k: nat | Shr(k, i) == Shr(start, i)
          ensures k in entries
        {
          SameUpper(k, start, i, l);
          FloorBelow(k, l);
          SkippedTaken(tree, PathPos(start, l), d, d + 1, k);
        }
      }
    }

    /** Turning to an id with the same upper digits does not matter to that. */
    lemma SteppedTurned(q: Quest, at: nat, r: nat, l: nat)
      requires Stepped(q, at, l) && Shaped(tree) && l < layers == tree.layers
      requires forall j :: l < j <= layers ==> Shr(r, j) == Shr(at, j)
      ensures Stepped(q, r, l)
    {
      AbsentSame(q.was.tab, q.was.tab, at, r, l, layers - 1);
      forall p | p in tree.tab && p !in q.was.tab
        ensures p.level >= l && p == PathPos(r, p.level)
      {
        assert Placed(tree, p);
      }
    }

    /** On a path that is there, nothing was hung. */
    lemma SteppedThere(q: Quest, at: nat, l: nat, pa: seq<Layer>)
      requires Untouched(q) && layers == tree.layers && l < layers
      requires PathIn(pa, tree, at, l) && PathPos(at, l) in tree.tab
      ensures Stepped(q, at, l)
    {
      forall j: nat | l <= j < layers - 1
        ensures PathPos(at, j) in tree.tab
      {
        assert j > l ==> Passes(pa, tree, at, j);
      }
      AbsentNone(tree.tab, at, l, layers - 1);
    }

    /** Turning to slot m of the same layer. */
    lemma Turned(at: nat, l: nat, m: nat, pa: seq<Layer>) returns (r: nat)
      requires l < layers == tree.layers && PathIn(pa, tree, at, l) && m < IDR_SIZE
      ensures r == (if m == Digit(at, l) then at else Retarget(at, l, m))
      ensures Digit(r, l) == m && PathPos(r, l) == PathPos(at, l) && PathIn(pa, tree, r, l)
      ensures Shr(r, l) == Times(Shr(at, l + 1)) + m && (m != Digit(at, l) ==> Aligned(r, l))
      ensures forall j :: l < j <= layers ==> Shr(r, j) == Shr(at, j)
    {
      RetargetDigits(at, l, m);
      Recompose(Shr(at, l));
      r := if m == Digit(at, l) then at else Retarget(at, l, m);
      forall j | l < j <= layers
        ensures Shr(r, j) == Shr(at, j)
      {
        SameUpper(r, at, l + 1, j);
      }
      forall j: nat | l < j < layers
        ensures Passes(pa, tree, r, j)
      {
        assert Shr(r, j + 1) == Shr(at, j + 1);
        assert Passes(pa, tree, at, j);
      }
    }

    /** An id found by leaving the path of start at level l: what was skipped is taken, and there is room. */
    lemma LeftPath(start: nat, at: nat, l: nat, m: nat, r: nat)
      requires Valid() && l < layers && PathPos(at, l) in tree.tab && Sized(tree.tab[PathPos(at, l)])
      requires TakenFrom(start, at) && (at == start || Aligned(at, l)) && Shr(at, l + 1) == Shr(start, l + 1)
      requires Digit(at, l) <= m < IDR_SIZE && !tree.tab[PathPos(at, l)].bits[m] && Clean(start, l)
      requires forall d :: Digit(at, l) <= d < m ==> tree.tab[PathPos(at, l)].bits[d]
      requires r == Shl(Times(Shr(at, l + 1)) + m, l) && start < r
      ensures TakenFrom(start, r) && !Astray(start)
    {
      TakeMore(start, at, l, m);
      var k := FreeUnder(tree, PathPos(at, l), m);
      assert k in entries <==> Allocated(tree, k);
      FloorBelow(k, l);
      DivMod(Shr(at, l + 1), m);
      assert Shr(k, l + 1) == Shr(start, l + 1);
      NotAstray(start, l);
    }

    lemma ChoseOnset(q: Quest, l: nat, m: nat, p: Layer, pa: seq<Layer>) returns (r: nat)
      requires Seeking(q, Onset, q.start, 0, l, p, pa) && Sized(tree.tab[PathPos(q.start, l)])
      requires Digit(q.start, l) <= m < IDR_SIZE && !tree.tab[PathPos(q.start, l)].bits[m]
      requires forall d :: Digit(q.start, l) <= d < m ==> tree.tab[PathPos(q.start, l)].bits[d]
      ensures r == (if m == Digit(q.start, l) then q.start else Retarget(q.start, l, m))
      ensures Chose(q, r, 0, l, m, p, pa)
    {
      r := Turned(q.start, l, m, pa);
      SteppedTurned(q, q.start, r, l);
      if m != Digit(q.start, l) {
        CleanStart(q.start, l);
        Recompose(Shr(q.start, l));
        BelowShl(q.start, Shr(r, l), l);
        LeftPath(q.start, q.start, l, m, r);
      }
    }

    lemma ChoseBack(q: Quest, at: nat, l: nat, m: nat, p: Layer, pa: seq<Layer>) returns (r: nat)
      requires Seeking(q, Back, at, 0, l, p, pa) && Sized(tree.tab[PathPos(at, l)])
      requires Digit(at, l) <= m < IDR_SIZE && !tree.tab[PathPos(at, l)].bits[m]
      requires forall d :: Digit(at, l) <= d < m ==> tree.tab[PathPos(at, l)].bits[d]
      ensures r == (if m == Digit(at, l) then at else Retarget(at, l, m))
      ensures Chose(q, r, 0, l, m, p, pa) && q.start < r
    {
      r := Turned(at, l, m, pa);
      SteppedTurned(q, at, r, l);
      Recompose(Shr(at, l));
      ShlMonotone(Shr(at, l), Shr(r, l), l);
      LeftPath(q.start, at, l, m, r);
    }

    lemma ChoseDown(q: Quest, at: nat, e: nat, l: nat, m: nat, p: Layer, pa: seq<Layer>) returns (r: nat)
      requires Seeking(q, Down, at, e, l, p, pa) && Sized(tree.tab[PathPos(at, l)])
      requires Digit(at, l) <= m < IDR_SIZE && !tree.tab[PathPos(at, l)].bits[m]
      requires forall d :: Digit(at, l) <= d < m ==> tree.tab[PathPos(at, l)].bits[d]
      ensures r == (if m == Digit(at, l) then at else Retarget(at, l, m))
      ensures Chose(q, r, e, l, m, p, pa) && (e == 0 ==> q.start < r)
    {
      r := Turned(at, l, m, pa);
      SteppedTurned(q, at, r, l);
      Recompose(Shr(at, l));
      ShlMonotone(Shr(at, l), Shr(r, l), l);
      TakeMore(if e == 0 then q.start else Shl(Shr(q.start, e), e), at, l, m);
    }

    static lemma LiftedRetarget(at: nat, e: nat, l: nat, m: nat)
      requires (e == 0 || l < e) && m < IDR_SIZE
      ensures Retarget(Lifted(at, e), l, m) == Lifted(Retarget(at, l, m), e)
    {
      if e > 0 {
        RetargetLift(at, e, l, m);
      }
    }

    /** One look at a layer: the first clear slot from id's digit on, and id turned to it; IDR_SIZE if there is none. */
    method PickSlot(p: Layer, id: nat, l: nat, pa: seq<Layer>, ghost q: Quest, ghost f: Phase, ghost at: nat,
                    ghost e: nat)
      returns (m: nat, id': nat, ghost at': nat)
      requires Seeking(q, f, at, e, l, p, pa) && id == Lifted(at, e)
      ensures m <= IDR_SIZE
      ensures m == IDR_SIZE ==> id' == id && f != Down && Sized(tree.tab[PathPos(at, l)])
      ensures m == IDR_SIZE ==> forall d :: Digit(at, l) <= d < IDR_SIZE ==> tree.tab[PathPos(at, l)].bits[d]
      ensures m < IDR_SIZE ==> Chose(q, at', e, l, m, p, pa) && id' == Lifted(at', e)
      ensures m < IDR_SIZE && f != Onset ==> !OnPathOfStart(q, at', e, l)
    {
      LayerAt(PathPos(at, l));
      LiftedDigit(at, e, l);
      var n := Digit(id, l);
      m := NextClear(mem[p].bitmap, n);
      id', at' := id, at;
      if m == IDR_SIZE {
        return;
      }
      match f {
        case Onset => at' := ChoseOnset(q, l, m, p, pa);
        case Back => at' := ChoseBack(q, at, l, m, p, pa);
        case Down => at' := ChoseDown(q, at, e, l, m, p, pa);
      }
      LiftedRetarget(at, e, l, m);
      if m != n {
        id' := Retarget(id, l, m);
      }
    }

    // ---------- back to the layer above ----------

    /** A layer without room from the id on: all ids of the block are taken from start on. */
    lemma NoRoom(q: Quest, f: Phase, at: nat, l: nat, p: Layer, pa: seq<Layer>)
      requires Seeking(q, f, at, 0, l, p, pa) && f != Down && Sized(tree.tab[PathPos(at, l)])
      requires forall d :: Digit(at, l) <= d < IDR_SIZE ==> tree.tab[PathPos(at, l)].bits[d]
      ensures Shr(at, l + 1) == Shr(q.start, l + 1) && Untouched(q) && Clean(q.start, l)
      ensures TakenFrom(q.start, Shl(Shr(q.start, l + 1) + 1, l + 1))
    {
      TakeMore(q.start, at, l, IDR_SIZE);
      if f == Onset {
        assert tree.tab[PathPos(at, l)].bits[Digit(at, l)];
        CleanStart(at, l);
      }
      var x := Shr(at, l + 1);
      assert Times(x) + IDR_SIZE == Times(x + 1);
    }

    /** Climbing out of the top: everything from start on is taken. */
    lemma ClimbedOut(q: Quest, f: Phase, at: nat, l: nat, p: Layer, pa: seq<Layer>)
      requires Seeking(q, f, at, 0, l, p, pa) && f != Down && Sized(tree.tab[PathPos(at, l)]) && l + 1 == layers
      requires forall d :: Digit(at, l) <= d < IDR_SIZE ==> tree.tab[PathPos(at, l)].bits[d]
      ensures Shl(Shr(at, l + 1) + 1, l + 1) == Capacity(layers) && TakenFrom(q.start, Capacity(layers))
      ensures !Astray(q.start) && Untouched(q)
    {
      NoRoom(q, f, at, l, p, pa);
      NotAstray(q.start, l);
    }

    /** The layer above is there, and not full either. */
    lemma LayerAbove(q: Quest, f: Phase, at: nat, l: nat, p: Layer, pa: seq<Layer>)
      requires Seeking(q, f, at, 0, l, p, pa) && l + 1 < layers
      ensures PathPos(at, l + 1) in tree.tab && pa[l + 1] == tree.tab[PathPos(at, l + 1)].obj != NULL
      ensures Sized(tree.tab[PathPos(at, l + 1)]) && !tree.tab[PathPos(at, l + 1)].bits[Digit(at, l + 1)]
    {
      assert Passes(pa, tree, at, l + 1);
      LayerAt(PathPos(at, l + 1));
      PathStep(at, l);
      assert BitsOk(tree.tab, PathPos(at, l + 1)) && BitOk(tree.tab, PathPos(at, l + 1), Digit(at, l + 1));
    }

    /** A path that is the same above level l. */
    lemma SamePath(pa: seq<Layer>, at: nat, at': nat, l: nat)
      requires layers == tree.layers && PathIn(pa, tree, at, l) && l < layers && Shr(at, l + 1) == Shr(at', l + 1)
      ensures PathIn(pa, tree, at', l) && Shr(at', layers) == Shr(at, layers)
    {
      SameUpper(at', at, l + 1, layers);
      forall j: nat | l < j < layers
        ensures Passes(pa, tree, at', j)
      {
        SameUpper(at', at, l + 1, j + 1);
        assert Passes(pa, tree, at, j);
      }
    }

    /** The next block of the same layer. */
    static lemma BlockAfter(start: nat, l: nat) returns (r: nat)
      requires Digit(start, l) < IDR_SIZE - 1
      ensures r == Shl(Shr(start, l) + 1, l) && Aligned(r, l) && start < r && Shr(r, l + 1) == Shr(start, l + 1)
    {
      r := Shl(Shr(start, l) + 1, l);
      NextBlock(start, l);
      NextInBlock(start, l);
    }

    /** Back in the layer above, at the next block of the same layer. */
    lemma ClimbedBack(q: Quest, f: Phase, at: nat, l: nat, p: Layer, pa: seq<Layer>) returns (r: nat)
      requires Seeking(q, f, at, 0, l, p, pa) && f != Down && Sized(tree.tab[PathPos(at, l)]) && l + 1 < layers
      requires forall d :: Digit(at, l) <= d < IDR_SIZE ==> tree.tab[PathPos(at, l)].bits[d]
      requires Digit(q.start, l + 1) < IDR_SIZE - 1
      ensures r == Shl(Shr(at, l + 1) + 1, l + 1) && Seeking(q, Back, r, 0, l + 1, pa[l + 1], pa)
    {
      NoRoom(q, f, at, l, p, pa);
      LayerAbove(q, f, at, l, p, pa);
      r := BlockAfter(q.start, l + 1);
      SameUpper(at, q.start, l + 1, l + 2);
      assert PathIn(pa, tree, at, l + 1);
      SamePath(pa, at, r, l + 1);
      SteppedThere(q, r, l + 1, pa);
      CleanAbove(q.start, l);
    }

    lemma CleanAbove(start: nat, l: nat)
      requires Clean(start, l) && Digit(start, l + 1) < IDR_SIZE - 1
      ensures Clean(start, l + 1)
    {
    }

    /** The id that a search with a carry is at: the first of the block it has left. */
    static lemma BlockStart(start: nat, l: nat) returns (r: nat)
      requires Digit(start, l) == IDR_SIZE - 1
      ensures Shl(Shr(start, l) + 1, l) == Lifted(r, l + 1) && Shr(r, l + 1) == Shr(start, l + 1)
      ensures Aligned(r, l) && Digit(r, l) == 0 && r == Shl(Shr(start, l + 1), l + 1)
    {
      NextWithCarry(start, l);
      r := Shl(Shr(start, l + 1), l + 1);
      ShrShl(Shr(start, l + 1), l + 1);
      assert Aligned(r, l + 1);
      AlignedBelow(r, l + 1);
    }

    /** Back in the layer above, at its first block, with a carry. */
    lemma ClimbedAstray(q: Quest, f: Phase, at: nat, l: nat, p: Layer, pa: seq<Layer>) returns (r: nat)
      requires Seeking(q, f, at, 0, l, p, pa) && f != Down && Sized(tree.tab[PathPos(at, l)]) && l + 1 < layers
      requires forall d :: Digit(at, l) <= d < IDR_SIZE ==> tree.tab[PathPos(at, l)].bits[d]
      requires Digit(q.start, l + 1) == IDR_SIZE - 1
      ensures Shl(Shr(at, l + 1) + 1, l + 1) == Lifted(r, l + 2) && Seeking(q, Down, r, l + 2, l + 1, pa[l + 1], pa)
    {
      NoRoom(q, f, at, l, p, pa);
      LayerAbove(q, f, at, l, p, pa);
      r := BlockStart(q.start, l + 1);
      SameUpper(at, q.start, l + 1, l + 2);
      assert PathIn(pa, tree, at, l + 1);
      SamePath(pa, at, r, l + 1);
      SteppedThere(q, r, l + 1, pa);
      LeadsAstray(q, at, l);
      FirstAstray(q.start, l);
    }

    /** The first carry is the one that leads astray. */
    lemma FirstAstray(start: nat, l: nat)
      requires Clean(start, l)
      ensures forall i: nat :: i <= l ==> !AstrayAt(start, i)
    {
    }

    lemma LeadsAstray(q: Quest, at: nat, l: nat)
      requires Valid() && l + 1 < layers && PathPos(at, l) in tree.tab && Sized(tree.tab[PathPos(at, l)])
      requires Shr(at, l + 1) == Shr(q.start, l + 1) && !Full(tree.tab[PathPos(at, l)].bits)
      requires Digit(q.start, l + 1) == IDR_SIZE - 1 && TakenFrom(q.start, Shl(Shr(q.start, l + 1) + 1, l + 1))
      ensures AstrayAt(q.start, l + 1)
    {
      var d: nat :| d < IDR_SIZE && !tree.tab[PathPos(at, l)].bits[d];
      var k := FreeUnder(tree, PathPos(at, l), d);
      DivMod(Shr(at, l + 1), d);
      assert k in entries <==> Allocated(tree, k);
      forall k: nat | q.start <= k && Shr(k, l + 1) == Shr(q.start, l + 1)
        ensures k in entries
      {
        FloorBelow(k, l + 1);
      }
    }

    // ---------- sub_alloc ----------

    /** One step down: the layer below a clear bit has room, if it is there. */
    lemma StepDown(at: nat, l: nat, m: nat)
      requires Valid() && 0 < l < layers && PathPos(at, l) in tree.tab && Digit(at, l) == m
      requires Sized(tree.tab[PathPos(at, l)]) && !tree.tab[PathPos(at, l)].bits[m]
      ensures Child(PathPos(at, l), m) == PathPos(at, l - 1)
      ensures Aligned(at, l) ==> Aligned(at, l - 1) && Digit(at, l - 1) == 0
      ensures tree.tab[PathPos(at, l)].ary[m] == Link(tree.tab, PathPos(at, l - 1))
      ensures PathPos(at, l - 1) in tree.tab ==> !Full(tree.tab[PathPos(at, l - 1)].bits)
    {
      PathStep(at, l - 1);
      if Aligned(at, l) {
        AlignedBelow(at, l);
      }
      assert LinksOk(tree.tab, PathPos(at, l)) && BitsOk(tree.tab, PathPos(at, l));
      assert BitOk(tree.tab, PathPos(at, l), m);
    }

    /** The phase after a choice: the first descent goes on until it has to leave the path of start. */
    ghost function PhaseBelow(q: Quest, at: nat, e: nat, l: nat): Phase
      reads this
    {
      if OnPathOfStart(q, at, e, l) then Onset else Down
    }

    /** Where there is no layer yet, the id is free. */
    lemma FreeBelow(q: Quest, at: nat, e: nat, l: nat, m: nat, p: Layer, pa: seq<Layer>)
      requires Chose(q, at, e, l, m, p, pa) && l > 0 && PathPos(at, l - 1) !in tree.tab
      ensures Destined(q.start, at, e)
    {
      MissingFree(tree, at, l - 1);
      assert at in entries <==> Allocated(tree, at);
      FreeStart(at);
    }

    /** The way down through a new layer; NULL if none is to be had. */
    method DescendNew(p: Layer, m: nat, l: nat, pa: seq<Layer>, ghost q: Quest, ghost at: nat, ghost e: nat)
      returns (next: Layer)
      requires Chose(q, at, e, l, m, p, pa) && l > 0 && PathPos(at, l - 1) !in tree.tab
      modifies this`mem, this`idFree, this`idFreeCnt, this`spare, this`tree
      ensures layers == old(layers) && Valid()
      ensures next == NULL ==> |q.stock| < AbsentFrom(q.was.tab, at, 0, layers - 1)
      ensures next != NULL ==> Seeking(q, old(PhaseBelow(q, at, e, l)), at, e, l - 1, next, pa[l := p])
    {
      ghost var g, pos := tree, PathPos(at, l);
      LayerAt(pos);
      StepDown(at, l, m);
      next := AllocBelow(p, m, pos);
      if next == NULL {
        WalkedOut(q, at, l, layers, tree.tab);
      } else {
        WalkedHung(q, at, l, layers, g.tab, old(|spare|), tree.tab);
        assert tree.tab[PathPos(at, l - 1)].obj == next && !NoBits()[0];
        PathBelow(pa, g, tree, at, l, p);
      }
    }

    /** The way down through a layer that is there. */
    lemma DescendOld(p: Layer, m: nat, l: nat, pa: seq<Layer>, q: Quest, at: nat, e: nat)
      requires Chose(q, at, e, l, m, p, pa) && l > 0 && PathPos(at, l - 1) in tree.tab
      ensures Seeking(q, PhaseBelow(q, at, e, l), at, e, l - 1, tree.tab[PathPos(at, l - 1)].obj, pa[l := p])
    {
      StepDown(at, l, m);
      WalkedOn(q, at, l, layers, tree.tab, |spare|);
      assert OnPathOfStart(q, at, e, l) ==> Untouched(q);
      PathBelow(pa, tree, tree, at, l, p);
    }

    /** The way down from a clear bit, through a new layer if there is none yet; NULL if none is to be had. */
    method Descend(p: Layer, m: nat, l: nat, pa: seq<Layer>, ghost q: Quest, ghost at: nat, ghost e: nat)
      returns (next: Layer, pa': seq<Layer>)
      requires Chose(q, at, e, l, m, p, pa) && l > 0
      modifies this`mem, this`idFree, this`idFreeCnt, this`spare, this`tree
      ensures layers == old(layers) && Valid()
      ensures next == NULL ==> |q.stock| < AbsentFrom(q.was.tab, at, 0, layers - 1) && old(Destined(q.start, at, e))
      ensures next != NULL ==> Seeking(q, old(PhaseBelow(q, at, e, l)), at, e, l - 1, next, pa')
    {
      pa' := pa[l := p];
      LayerAt(PathPos(at, l));
      StepDown(at, l, m);
      if mem[p].ary[m] == Nil {
        FreeBelow(q, at, e, l, m, p, pa);
        next := DescendNew(p, m, l, pa, q, at, e);
      } else {
        DescendOld(p, m, l, pa, q, at, e);
        LayerAt(PathPos(at, l - 1));
        next := mem[p].ary[m].layer;
      }
    }

    /** The path with the layer at level l noted. */
    static lemma PathBelow(pa: seq<Layer>, g: Graph, g': Graph, at: nat, l: nat, p: Layer)
      requires PathIn(pa, g, at, l) && 0 < l < g.layers == g'.layers < |pa|
      requires PathPos(at, l) in g.tab && p == g.tab[PathPos(at, l)].obj
      requires forall q {:trigger q in g.tab} :: q in g.tab ==> q in g'.tab && g'.tab[q].obj == g.tab[q].obj
      ensures PathIn(pa[l := p], g', at, l - 1)
    {
      var pa' := pa[l := p];
      forall j: nat | l <= j < g'.layers
        ensures Passes(pa', g', at, j)
      {
        assert j != l ==> Passes(pa, g, at, j);
      }
    }

    /**
      An allocation: the pointer is stored under at, and the id returned differs from it by the carry.
      Only a carry can upset the bitmaps, and only if it fills the block that it comes from.
     */
    ghost predicate Placement(ret: int, ptr: Entry, before: map<nat, Entry>, at: nat, e: nat)
      reads this
    {
      && ret == Lifted(at, e) < maxIdBit && Around(0) && Shaped(tree) && entries == before[at := ptr]
      && (e == 0 || e == layers || RoomAround(at, e) ==> Ruled(tree))
    }

    /** What sub_alloc leaves: -1 exactly if there were fewer layers than are missing on the way. */
    ghost predicate Result(ret: int, next: nat, ptr: Entry, q: Quest, before: map<nat, Entry>, at: nat, e: nat)
      reads this
    {
      && (ret == -2 || ret == -1 || ret >= 0)
      && (ret < 0 ==> Valid() && entries == before) && (ret != -2 ==> at < Capacity(layers))
      && (ret == -2 ==> Untouched(q) && next == Capacity(layers) && TakenFrom(q.start, next))
      && (ret == -1 ==> layers > 0 && |q.stock| < AbsentFrom(q.was.tab, at, 0, layers - 1))
      && (ret >= 0 ==> Placement(ret, ptr, before, at, e) && Stepped(q, at, 0))
    }

    /** A stray id is stored below start, and returned beyond it. */
    lemma StraySides(start: nat, at: nat, e: nat)
      requires Strayed(start, at, e) && at !in entries
      ensures at < start < at + Capacity(e)
    {
      if start <= at {
        Recompose(Shr(start, e - 1));
        Recompose(Shr(at, e - 1));
        FloorBelow(start, e - 1);
        BelowShl(at, Shr(start, e - 1), e - 1);
      }
      FloorBelow(start, e);
      FloorBelow(at, e);
      ShlAdd(Shr(at, e), 1, e);
    }

    /** Where an allocation is to go says whether the search goes astray. */
    lemma DestinedSides(start: nat, at: nat, e: nat)
      requires Destined(start, at, e)
      ensures e > 0 <==> Astray(start)
      ensures if e > 0 then at < start < Lifted(at, e) else start <= at == Lifted(at, e)
    {
      if e > 0 {
        StraySides(start, at, e);
      }
    }

    /** The search ends at a leaf. */
    method PlantFound(p: Layer, m: nat, ptr: Entry, id: nat, pa: seq<Layer>, ghost q: Quest, ghost at: nat,
                      ghost e: nat)
      requires Chose(q, at, e, 0, m, p, pa) && id == Lifted(at, e) < maxIdBit && !ptr.Sub?
      modifies this`mem, this`tree, this`entries
      ensures layers == old(layers) && Result(id, id, ptr, q, old(entries), at, e)
      ensures old(Destined(q.start, at, e))
    {
      ClearIsFree(tree, at);
      InCapacity(at, layers);
      assert at in entries <==> Allocated(tree, at);
      FreeStart(at);
      Plant(p, m, ptr, id, pa, at, e);
    }

    /** Ids stay below MAX_ID_BIT, also with a carry. */
    lemma InRange(q: Quest, at: nat, e: nat, l: nat, p: Layer, pa: seq<Layer>)
      requires Standing(q, at, e, l, p, pa)
      ensures Lifted(at, e) < maxIdBit && at < Capacity(layers)
    {
      InCapacity(at, layers);
      CapacityMonotone(layers, MAX_LEVEL - 1);
      CapacityMonotone(e, layers);
    }

    /** How far the search still has to go: down, back up, and down again. */
    static ghost function Rank(f: Phase): nat {
      match f
      case Onset => 2
      case Back => 1
      case Down => 0
    }

    ghost function Distance(f: Phase, l: nat): nat
      reads this`layers
    {
      if f == Back && l < layers then layers - l else l
    }

    ghost predicate Closer(f': Phase, l': nat, f: Phase, l: nat)
      reads this`layers
    {
      Rank(f') < Rank(f) || (f' == f && Distance(f', l') < Distance(f, l))
    }

    /** The step back to the layer above; beyond the top the search ends. */
    method Climb(id: nat, l: nat, pa: seq<Layer>, ghost ptr: Entry, ghost q: Quest, ghost f: Phase, ghost at: nat,
                 ghost p: Layer)
      returns (done: bool, id': nat, p': Layer, ghost f': Phase, ghost at': nat, ghost e': nat)
      requires Seeking(q, f, at, 0, l, p, pa) && f != Down && Sized(tree.tab[PathPos(at, l)]) && id == at
      requires forall d :: Digit(at, l) <= d < IDR_SIZE ==> tree.tab[PathPos(at, l)].bits[d]
      ensures done ==> Result(-2, id', ptr, q, entries, at', e') && !Astray(q.start)
      ensures !done ==> Seeking(q, f', at', e', l + 1, p', pa) && id' == Lifted(at', e')
      ensures !done ==> Closer(f', l + 1, f, l)
    {
      id' := Shl(Shr(id, l + 1) + 1, l + 1);
      p' := pa[l + 1];
      f', at', e' := Back, id', 0;
      if l + 1 < layers {
        LayerAbove(q, f, at, l, p, pa);
        if Digit(q.start, l + 1) < IDR_SIZE - 1 {
          at' := ClimbedBack(q, f, at, l, p, pa);
        } else {
          at' := ClimbedAstray(q, f, at, l, p, pa);
          f', e' := Down, l + 2;
        }
      } else {
        ClimbedOut(q, f, at, l, p, pa);
      }
      done := p' == NULL;
    }

    /** A step down from a chosen slot, or the end of the search. */
    method Proceed(ptr: Entry, id: nat, m: nat, l: nat, p: Layer, pa: seq<Layer>,
                   ghost q: Quest, ghost f: Phase, ghost at: nat, ghost e: nat)
      returns (done: bool, ret: int, l': nat, p': Layer, pa': seq<Layer>)
      requires Chose(q, at, e, l, m, p, pa) && id == Lifted(at, e) && !ptr.Sub? && f == PhaseBelow(q, at, e, l)
      modifies this`mem, this`idFree, this`idFreeCnt, this`spare, this`tree, this`entries
      ensures layers == old(layers)
      ensures done ==> Result(ret, id, ptr, q, old(entries), at, e) && ret != -2 && old(Destined(q.start, at, e))
      ensures !done ==> Seeking(q, f, at, e, l', p', pa') && l' < l && entries == old(entries)
    {
      done, l', p', pa' := true, l, p, pa;
      InRange(q, at, e, l, p, pa);
      if id >= maxIdBit {
        ret := -3;
        assert false;
      } else if l == 0 {
        ret := id;
        PlantFound(p, m, ptr, id, pa, q, at, e);
      } else {
        ret, l' := -1, l - 1;
        p', pa' := Descend(p, m, l, pa, q, at, e);
        done := p' == NULL;
      }
    }

    /** One round of the search. */
    method SearchRound(ptr: Entry, id: nat, l: nat, p: Layer, pa: seq<Layer>,
                       ghost q: Quest, ghost f: Phase, ghost at: nat, ghost e: nat)
      returns (done: bool, ret: int, id': nat, l': nat, p': Layer, pa': seq<Layer>,
               ghost f': Phase, ghost at': nat, ghost e': nat)
      requires Seeking(q, f, at, e, l, p, pa) && id == Lifted(at, e) && !ptr.Sub?
      modifies this`mem, this`idFree, this`idFreeCnt, this`spare, this`tree, this`entries
      ensures layers == old(layers)
      ensures done ==> Result(ret, id', ptr, q, old(entries), at', e')
      ensures done ==> if ret == -2 then !old(Astray(q.start)) else old(Destined(q.start, at', e'))
      ensures !done ==> Seeking(q, f', at', e', l', p', pa') && id' == Lifted(at', e') && entries == old(entries)
      ensures !done ==> Closer(f', l', f, l)
    {
      var m;
      m, id', at' := PickSlot(p, id, l, pa, q, f, at, e);
      if m == IDR_SIZE {
        ret, l', pa' := -2, l + 1, pa;
        done, id', p', f', at', e' := Climb(id', l, pa, ptr, q, f, at, p);
      } else {
        f', e' := PhaseBelow(q, at', e, l), e;
        done, ret, l', p', pa' := Proceed(ptr, id', m, l, p, pa, q, f', at', e);
      }
    }

    lemma StartSeek(starting: nat, pa: seq<Layer>)
      requires Valid() && layers > 0 && starting < Capacity(layers) && |pa| == MAX_LEVEL && pa[layers] == NULL
      ensures Seeking(Quest(starting, tree, spare), Onset, starting, 0, layers - 1, top, pa)
    {
      InCapacity(starting, layers);
    }

    /** The loop of sub_alloc, from the top. */
    method Search(ptr: Entry, starting: nat, p0: Layer, l0: nat, pa0: seq<Layer>, ghost q: Quest)
      returns (ret: int, next: nat, ghost at: nat, ghost e: nat)
      requires Seeking(q, Onset, starting, 0, l0, p0, pa0) && q.start == starting && !ptr.Sub?
      modifies this`mem, this`idFree, this`idFreeCnt, this`spare, this`tree, this`entries
      ensures layers == old(layers) && Result(ret, next, ptr, q, old(entries), at, e)
      ensures if ret == -2 then !old(Astray(starting)) else old(Destined(starting, at, e))
    {
      ghost var f := Onset;
      var p, l, pa := p0, l0, pa0;
      next, at, e := starting, starting, 0;
      while true
        invariant Seeking(q, f, at, e, l, p, pa) && next == Lifted(at, e)
        invariant entries == old(entries) && layers == old(layers)
        decreases Rank(f), Distance(f, l)
      {
        var done;
        done, ret, next, l, p, pa, f, at, e := SearchRound(ptr, next, l, p, pa, q, f, at, e);
        if done {
          return;
        }
      }
    }

    /**
      sub_alloc: the first free id from the start id on gets the pointer, or the tree has no room
      there (-2), or a layer is missing (-1).  The id returned is the one the pointer is stored
      under exactly if the search does not go astray.  In a tree of MAX_LEVEL layers the first write
      to the path is beyond its end (ok is false).
     */
    method SubAlloc(ptr: Entry, starting: nat) returns (ok: bool, ret: int, next: nat, ghost at: nat, ghost e: nat)
      requires 0 < layers && (layers < MAX_LEVEL ==> Valid() && starting < Capacity(layers)) && !ptr.Sub?
      modifies this`mem, this`idFree, this`idFreeCnt, this`spare, this`tree, this`entries
      ensures layers == old(layers) && (ok <==> layers < MAX_LEVEL)
      ensures !ok ==> entries == old(entries)
      ensures ok ==>
        && Result(ret, next, ptr, Quest(starting, old(tree), old(spare)), old(entries), at, e)
        && if ret == -2 then !old(Astray(starting)) else old(Destined(starting, at, e))
    {
      var p, l: nat := top, layers;
      var pa: seq<Layer> := seq(MAX_LEVEL, i => NULL);
      ok, ret, next, at, e := l < |pa|, 0, starting, starting, 0;
      if ok {
        pa, l := pa[l := NULL], l - 1;
        StartSeek(starting, pa);
        ret, next, at, e := Search(ptr, starting, p, l, pa, Quest(starting, tree, spare));
      }
    }

    // ---------- growing the tree ----------

    /** The memory holds g and the free list, apart from each other, and no layer is lost. */
    ghost predicate Shell(g: Graph, held: nat)
      reads this
    {
      FreeOk() && Backs(mem, g) && Apart(g, spare) && |g.tab| + |spare| + held + returned == obtained
    }

    /** The new layer becomes the top: the old one is its only child, with its bit set if that is full. */
    method GrowTop(p: Layer, layer: Layer, ghost g: Graph)
      requires Shell(g, 1) && Wf(g) && g.layers > 0 && p == TopOf(g)
      requires layer != NULL && layer in mem && mem[layer] == Blank() && Foreign(g, layer) && layer !in spare
      modifies this`mem
      ensures Shell(Grown(g, layer), 0) && Wf(Grown(g, layer)) && SameIds(g, Grown(g, layer))
      ensures TopOf(Grown(g, layer)) == layer
    {
      ghost var top, mem0 := Pos(g.layers - 1, 0), mem;
      GrownWf(g, layer);
      GrownIds(g, layer);
      assert LinksOk(g.tab, top) && Backed(mem, g.tab[top]);
      assert forall q <- g.tab :: Placed(g, q);
      var bits := if Full(mem[p].bitmap) then mem[layer].bitmap[0 := true] else mem[layer].bitmap;
      mem := mem[layer := Record(bits, mem[layer].ary[0 := Sub(p)], 1)];
      TreeFrame(mem0, mem, g, layer);
      FreeFrame(mem0, mem, idFree, spare);
      AddNode(mem, g, g.layers + 1, Pos(g.layers, 0), Grown(g, layer).tab[Pos(g.layers, 0)]);
    }

    /** A layer is made blank but for its first slot, and goes to the free list. */
    method Recycle(n: Layer)
      requires FreeOk() && n !in spare && n != NULL && n in mem
      requires |mem[n].ary| == IDR_SIZE && mem[n].ary[0 := Nil] == NoLinks()
      modifies this`mem, this`idFree, this`idFreeCnt, this`spare
      ensures FreeOk() && spare == [n] + old(spare)
      ensures mem.Keys == old(mem).Keys && forall q <- mem :: q != n ==> mem[q] == old(mem)[q]
    {
      ghost var mem0 := mem;
      mem := mem[n := Record(NoBits(), mem[n].ary, 0)];
      FreeFrame(mem0, mem, idFree, spare);
      assert mem[n].ary[0 := Nil][0 := mem[n].ary[0]] == mem[n].ary;
      FreeLayer(n);
    }

    /** A slot of a layer that is not spare is cleared. */
    method Unlink(n: Layer, m: nat)
      requires FreeOk() && n !in spare && n in mem && m < |mem[n].ary|
      modifies this`mem
      ensures FreeOk() && mem == old(mem)[n := old(mem)[n].(ary := old(mem)[n].ary[m := Nil])]
    {
      mem := mem[n := mem[n].(ary := mem[n].ary[m := Nil])];
      FreeFrame(old(mem), mem, idFree, spare);
    }

    /** One layer of a half-built top goes back to the free list. */
    method TearOne(n: Layer, ghost g: Graph) returns (below: Layer)
      requires Shell(g, 0) && Extends(tree, g) && tree.layers < g.layers && Injective(g.tab) && n == TopOf(g)
      modifies this`mem, this`idFree, this`idFreeCnt, this`spare
      ensures Shell(Dropped(g), 0) && Extends(tree, Dropped(g)) && Injective(Dropped(g).tab)
        && below == TopOf(Dropped(g))
    {
      CutExtends(tree, g);
      CutBacks(mem, g, spare);
      CutLink(mem, tree, g);
      below := mem[n].ary[0].layer;
      Unlink(n, 0);
      Recycle(n);
      TreeFrame(old(mem), mem, Dropped(g), n);
    }

    /** The loop that gives back the layers of a half-built top. */
    method TearDown(from: Layer, ghost g0: Graph)
      requires Shell(g0, 0) && Extends(tree, g0) && Injective(g0.tab) && from == TopOf(g0)
      requires top == TopOf(tree) && Pos(tree.layers - 1, 0) in tree.tab
      modifies this`mem, this`idFree, this`idFreeCnt, this`spare
      ensures Shell(tree, 0)
    {
      var p := from;
      ghost var g := g0;
      while p != NULL && p != top
        invariant Shell(g, 0) && Extends(tree, g) && Injective(g.tab) && p == TopOf(g)
        decreases g.layers
      {
        if g.layers == tree.layers {
          ExtendsNothing(tree, g);
          assert false;
        }
        p := TearOne(p, g);
        g := Dropped(g);
      }
      ChainStart(mem, tree, g);
      ExtendsNothing(tree, g);
    }

    /**
      What the growth loop maintains about the tree under construction: it stands for the same
      ids, and either nothing was stored yet or new tops were put on the old one.
     */
    ghost predicate Building(g: Graph, p: Layer, spareBefore: nat)
      reads this
    {
      && Shell(g, 0) && Wf(g) && SameIds(tree, g) && 0 < g.layers <= MAX_LEVEL && p == TopOf(g)
      && g.layers >= tree.layers && |spare| + Tops(tree, g.layers) == spareBefore && (Stocked(g) <==> Stocked(tree))
      && (Stocked(g) ==> Extends(tree, g))
      && (g.layers == tree.layers ==> g == tree)
      && (forall q {:trigger q in g.tab} :: q in g.tab ==> OldOrTop(tree, g, q))
    }

    /** An empty top serves at any height. */
    lemma RaiseEmpty(g: Graph, g': Graph, p: Layer, spareBefore: nat)
      requires 0 < g.layers < MAX_LEVEL && g == Alone(g.layers, p) && g' == Alone(g.layers + 1, p)
      requires Building(g, p, spareBefore)
      ensures Building(g', p, spareBefore)
    {
      AloneSame(tree, g.layers, g'.layers, p);
      AloneWf(g'.layers, p);
      AloneShell(mem, g.layers, g'.layers, p, spare);
      AlonePlaces(tree, g', p);
    }

    static lemma AlonePlaces(g0: Graph, g: Graph, p: Layer)
      requires 0 < g.layers && g0.layers < g.layers && g == Alone(g.layers, p)
      ensures forall q {:trigger q in g.tab} :: q in g.tab ==> OldOrTop(g0, g, q)
    {
    }

    /** The first layer of an empty tree. */
    method FirstLayer() returns (p: Layer)
      requires Valid() && layers == 0
      modifies this`mem, this`idFree, this`idFreeCnt, this`spare
      ensures p == NULL ==> mem == old(mem) && Valid() && old(spare) == []
      ensures p != NULL ==> Building(Alone(1, p), p, old(|spare|))
    {
      EmptyTree();
      p := AllocLayer();
      if p != NULL {
        assert p in old(spare);
        AloneWf(1, p);
        ghost var g := Alone(1, p);
        assert g.tab.Keys == {Pos(0, 0)} && |g.tab| == |g.tab.Keys|;
        assert Backs(mem, g) && Apart(g, spare) && !Stocked(g);
        forall k: nat
          ensures (Allocated(g, k) <==> Allocated(tree, k)) && Stored(g, k) == Stored(tree, k)
        {
          assert !Allocated(g, k) && Stored(g, k) == Nil;
        }
      }
    }

    lemma NothingStored()
      requires Valid()
      ensures layers == 0 ==> entries == map[]
    {
      if layers == 0 {
        EmptyTree();
        forall k: nat
          ensures k !in entries
        {
          assert k in entries <==> Allocated(tree, k);
        }
      }
    }

    lemma EmptyTree()
      requires Around(0) && Shaped(tree) && layers == 0
      ensures tree.tab == map[] && top == NULL
    {
      assert forall p <- tree.tab :: Placed(tree, p);
      assert tree.tab.Keys == {};
    }

    /** What the top pointer says about the tree. */
    lemma TopMeaning(g: Graph, p: Layer, spareBefore: nat)
      requires Building(g, p, spareBefore)
      ensures p in mem && (mem[p].count == 0 <==> !Stocked(g))
      ensures mem[p].count == 0 ==> g == Alone(g.layers, p)
    {
      assert Backed(mem, g.tab[Pos(g.layers - 1, 0)]);
      if mem[p].count == 0 {
        EmptyTop(g);
      }
    }

    lemma TopNull()
      requires Around(0) && Shaped(tree)
      ensures top == NULL <==> layers == 0
    {
      if layers > 0 {
        assert Backed(mem, tree.tab[Pos(layers - 1, 0)]);
      }
    }

    lemma StartBuilding()
      requires Valid() && top != NULL
      ensures Building(tree, top, |spare|)
    {
      TopNull();
      ExtendsItself(tree);
    }

    /** No layer for a further top: those put on so far are given back. */
    method GiveUp(p: Layer, ghost g: Graph, ghost spareBefore: nat)
      requires Building(g, p, spareBefore) && Stocked(g) && spare == [] && top == TopOf(tree) && Wf(tree)
      modifies this`mem, this`idFree, this`idFreeCnt, this`spare
      ensures Shell(tree, 0) && spareBefore == Tops(tree, g.layers)
    {
      TearDown(p, g);
    }

    /** Putting one more top on a tree that holds something. */
    method GrowStep(p: Layer, ghost g: Graph, ghost spareBefore: nat) returns (layer: Layer)
      requires Building(g, p, spareBefore) && Wf(tree) && g.layers < MAX_LEVEL
      requires Stocked(g) && top == TopOf(tree)
      modifies this`mem, this`idFree, this`idFreeCnt, this`spare
      ensures layer == NULL ==> Shell(tree, 0) && spareBefore == Tops(tree, g.layers)
      ensures layer != NULL ==> Building(Grown(g, layer), layer, spareBefore)
    {
      layer := AllocLayer();
      if layer == NULL {
        GiveUp(p, g, spareBefore);
      } else {
        assert layer in old(spare);
        TreeFrame(old(mem), mem, g, layer);
        GrownExtends(tree, g, layer);
        GrownIds(g, layer);
        GrownPlaces(g, layer);
        GrowTop(p, layer, g);
        SameIdsTrans(tree, g, Grown(g, layer));
      }
    }

    lemma GrownPlaces(g: Graph, layer: Layer)
      requires 0 < g.layers && g.layers >= tree.layers && Pos(g.layers - 1, 0) in g.tab && Stocked(tree)
      requires forall q {:trigger q in g.tab} :: q in g.tab ==> OldOrTop(tree, g, q)
      ensures forall q {:trigger q in Grown(g, layer).tab} :: q in Grown(g, layer).tab ==>
        OldOrTop(tree, Grown(g, layer), q)
    {
    }

    /** One round of the growth loop: an empty top is raised, any other gets a new top above it. */
    method GrowRound(p: Layer, ghost g: Graph, ghost spareBefore: nat) returns (ok: bool, p': Layer, ghost g': Graph)
      requires Building(g, p, spareBefore) && Wf(tree) && top == TopOf(tree) && g.layers < MAX_LEVEL
      modifies this`mem, this`idFree, this`idFreeCnt, this`spare
      ensures ok ==> Building(g', p', spareBefore) && g'.layers == g.layers + 1
      ensures !ok ==> Shell(tree, 0) && Stocked(tree) && spareBefore == Tops(tree, g.layers)
    {
      TopMeaning(g, p, spareBefore);
      if mem[p].count == 0 {
        ok, p', g' := true, p, Alone(g.layers + 1, p);
        RaiseEmpty(g, g', p, spareBefore);
      } else {
        p' := GrowStep(p, g, spareBefore);
        ok, g' := p' != NULL, Grown(g, p');
      }
    }

    /** The growth loop with a top of count layers: no more than id needs. */
    ghost predicate Growing(g: Graph, p: Layer, count: nat, id: nat, spareBefore: nat)
      reads this
    {
      Building(g, p, spareBefore) && g.layers == count > 0 && HeightFor(id, count) == HeightOf(tree, id)
    }

    /** A height that is not enough. */
    static lemma OneMoreTop(g0: Graph, count: nat, id: nat)
      requires g0.layers <= count < MAX_LEVEL && id >= Capacity(count) && HeightFor(id, count) == HeightOf(g0, id)
      ensures HeightFor(id, count + 1) == HeightOf(g0, id)
      ensures (Stocked(g0) ==> Tops(g0, count) < Tops(g0, HeightOf(g0, id)))
    {
    }

    /** The loop that puts new tops on; a failure part of the way gives them back. */
    method GrowLoop(p0: Layer, count0: nat, id: nat, ghost g0: Graph, ghost spareBefore: nat)
      returns (ok: bool, p: Layer, count: nat, ghost g: Graph)
      requires Growing(g0, p0, count0, id, spareBefore) && Wf(tree) && top == TopOf(tree)
      modifies this`mem, this`idFree, this`idFreeCnt, this`spare
      ensures ok ==> Growing(g, p, count, id, spareBefore) && count == HeightOf(tree, id)
      ensures !ok ==> Shell(tree, 0) && spareBefore < Tops(tree, HeightOf(tree, id))
    {
      ok, p, count, g := true, p0, count0, g0;
      while count < MAX_LEVEL && id >= Capacity(count)
        invariant Growing(g, p, count, id, spareBefore)
        decreases MAX_LEVEL - count
      {
        OneMoreTop(tree, count, id);
        ok, p, g := GrowRound(p, g, spareBefore);
        count := count + 1;
        if !ok {
          return;
        }
      }
    }

    /** What the build-up starts from: the top of the tree, or a first layer. */
    method Foundation(ghost id: nat) returns (p: Layer, count: nat, ghost g: Graph)
      requires Valid()
      modifies this`mem, this`idFree, this`idFreeCnt, this`spare
      ensures p == NULL ==> Valid() && old(spare) == [] == spare && layers == 0
      ensures p != NULL ==> Growing(g, p, count, id, old(|spare|))
    {
      p, count, g := top, layers, tree;
      TopNull();
      if p == NULL {
        p := FirstLayer();
        count := 1;
        if p != NULL {
          g := Alone(1, p);
        }
      } else {
        StartBuilding();
      }
    }

    /** The tree under construction becomes the tree. */
    method Install(p: Layer, count: nat, ghost g: Graph, ghost id: nat, ghost spareBefore: nat)
      requires Growing(g, p, count, id, spareBefore) && Denotes(tree, entries)
        && 2 * Capacity(MAX_LEVEL - 1) <= maxIdBit
      modifies this`top, this`layers, this`tree
      ensures top == p && layers == count && tree == g && (count < MAX_LEVEL ==> Valid())
    {
      Settled(tree, g, entries);
      top, layers, tree := p, count, g;
    }

    /**
      idr_get_new_above_int up to the search: a top high enough for id, exactly if there are layers
      enough for the new tops it takes.  A failure part of the way leaves the tree as it was.
     */
    method BuildUp(id: nat) returns (ok: bool)
      requires Valid()
      modifies this`mem, this`top, this`layers, this`idFree, this`idFreeCnt, this`spare, this`tree
      ensures ok <==> old(|spare| >= Tops(tree, HeightOf(tree, id)))
      ensures !ok ==> Valid() && tree == old(tree) && layers == old(layers) && |spare| == old(|spare|)
      ensures ok ==> layers == tree.layers == old(HeightOf(tree, id)) && GrownFor(old(tree), tree, id)
      ensures ok && layers < MAX_LEVEL ==> Valid() && |spare| == old(|spare| - Tops(tree, HeightOf(tree, id)))
    {
      ghost var before := |spare|;
      var p, count; ghost var g;
      p, count, g := Foundation(id);
      if p == NULL {
        return false;
      }
      ok, p, count, g := GrowLoop(p, count, id, g, before);
      assert ok ==> GrownFor(tree, g, id);
      if ok {
        Install(p, count, g, id, before);
      }
    }

    // ---------- idr_pre_get and idr_get_new ----------

    /** A layer from the slab cache joins the free list. */
    method Stock(layer: Layer)
      requires Valid() && layer != NULL && layer !in mem
      modifies this`mem, this`idFree, this`idFreeCnt, this`spare, this`obtained
      ensures Valid() && spare == [layer] + old(spare) && mem.Keys == old(mem).Keys + {layer}
        && obtained == old(obtained) + 1
    {
      NotInMemory(layer);
      Obtain(layer);
      assert NoLinks()[0 := Nil] == NoLinks();
      ghost var mem0 := mem;
      FreeLayer(layer);
      TreeFrame(mem0, mem, tree, layer);
      obtained := obtained + 1;
    }

    /** The slab cache hands out a blank layer. */
    method Obtain(layer: Layer)
      requires Valid() && layer != NULL && layer !in mem
      modifies this`mem
      ensures Valid() && mem == old(mem)[layer := Blank()]
    {
      NotInMemory(layer);
      mem := mem[layer := Blank()];
      FreeFrame(old(mem), mem, idFree, spare);
      TreeFrame(old(mem), mem, tree, layer);
    }

    lemma NotInMemory(layer: Layer)
      requires Valid() && layer !in mem
      ensures Foreign(tree, layer) && layer !in spare
    {
      forall p | p in tree.tab
        ensures tree.tab[p].obj != layer
      {
        assert Backed(mem, tree.tab[p]);
      }
      forall i: nat | i < |spare|
        ensures spare[i] != layer
      {
        assert SpareOk(mem, spare, i);
      }
    }

    /** idr_pre_get; grants are the layers the slab cache has to give. */
    method PreGet(grants: seq<Layer>) returns (ok: bool)
      requires Valid()
      requires forall i :: 0 <= i < |grants| ==> grants[i] != NULL && grants[i] !in mem
      requires forall i, j :: 0 <= i < j < |grants| ==> grants[i] != grants[j]
      modifies this`mem, this`idFree, this`idFreeCnt, this`spare, this`obtained
      ensures Valid()
      ensures ok ==> idFreeCnt == if old(idFreeCnt) < IDR_FREE_MAX then IDR_FREE_MAX else old(idFreeCnt)
      ensures !ok ==> obtained == old(obtained) + |grants| && idFreeCnt < IDR_FREE_MAX
    {
      var k := 0;
      while idFreeCnt < IDR_FREE_MAX
        invariant Valid() && k <= |grants| && obtained == old(obtained) + k && idFreeCnt == old(idFreeCnt) + k
        invariant k > 0 ==> idFreeCnt <= IDR_FREE_MAX
        invariant forall i :: k <= i < |grants| ==> grants[i] != NULL && grants[i] !in mem
        decreases |grants| - k
      {
        if k == |grants| {
          return false;
        }
        Stock(grants[k]);
        k := k + 1;
      }
      ok := true;
    }

    /** A free start id is the one to be given out. */
    lemma FreeDestined(start: nat, at: nat, e: nat)
      requires start !in entries && Destined(start, at, e)
      ensures at == start && e == 0
    {
      FreeStart(start);
    }

    /** Growth for an id changes nothing for its search: there is none unless the id is free. */
    method Prepare(id: nat) returns (ok: bool)
      requires Valid()
      modifies this`mem, this`top, this`layers, this`idFree, this`idFreeCnt, this`spare, this`tree
      ensures ok <==> old(|spare| >= Tops(tree, HeightOf(tree, id)))
      ensures !ok ==> Valid() && id !in entries
      ensures ok ==> layers == tree.layers == old(HeightOf(tree, id)) && GrownFor(old(tree), tree, id)
      ensures ok && layers < MAX_LEVEL ==> Valid() && |spare| == old(|spare| - Tops(tree, HeightOf(tree, id)))
      ensures ok ==> (Astray(id) <==> old(Astray(id)))
      ensures ok ==> forall at: nat, e: nat :: Destined(id, at, e) <==> old(Destined(id, at, e))
      ensures tree.layers > old(tree.layers) ==> id !in entries
      ensures id !in entries ==> !old(Astray(id)) && old(Destined(id, id, 0))
      ensures id !in entries ==> forall at: nat, e: nat :: old(Destined(id, at, e)) ==> at == id && e == 0
    {
      StoredMeaning(id);
      NothingStored();
      HeightMeans(id, if layers == 0 then 1 else layers);
      ghost var free := id !in entries;
      if free {
        OnlyDestination(id);
      }
      ok := BuildUp(id);
      if free {
        OnlyDestination(id);
      }
    }

    lemma OnlyDestination(id: nat)
      requires id !in entries
      ensures !Astray(id) && forall at: nat, e: nat :: Destined(id, at, e) <==> at == id && e == 0
    {
      FreeStart(id);
      forall at: nat, e: nat | Destined(id, at, e)
        ensures at == id && e == 0
      {
        FreeDestined(id, at, e);
      }
    }

    /** Any other position than an old one is on the way to the new id, or in the chain of new tops. */
    static ghost predicate Extended(g0: Graph, g: Graph, at: nat) {
      forall p {:trigger p in g.tab} :: p in g.tab ==> p == PathPos(at, p.level) || OldOrTop(g0, g, p)
    }

    /** The search in a tree g0 that was grown for id, with n layers to spare before. */
    method SearchGrown(ptr: Entry, id: nat, ghost g0: Graph, ghost n: nat)
      returns (ok: bool, rv: int, next: nat, ghost at: nat, ghost e: nat)
      requires layers == tree.layers && GrownFor(g0, tree, id) && Shaped(g0) && layers <= MAX_LEVEL && !ptr.Sub?
      requires layers < MAX_LEVEL ==> Valid() && |spare| + Tops(g0, layers) == n
      requires layers > g0.layers ==> id !in entries
      modifies this`mem, this`idFree, this`idFreeCnt, this`spare, this`tree, this`entries
      ensures layers == old(layers) && (ok <==> layers < MAX_LEVEL) && (!ok || rv < 0 ==> entries == old(entries))
      ensures ok ==> (rv == -1 || rv == -2 || rv >= 0) && (rv < 0 ==> Valid())
      ensures ok && rv == -2 ==> tree == old(tree) && spare == old(spare) && !old(Astray(id))
      ensures ok && rv == -2 ==> next == Capacity(layers) && TakenFrom(id, next)
      ensures ok && rv != -2 ==> old(Destined(id, at, e)) && HeightOf(g0, at) == layers
      ensures ok && rv == -1 ==> n < Missing(g0, at)
      ensures ok && rv >= 0 ==> Placement(rv, ptr, old(entries), at, e)
      ensures ok && rv >= 0 ==> |spare| + Missing(g0, at) == n && Extended(g0, tree, at)
    {
      ghost var g := tree;
      if layers > g0.layers {
        OnlyDestination(id);
      }
      ok, rv, next, at, e := SubAlloc(ptr, id);
      if ok && rv != -2 {
        MissingGrown(g0, g, id, at);
        SearchedExtended(g0, g, tree, Quest(id, g, old(spare)), id, at, |spare|);
      }
    }

    /** The layers of a search come on top of those of the growth. */
    static lemma SearchedExtended(g0: Graph, g: Graph, g': Graph, q: Quest, id: nat, at: nat, n: nat)
      requires GrownFor(g0, g, id) && q.was == g
      ensures g'.layers == g.layers && Walked(q, at, 0, g.layers, g'.tab, n) ==> Extended(g0, g', at)
    {
    }

    /** One round: grow as needed, then search. */
    method Attempt(ptr: Entry, id: nat) returns (ok: bool, rv: int, next: nat, ghost at: nat, ghost e: nat)
      requires Valid() && !ptr.Sub?
      modifies this`mem, this`top, this`layers, this`idFree, this`idFreeCnt, this`spare, this`tree, this`entries
      ensures ok ==> rv == -1 || rv == -2 || rv >= 0
      ensures !ok || rv < 0 ==> entries == old(entries)
      ensures ok && rv < 0 ==> Valid()
      ensures ok && rv == -2 ==> tree == old(tree) && |spare| == old(|spare|) && !old(Astray(id))
      ensures ok && rv == -2 ==> next == Capacity(layers) > id && TakenFrom(id, next)
      ensures !ok || rv != -2 ==> old(Destined(id, at, e))
      ensures !ok ==> old(HeightOf(tree, at) == MAX_LEVEL && |spare| >= Missing(tree, at))
      ensures ok && rv == -1 ==> old(|spare| < Missing(tree, at))
      ensures ok && rv >= 0 ==> Placement(rv, ptr, old(entries), at, e)
      ensures ok && rv >= 0 ==> layers == old(HeightOf(tree, at)) && |spare| == old(|spare|) - Missing(old(tree), at)
      ensures ok && rv >= 0 ==> Extended(old(tree), tree, at)
    {
      var built := Prepare(id);
      ok, next, at, e := true, id, id, 0;
      if !built {
        rv := -1;
        return;
      }
      ok, rv, next, at, e := SearchGrown(ptr, id, old(tree), old(|spare|));
      if !ok {
        at, e := id, 0;
      }
    }

    /** Beyond a full tree nothing is taken. */
    lemma NextTop(start: nat, next: nat)
      requires Valid() && next == Capacity(layers) && TakenFrom(start, next) && start <= next && !Astray(start)
      ensures next !in entries
      ensures forall at: nat, e: nat :: Destined(next, at, e) ==> at == next && e == 0 && Destined(start, at, e)
    {
      StoredMeaning(next);
      OnlyDestination(next);
    }

    /** An allocation that succeeds leaves no layer without an id, if there was none. */
    static lemma StaysTidy(g0: Graph, m: map<nat, Entry>, g: Graph, at: nat, ptr: Entry)
      requires Shaped(g0) && Extended(g0, g, at) && at < Capacity(g.layers)
      requires forall p {:trigger Inhabited(m, p)} :: p in g0.tab ==> Inhabited(m, p)
      ensures forall p {:trigger Inhabited(m[at := ptr], p)} :: p in g.tab ==> Inhabited(m[at := ptr], p)
    {
      var m' := m[at := ptr];
      forall p | p in g.tab
        ensures Inhabited(m', p)
      {
        assert at in m';
        if p != PathPos(at, p.level) {
          NewTopInhabited(g0, m, g, at, p);
          var id: nat :| id in m && PathPos(id, p.level) == p;
          assert id in m';
        }
      }
    }

    static lemma NewTopInhabited(g0: Graph, m: map<nat, Entry>, g: Graph, at: nat, p: Pos)
      requires Shaped(g0) && OldOrTop(g0, g, p) && p != PathPos(at, p.level) && at < Capacity(g.layers)
      requires forall q {:trigger Inhabited(m, q)} :: q in g0.tab ==> Inhabited(m, q)
      ensures Inhabited(m, p)
    {
      if p !in g0.tab {
        InCapacity(at, g.layers);
        assert Stocked(g0);
        ChainInhabited(m, g0.layers - 1, p);
      }
    }

    /**
      idr_get_new_above_int: the smallest unused id from start on gets the pointer and is returned,
      exactly if the search does not go astray; otherwise the pointer is stored under the smallest
      unused id of the block in which it does, which is below start, and the id returned is another
      one.  It fails with -1 (reported as EAGAIN) exactly if the free list is shorter than the number
      of layers missing, and then nothing is allocated.  ok is false if the search would write beyond
      its path, which it does exactly if the id needs MAX_LEVEL layers and those are to be had.
     */
    method GetNewAbove(ptr: Entry, start: nat) returns (ok: bool, rv: int, ghost at: nat, ghost e: nat)
      requires Valid() && !ptr.Sub?
      modifies this`mem, this`top, this`layers, this`idFree, this`idFreeCnt, this`spare, this`tree, this`entries
      ensures old(Destined(start, at, e))
      ensures ok <==> old(HeightOf(tree, at) < MAX_LEVEL || idFreeCnt < Missing(tree, at))
      ensures ok ==> (rv == -1 || rv >= 0) && (rv == -1 <==> old(idFreeCnt < Missing(tree, at)))
      ensures ok && rv == -1 ==> Valid() && entries == old(entries)
      ensures ok && rv >= 0 ==> Placement(rv, ptr, old(entries), at, e)
      ensures ok && rv >= 0 ==> if old(Astray(start)) then at < start < rv else start <= at == rv
      ensures ok && rv >= 0 ==>
        layers == old(HeightOf(tree, at)) && idFreeCnt == old(idFreeCnt) - Missing(old(tree), at)
      ensures ok && rv >= 0 && old(Tidy()) ==> Tidy()
    {
      ghost var g0 := tree;
      var id := start;
      forall at: nat, e: nat | Destined(start, at, e)
        ensures e > 0 <==> Astray(start)
        ensures if e > 0 then at < start < Lifted(at, e) else start <= at == Lifted(at, e)
      {
        DestinedSides(start, at, e);
      }
      while true
        invariant Valid() && entries == old(entries) && tree == old(tree) && |spare| == old(|spare|)
        invariant id != start ==>
          id !in entries && start in entries && !Astray(start) && start < id && TakenFrom(start, id)
        invariant id != start ==>
          forall at: nat, e: nat :: Destined(id, at, e) ==> at == id && e == 0 && Destined(start, at, e)
        decreases if id == start then 1 else 0
      {
        ghost var from := id;
        if id > start {
          FreeStart(id);
        }
        ok, rv, id, at, e := Attempt(ptr, id);
        if !ok || rv != -2 {
          if ok && rv >= 0 && old(Tidy()) {
            StaysTidy(g0, old(entries), tree, at, ptr);
          }
          return;
        }
        NextTop(start, id);
      }
    }

    /** Nothing leads astray from 0. */
    lemma ZeroNotAstray()
      ensures !Astray(0)
    {
      if i: nat :| AstrayAt(0, i) {
        ShrZero(i);
      }
    }

    /**
      idr_get_new: the smallest unused id gets the pointer, exactly if the free list has the layers
      that are missing on its way; otherwise -1 (reported as EAGAIN), and nothing is allocated.  ok is
      false exactly if the id needs MAX_LEVEL layers and those are to be had.
     */
    method GetNew(ptr: Entry) returns (ok: bool, rv: int, ghost at: nat)
      requires Valid() && !ptr.Sub?
      modifies this`mem, this`top, this`layers, this`idFree, this`idFreeCnt, this`spare, this`tree, this`entries
      ensures old(at !in entries && TakenFrom(0, at))
      ensures ok <==> old(at < Capacity(MAX_LEVEL - 1) || idFreeCnt < Missing(tree, at))
      ensures ok ==> Valid() && rv == if old(idFreeCnt < Missing(tree, at)) then -1 else at
      ensures ok ==> entries == if rv == -1 then old(entries) else old(entries)[at := ptr]
      ensures ok && rv >= 0 ==>
        layers == old(HeightOf(tree, at)) && idFreeCnt == old(idFreeCnt) - Missing(old(tree), at)
      ensures ok && rv >= 0 && old(Tidy()) ==> Tidy()
    {
      ZeroNotAstray();
      ghost var e, g := 0, tree;
      ok, rv, at, e := GetNewAbove(ptr, 0);
      HeightMeans(at, if g.layers == 0 then 1 else g.layers);
    }

    /** What idr_pre_get leaves is enough. */
    lemma StockedUp(at: nat)
      requires Valid() && HeightOf(tree, at) < MAX_LEVEL
      ensures Missing(tree, at) < IDR_FREE_MAX
    {
    }

    /** With all layers of the way there, no layer is needed. */
    lemma NothingMissing(at: nat)
      requires Valid() && 0 < layers && at < Capacity(layers)
      requires forall l: nat :: l < layers ==> PathPos(at, l) in tree.tab
      ensures HeightOf(tree, at) == layers && Missing(tree, at) == 0
    {
      HeightMeans(at, layers);
      AbsentNone(tree.tab, at, 0, layers - 1);
    }

    // ---------- idr_find ----------

    /** The bits of an id that count. */
    function Masked(id: int): (r: nat)
      ensures 0 <= id < maxIdBit ==> r == id
    {
      id % maxIdBit
    }

    /** The slot on id's path at level l leads to the next layer, or to the pointer. */
    lemma FindStep(id: nat, l: nat, p: Layer)
      requires Around(0) && Shaped(tree) && l < layers && PathPos(id, l) in tree.tab
        && p == tree.tab[PathPos(id, l)].obj
      ensures p in mem && |mem[p].ary| == IDR_SIZE
      ensures l == 0 ==> mem[p].ary[Digit(id, l)] == Stored(tree, id)
      ensures l > 0 ==> mem[p].ary[Digit(id, l)] == Link(tree.tab, PathPos(id, l - 1))
      ensures l > 0 && PathPos(id, l - 1) !in tree.tab ==> PathPos(id, 0) !in tree.tab
    {
      LayerAt(PathPos(id, l));
      assert LinksOk(tree.tab, PathPos(id, l));
      if l == 0 {
        assert Shr(id, 0) == id && Shr(id, 1) == Over(id);
      } else {
        PathStep(id, l - 1);
        if PathPos(id, 0) in tree.tab {
          PathPresent(tree, id, l - 1);
        }
      }
    }

    lemma StoredMeaning(id: nat)
      requires Around(0) && Shaped(tree)
      ensures Stored(tree, id) == if id in entries then entries[id] else Nil
      ensures PathPos(id, 0) !in tree.tab ==> Stored(tree, id) == Nil
      ensures id >= Capacity(layers) ==> id !in entries
    {
      assert Shr(id, 0) == id && Shr(id, 1) == Over(id);
      assert id in entries <==> Allocated(tree, id);
      if PathPos(id, 0) in tree.tab {
        assert LinksOk(tree.tab, PathPos(id, 0));
        AllocatedInCapacity(tree, id);
      }
    }

    /**
      idr_find: the stored pointer, or NULL for any id that is not allocated; of a negative id only
      the bits below MAX_ID_BIT count.  It relies on the links only, not on the bitmaps.
     */
    method Find(id: int) returns (r: Entry)
      requires Around(0) && Shaped(tree)
      ensures r == if Masked(id) in entries then entries[Masked(id)] else Nil
    {
      var id := Masked(id);
      StoredMeaning(id);
      TopNull();
      var n: nat, p := layers, top;
      if id >= Capacity(layers) {
        return Nil;
      }
      InCapacity(id, layers);
      if layers == 0 {
        EmptyTree();
        return Nil;
      }
      var e := Sub(p);
      while n > 0 && e.Sub?
        invariant n <= layers
        invariant n > 0 && e.Sub? ==> PathPos(id, n - 1) in tree.tab && e.layer == tree.tab[PathPos(id, n - 1)].obj
        invariant n > 0 && !e.Sub? ==> e == Nil && PathPos(id, 0) !in tree.tab
        invariant n == 0 ==> e == Stored(tree, id)
      {
        n := n - 1;
        FindStep(id, n, e.layer);
        e := mem[e.layer].ary[Digit(id, n)];
      }
      r := e;
    }

    // ---------- idr_remove ----------

    lemma Sizes()
      requires Valid()
      ensures AllSized(tree) && Injective(tree.tab) && forall p <- tree.tab :: p.level < layers
    {
      forall p | p in tree.tab
        ensures Sized(tree.tab[p]) && p.level < layers
      {
        assert LinksOk(tree.tab, p) && Placed(tree, p);
      }
    }

    /** __clear_bit in the layer on id's path at level l. */
    method ClearOne(p: Layer, m: nat, ghost id: nat, ghost l: nat)
      requires FreeOk() && Apart(tree, spare) && AllSized(tree) && Injective(tree.tab)
      requires PathPos(id, l) in tree.tab && p == tree.tab[PathPos(id, l)].obj && m == Digit(id, l)
      requires Backs(mem, Cleared(tree, id, l + 1))
      modifies this`mem
      ensures Backs(mem, Cleared(tree, id, l)) && FreeOk() && mem.Keys == old(mem).Keys
    {
      ghost var g, q := Cleared(tree, id, l + 1), PathPos(id, l);
      ClearedShape(tree, id, l + 1);
      ClearedStep(tree, id, l);
      assert Backed(mem, g.tab[q]);
      WriteNode(mem, g, q, WithoutBit(g.tab[q], id, l));
      mem := mem[p := mem[p].(bitmap := mem[p].bitmap[m := false])];
      FreeFrame(old(mem), mem, idFree, spare);
    }

    /** The link that sub_remove follows after clearing the bit. */
    lemma NextDown(e: nat, l: nat, p: Layer)
      requires Wf(tree) && AllSized(tree) && 0 < l < tree.layers && Backs(mem, Cleared(tree, e, l))
      requires PathPos(e, l) in tree.tab && p == tree.tab[PathPos(e, l)].obj
      ensures p in mem && |mem[p].ary| == IDR_SIZE && mem[p].ary[Digit(e, l)] == Link(tree.tab, PathPos(e, l - 1))
      ensures PathPos(e, l - 1) in tree.tab ==> tree.tab[PathPos(e, l - 1)].obj != NULL
      ensures PathPos(e, l - 1) !in tree.tab ==> PathPos(e, 0) !in tree.tab
    {
      ClearedShape(tree, e, l);
      var c := Cleared(tree, e, l);
      assert Backed(mem, c.tab[PathPos(e, l)]);
      assert LinksOk(tree.tab, PathPos(e, l));
      PathStep(e, l - 1);
      if PathPos(e, l - 1) in tree.tab {
        assert Backed(mem, c.tab[PathPos(e, l - 1)]);
      } else if PathPos(e, 0) in tree.tab {
        PathPresent(tree, e, l - 1);
      }
    }

    /** Where sub_remove is on its way down: the bits above level l are cleared, p is the layer at l or NULL. */
    ghost predicate Walking(e: nat, l: nat, p: Layer, pa: seq<Layer>)
      reads this
    {
      && Wf(tree) && AllSized(tree) && Apart(tree, spare) && FreeOk() && l < tree.layers
      && Backs(mem, Cleared(tree, e, l + 1))
      && |pa| == tree.layers
      && (p == NULL ==> PathPos(e, 0) !in tree.tab)
      && (p != NULL ==> PathPos(e, l) in tree.tab && p == tree.tab[PathPos(e, l)].obj && WayDown(pa, tree, e, l))
    }

    /** What the walk does not touch: the handle's own fields, the map, and the balance of layers. */
    ghost predicate Outside()
      reads this
    {
      && Conserved(0) && Denotes(tree, entries) && top == TopOf(tree)
      && layers == tree.layers < MAX_LEVEL && 2 * Capacity(MAX_LEVEL - 1) <= maxIdBit
    }

    /** One step of the walk: the bit for the id is cleared, and the link below it noted and followed. */
    method WalkOne(p: Layer, n: nat, ghost e: nat, l: nat, pa: seq<Layer>) returns (p': Layer, pa': seq<Layer>)
      requires Walking(e, l, p, pa) && p != NULL && l > 0 && n == Digit(e, l)
      modifies this`mem
      ensures Walking(e, l - 1, p', pa') && mem.Keys == old(mem).Keys
    {
      ClearOne(p, n, e, l);
      NextDown(e, l, p);
      p' := if mem[p].ary[n].Sub? then mem[p].ary[n].layer else NULL;
      pa' := pa[l - 1 := p'];
      forall j: nat | l - 1 <= j < tree.layers && p' != NULL
        ensures Passes(pa', tree, e, j)
      {
        assert j >= l ==> Passes(pa, tree, e, j);
      }
    }

    lemma StartWalk(e: nat, pa: seq<Layer>)
      requires Valid() && layers > 0 && Shr(e, layers) == 0 && |pa| == layers && pa[layers - 1] == top
      ensures Walking(e, layers - 1, top, pa)
    {
      Sizes();
      TopNull();
      ClearedAll(tree, e);
    }

    /**
      The first half of sub_remove: down the path of id, clearing bits.  pa collects the layers
      passed, p is the leaf or NULL.
     */
    method WalkDown(id: nat, ghost e: nat) returns (p: Layer, pa: seq<Layer>, ghost l: nat)
      requires Valid() && layers > 0 && e == Low(id, layers)
      modifies this`mem
      ensures Walking(e, l, p, pa) && mem.Keys == old(mem).Keys && (p != NULL ==> l == 0)
    {
      LowDigits(id, layers, 0);
      p, pa := top, seq(layers, i => NULL);
      pa := pa[layers - 1 := p];
      StartWalk(e, pa);
      var shift: nat := layers - 1;
      while shift > 0 && p != NULL
        invariant Walking(e, shift, p, pa) && mem.Keys == old(mem).Keys
        decreases shift
      {
        LowDigits(id, layers, shift);
        p, pa := WalkOne(p, Digit(id, shift), e, shift, pa);
        shift := shift - 1;
      }
      l := shift;
    }

    /** Bit and pointer of the id leave the leaf: the id is gone, and only the leaf's count is old. */
    method TakeOut(p: Layer, n: nat, ghost e: nat, ghost pa: seq<Layer>)
      requires Walking(e, 0, p, pa) && p != NULL && n == Digit(e, 0) && Allocated(tree, e) && Outside()
      modifies this`mem, this`tree, this`entries
      ensures Unwinding(e, 0, pa) && entries == old(entries) - {e}
      ensures layers == old(layers) && (old(Thick(tree)) ==> Thick(tree))
    {
      ghost var g' := TakenTree(p, n, e, pa);
      ClearSlot(p, n);
      tree, entries := g', entries - {e};
    }

    /** The tree without the id, its leaf's count aside. */
    lemma TakenTree(p: Layer, n: nat, e: nat, pa: seq<Layer>) returns (g': Graph)
      requires Walking(e, 0, p, pa) && p != NULL && n == Digit(e, 0) && Allocated(tree, e) && Outside()
      ensures p in mem && p !in spare && n < |mem[p].bitmap| && n < |mem[p].ary|
      ensures Backs(mem[p := Record(mem[p].bitmap[n := false], mem[p].ary[n := Nil], mem[p].count)], g')
      ensures Denotes(g', entries - {e}) && Overcounted(g', PathPos(e, 0)) && WayDown(pa, g', e, 0)
      ensures Apart(g', spare) && TopOf(g') == TopOf(tree) && |g'.tab| == |tree.tab| && g'.layers == tree.layers
      ensures Thick(tree) ==> Thick(g')
    {
      EmptiedDenotes(tree, e, entries);
      EmptiedOvercounted(tree, e);
      EmptiedBacks(mem, tree, e);
      TakenShape(tree, e, pa);
      EmptiedThick(tree, e);
      g' := Emptied(tree, e);
    }

    /** Bit and pointer of slot n are cleared in a layer that is not spare. */
    method ClearSlot(p: Layer, n: nat)
      requires FreeOk() && p !in spare && p in mem && n < |mem[p].bitmap| && n < |mem[p].ary|
      modifies this`mem
      ensures FreeOk()
      ensures mem == old(mem)[p := Record(old(mem)[p].bitmap[n := false], old(mem)[p].ary[n := Nil], old(mem)[p].count)]
    {
      mem := mem[p := Record(mem[p].bitmap[n := false], mem[p].ary[n := Nil], mem[p].count)];
      FreeFrame(old(mem), mem, idFree, spare);
    }

    /** A removal moves no layer. */
    lemma TakenShape(g: Graph, e: nat, pa: seq<Layer>)
      requires Wf(g) && AllSized(g) && PathPos(e, 0) in g.tab && WayDown(pa, g, e, 0) && Apart(g, spare)
      ensures var g' := Emptied(g, e);
        && WayDown(pa, g', e, 0) && Apart(g', spare) && TopOf(g') == TopOf(g) && |g'.tab| == |g.tab|
    {
      var g' := Emptied(g, e);
      EmptiedSame(g, e);
      assert |g'.tab| == |g'.tab.Keys| && |g.tab| == |g.tab.Keys|;
      forall p | p in g'.tab
        ensures g'.tab[p].obj == g.tab[p].obj
      {
      }
      forall j: nat | 0 <= j < g'.layers
        ensures Passes(pa, g', e, j)
      {
        assert Passes(pa, g, e, j);
      }
    }

    /** The count drops to zero, and free_layer. */
    method Retire(p: Layer)
      requires FreeOk() && p !in spare && p != NULL && p in mem && mem[p] == Record(NoBits(), NoLinks(), 1)
      modifies this`mem, this`idFree, this`idFreeCnt, this`spare
      ensures FreeOk() && spare == [p] + old(spare)
      ensures mem.Keys == old(mem).Keys && forall q <- mem :: q != p ==> mem[q] == old(mem)[q]
    {
      mem := mem[p := mem[p].(count := mem[p].count - 1)];
      FreeFrame(old(mem), mem, idFree, spare);
      assert NoLinks()[0 := NoLinks()[0]] == NoLinks();
      FreeLayer(p);
    }

    /** Where sub_remove is on its way up: only the count at level l is still to be lowered. */
    ghost predicate Unwinding(e: nat, l: nat, pa: seq<Layer>)
      reads this
    {
      Around(0) && l < layers && Overcounted(tree, PathPos(e, l)) && WayDown(pa, tree, e, l)
    }

    lemma UnwindLayer(e: nat, l: nat, pa: seq<Layer>)
      requires Unwinding(e, l, pa)
      ensures Sized(tree.tab[PathPos(e, l)]) && Backed(mem, tree.tab[PathPos(e, l)])
      ensures pa[l] == tree.tab[PathPos(e, l)].obj && pa[l] !in spare
      ensures tree.tab[PathPos(e, l)].count == 1 ==>
        tree.tab[PathPos(e, l)].bits == NoBits() && tree.tab[PathPos(e, l)].ary == NoLinks()
    {
      assert Passes(pa, tree, e, l);
      LayerAt(PathPos(e, l));
      if tree.tab[PathPos(e, l)].count == 1 {
        EmptyLayer(tree, PathPos(e, l));
      }
    }

    /** The count is lowered and the layer stays. */
    method LowerCount(p: Layer, ghost e: nat, ghost l: nat, ghost pa: seq<Layer>)
      requires Unwinding(e, l, pa) && p == pa[l] && p in mem
      modifies this`mem, this`tree
      ensures Valid() && layers == old(layers)
      ensures old(Thick(tree) && mem[p].count != 1) ==> Thick(tree)
    {
      ghost var g, c := tree, PathPos(e, l);
      UnwindLayer(e, l, pa);
      RecountedWf(g, c);
      RecountedIds(g, c);
      Settled(g, Recounted(g, c), entries);
      WriteNode(mem, g, c, g.tab[c].(count := g.tab[c].count - 1));
      mem := mem[p := mem[p].(count := mem[p].count - 1)];
      tree := Recounted(g, c);
      FreeFrame(old(mem), mem, idFree, spare);
    }

    /** An empty layer goes to the free list and its slot in the layer above is cleared. */
    method ReleaseOne(p: Layer, above: Layer, m: nat, ghost e: nat, ghost l: nat, ghost pa: seq<Layer>)
      requires Unwinding(e, l, pa) && l + 1 < layers && tree.tab[PathPos(e, l)].count == 1
      requires p == pa[l] && above == pa[l + 1] && m == Digit(e, l + 1)
      modifies this`mem, this`idFree, this`idFreeCnt, this`spare, this`tree
      ensures Unwinding(e, l + 1, pa) && layers == old(layers)
      ensures old(Thick(tree)) ==> Thick(tree)
    {
      ghost var g, c := tree, PathPos(e, l);
      UnwindLayer(e, l, pa);
      ReleasedWay(g, pa, e, l, entries);
      ReleaseApart(g, c, spare);
      ReleaseTopOf(g, c);
      Retire(p);
      ReleaseBacks(old(mem), mem, g, c);
      Unlink(above, m);
      tree := Released(g, c);
    }

    /** The tree without the empty layer at level l. */
    static lemma ReleasedWay(g: Graph, pa: seq<Layer>, e: nat, l: nat, m: map<nat, Entry>)
      requires l + 1 < g.layers && Overcounted(g, PathPos(e, l)) && g.tab[PathPos(e, l)].count == 1
      requires WayDown(pa, g, e, l) && Denotes(g, m)
      ensures Parent(PathPos(e, l)) == PathPos(e, l + 1) && SlotIn(PathPos(e, l)) == Digit(e, l + 1)
      ensures PathPos(e, l + 1) in g.tab && pa[l + 1] == g.tab[PathPos(e, l + 1)].obj && Sized(g.tab[PathPos(e, l + 1)])
      ensures var g' := Released(g, PathPos(e, l));
        Overcounted(g', PathPos(e, l + 1)) && WayDown(pa, g', e, l + 1) && Denotes(g', m)
    {
      var c := PathPos(e, l);
      PathStep(e, l);
      assert Passes(pa, g, e, l + 1);
      assert LinksOk(g.tab, PathPos(e, l + 1));
      ReleasedOvercounted(g, c);
      ReleasedIds(g, c);
      Settled(g, Released(g, c), m);
      forall j: nat | l + 1 <= j < g.layers
        ensures Passes(pa, Released(g, c), e, j)
      {
        assert Passes(pa, g, e, j);
      }
    }

    /** The last layer goes to the free list, and the handle is empty. */
    method ReleaseTop(p: Layer, ghost e: nat, ghost pa: seq<Layer>)
      requires layers > 0 && Unwinding(e, layers - 1, pa) && tree.tab[PathPos(e, layers - 1)].count == 1
      requires p == pa[layers - 1]
      modifies this`mem, this`top, this`layers, this`idFree, this`idFreeCnt, this`spare, this`tree
      ensures Valid() && layers == 0 && tree.tab == map[]
    {
      ghost var g := tree;
      UnwindLayer(e, layers - 1, pa);
      assert Placed(g, PathPos(e, layers - 1));
      LastLayer(g);
      assert |g.tab| == |g.tab.Keys| == 1;
      Settled(g, Graph(0, map[]), entries);
      Retire(p);
      top, layers, tree := NULL, 0, Graph(0, map[]);
    }

    /** The second half of sub_remove: lower counts upwards, freeing the layers that run empty. */
    method UnwindAll(id: nat, pa: seq<Layer>, ghost e: nat)
      requires Unwinding(e, 0, pa) && e == Low(id, layers)
      modifies this`mem, this`top, this`layers, this`idFree, this`idFreeCnt, this`spare, this`tree
      ensures Valid() && (layers == old(layers) || layers == 0) && (old(Thick(tree)) ==> Thick(tree))
    {
      var l: nat, n := 0, layers;
      while true
        invariant Unwinding(e, l, pa) && layers == n && e == Low(id, layers)
        invariant old(Thick(tree)) ==> Thick(tree)
        decreases n - l
      {
        UnwindLayer(e, l, pa);
        var p := pa[l];
        if mem[p].count != 1 {
          LowerCount(p, e, l, pa);
          return;
        }
        if l + 1 == n {
          ReleaseTop(p, e, pa);
          return;
        }
        LowDigits(id, layers, l + 1);
        ReleaseOne(p, pa[l + 1], Digit(id, l + 1), e, l, pa);
        l := l + 1;
      }
    }

    /** The bits that a removal clears on the way to a free id were clear already. */
    lemma NothingCleared(e: nat, l: nat, p: Layer, pa: seq<Layer>)
      requires Walking(e, l, p, pa) && !Allocated(tree, e)
      ensures Backs(mem, tree)
    {
      ClearedFree(tree, e, l + 1);
    }

    /** What sub_remove's test of the leaf decides. */
    lemma LeafTest(e: nat, l: nat, p: Layer, pa: seq<Layer>)
      requires Walking(e, l, p, pa) && (p != NULL ==> l == 0)
      ensures p == NULL ==> !Allocated(tree, e)
      ensures p != NULL ==> p in mem && |mem[p].bitmap| == IDR_SIZE
      ensures p != NULL ==> (mem[p].bitmap[Digit(e, 0)] <==> Allocated(tree, e))
    {
      assert Shr(e, 0) == e && Shr(e, 1) == Over(e);
      if p != NULL {
        ClearedShape(tree, e, 1);
        assert Backed(mem, Cleared(tree, e, 1).tab[PathPos(e, 0)]);
        ClearIsFree(tree, e);
      }
    }

    /** sub_remove: whatever id is, the tree looks at its lowest digits only. */
    method SubRemove(id: nat)
      requires Valid()
      modifies this`mem, this`top, this`layers, this`idFree, this`idFreeCnt, this`spare, this`tree, this`entries
      ensures Valid() && entries == old(entries) - {Low(id, old(layers))}
      ensures (layers == old(layers) || layers == 0) && (old(Thick(tree)) ==> Thick(tree))
    {
      TopNull();
      ghost var e := Low(id, layers);
      if layers == 0 {
        EmptyTree();
        assert e in entries <==> Allocated(tree, e);
        return;
      }
      var p, pa; ghost var l;
      p, pa, l := WalkDown(id, e);
      LeafTest(e, l, p, pa);
      LowDigits(id, layers, 0);
      var n := Digit(id, 0);
      if p != NULL && mem[p].bitmap[n] {
        RemoveLeaf(p, n, id, e, pa);
      } else {
        NothingCleared(e, l, p, pa);
        assert e in entries <==> Allocated(tree, e);
      }
    }

    /** The branch of sub_remove for an id that is taken. */
    method RemoveLeaf(p: Layer, n: nat, id: nat, ghost e: nat, pa: seq<Layer>)
      requires Walking(e, 0, p, pa) && p != NULL && n == Digit(e, 0) && Allocated(tree, e) && Outside()
      requires e == Low(id, layers)
      modifies this`mem, this`top, this`layers, this`idFree, this`idFreeCnt, this`spare, this`tree, this`entries
      ensures Valid() && entries == old(entries) - {e}
      ensures (layers == old(layers) || layers == 0) && (old(Thick(tree)) ==> Thick(tree))
    {
      TakeOut(p, n, e, pa);
      UnwindAll(id, pa, e);
    }

    /** A top whose only child is its first one is dropped. */
    method DropTop()
      requires Valid() && layers > 1 && tree.tab[Pos(layers - 1, 0)].count == 1
      requires |tree.tab[Pos(layers - 1, 0)].ary| > 0 && !tree.tab[Pos(layers - 1, 0)].ary[0].Nil?
      modifies this`mem, this`top, this`layers, this`idFree, this`idFreeCnt, this`spare, this`tree
      ensures Valid() && layers == old(layers) - 1 && tree == Dropped(old(tree))
    {
      ghost var g := tree;
      DropFacts(mem, g, spare, entries);
      var was, p := top, mem[top].ary[0].layer;
      Recycle(was);
      TreeFrame(old(mem), mem, Dropped(g), was);
      top, layers, tree := p, layers - 1, Dropped(g);
    }

    /** All ids fit a tree that is one layer less high. */
    ghost predicate Lowerable()
      reads this`layers, this`entries
    {
      layers > 1 && forall id <- entries :: id < Capacity(layers - 1)
    }

    /** The top is dropped if its only child is its first one. */
    method DropSurplus()
      requires Valid()
      modifies this`mem, this`top, this`layers, this`idFree, this`idFreeCnt, this`spare, this`tree
      ensures Valid()
      ensures old(Thick(tree)) ==> Thick(tree) && layers == old(layers) - (if old(Lowerable()) then 1 else 0)
    {
      TopNull();
      if top != NULL {
        LayerAt(Pos(layers - 1, 0));
        if layers > 1 && Thick(tree) {
          TopOnlyFirst(tree, entries);
        }
        if mem[top].count == 1 && layers > 1 && mem[top].ary[0] != Nil {
          DropTop();
        }
      }
    }

    /** A surplus layer goes back to the slab cache. */
    method GiveBack()
      requires Valid()
      modifies this`mem, this`idFree, this`idFreeCnt, this`spare, this`returned
      ensures Valid() && returned == old(returned) + (if old(idFreeCnt) >= IDR_FREE_MAX then 1 else 0)
      ensures idFreeCnt == old(idFreeCnt) - (if old(idFreeCnt) >= IDR_FREE_MAX then 1 else 0)
    {
      if idFreeCnt >= IDR_FREE_MAX {
        var p := AllocLayer();
        assert p in old(spare);
        ghost var mem1 := mem;
        TreeFrame(old(mem), mem, tree, p);
        mem := mem - {p};
        TreeFrame(mem1, mem, tree, p);
        FreeFrame(mem1, mem, idFree, spare);
        returned := returned + 1;
      }
    }

    /** idr_remove up to the return of surplus layers. */
    method Release(id: nat)
      requires Valid()
      modifies this`mem, this`top, this`layers, this`idFree, this`idFreeCnt, this`spare, this`tree, this`entries
      ensures Valid() && entries == old(entries) - {Low(id, old(layers))}
      ensures |spare| + |tree.tab| == old(|spare| + |tree.tab|)
      ensures old(Thick(tree)) ==> Thick(tree) && layers == LayersLeft(old(layers), entries)
    {
      SubRemove(id);
      if Thick(tree) {
        NothingLeft();
      }
      DropSurplus();
    }

    /**
      idr_remove: for an id within the tree's range, exactly its entry goes.  Beyond that range the
      upper digits are ignored; see RemoveExact.  A tree without empty layers stays one, and is at
      most one layer higher than its ids need it to be; one layer goes back to the slab cache if
      there are more than IDR_FREE_MAX to spare.
     */
    method Remove(id: int)
      requires Valid()
      modifies this`mem, this`top, this`layers, this`idFree, this`idFreeCnt, this`spare, this`tree, this`entries
      modifies this`returned
      ensures Valid() && entries == old(entries) - {Low(Masked(id), old(layers))}
      ensures Masked(id) in old(entries) ==> entries == old(entries) - {Masked(id)}
      ensures var n := old(idFreeCnt + |tree.tab|) - |tree.tab|;
        returned == old(returned) + if n >= IDR_FREE_MAX then 1 else 0
      ensures old(Tidy()) ==> Tidy() && layers == LayersLeft(old(layers), entries)
    {
      var id := Masked(id);
      StoredMeaning(id);
      InCapacity(id, layers);
      if id < Capacity(layers) {
        LowSmall(id, layers);
      }
      TidyThick();
      Release(id);
      GiveBack();
      TidyThick();
    }

    /** How high a tree is after a removal that left these entries: at most one layer lower, unless there are none. */
    static ghost function LayersLeft(before: nat, left: map<nat, Entry>): nat {
      if left == map[] then 0
      else if before > 1 && (forall id <- left :: id < Capacity(before - 1)) then before - 1 else before
    }

    /** A tree without empty layers is gone exactly if nothing is stored. */
    lemma NothingLeft()
      requires Valid() && Thick(tree)
      ensures layers == 0 <==> entries == map[]
    {
      NothingStored();
      if layers > 0 {
        ThickInhabited(tree, entries, Pos(layers - 1, 0));
      }
    }

    /** When all ids are released, all layers are spare or returned, exactly if no allocation left an idle one. */
    lemma AllReturned()
      requires Valid() && entries == map[]
      ensures idFreeCnt + returned == obtained <==> Tidy()
      ensures Tidy() ==> layers == 0 && top == NULL
    {
      TidyThick();
      if Tidy() {
        NothingLeft();
        EmptyTree();
      } else {
        var p :| p in tree.tab;
        assert |tree.tab.Keys| > 0 && |tree.tab| == |tree.tab.Keys|;
      }
    }

    /** When a removal touches no other id: the id is in range, or its lowest digits name a free one. */
    lemma RemoveExact(id: int)
      requires Valid()
      ensures var id := Masked(id);
        entries - {Low(id, layers)} == entries - {id} <==> (id < Capacity(layers) || Low(id, layers) !in entries)
    {
      var id := Masked(id);
      StoredMeaning(id);
      InCapacity(id, layers);
      if id < Capacity(layers) {
        LowSmall(id, layers);
      } else {
        assert id !in entries;
        assert Low(id, layers) in entries ==> Low(id, layers) !in entries - {Low(id, layers)};
        LowDigits(id, layers, 0);
        assert entries - {id} == entries;
      }
    }
  }

  /** The lowest digit of IDR_SIZE is zero. */
  lemma StrayDigits()
    ensures Low(IDR_SIZE, 1) == 0 && IDR_SIZE == Capacity(1)
  {
    assert Low(Over(IDR_SIZE), 0) == 0 && Rest(IDR_SIZE) == Rest(0) && Times(0) == 0;
    assert Times(1) == IDR_SIZE;
  }

  /** A stock of layers in the slab cache, all different. */
  ghost predicate Stock(grants: seq<Layer>) {
    && (forall i :: 0 <= i < |grants| ==> grants[i] != NULL)
    && (forall i, j :: 0 <= i < j < |grants| ==> grants[i] != grants[j])
  }

  /** The first pointer of a stocked handle gets id 0 and one layer. */
  method FirstNew(h: Handle, ptr: Entry) returns (id: int)
    requires h.Valid() && ptr.Val? && h.entries == map[] && h.layers == 0 && h.idFreeCnt >= IDR_FREE_MAX
    modifies h
    ensures id == 0 && h.Valid() && h.layers == 1 && h.entries == map[0 := ptr]
  {
    CapacityMonotone(0, 1);
    CapacityMonotone(1, MAX_LEVEL - 1);
    HeightMeans(0, 1);
    var first: nat := 0;
    assert first !in h.entries;
    var ok; ghost var at;
    ok, id, at := h.GetNew(ptr);
    assert at == 0;
  }

  /** Removing another id with the same lowest digits takes the pointer of an id out. */
  method RemoveOther(h: Handle, id: nat, other: nat) returns (before: Entry, after: Entry)
    requires h.Valid() && id in h.entries && id < h.maxIdBit && other < h.maxIdBit && Low(other, h.layers) == id
    modifies h
    ensures before == old(h.entries[id]) && after == Nil
  {
    before := h.Find(id);
    h.Remove(other);
    after := h.Find(id);
  }

  /**
    A concrete case: a new handle, stocked with layers, gives its first pointer id 0; removing the
    free id IDR_SIZE then takes that pointer out.
   */
  method StrayRemove(maxIdBit: IdLimit, grants: seq<Layer>, ptr: Entry) returns (id: int, before: Entry, after: Entry)
    requires 2 * Capacity(MAX_LEVEL - 1) <= maxIdBit && ptr.Val? && |grants| >= IDR_FREE_MAX && Stock(grants)
    ensures id == 0 && before == ptr && after == Nil
  {
    var h := new Handle(maxIdBit);
    var ok := h.PreGet(grants);
    id := FirstNew(h, ptr);
    StrayDigits();
    CapacityMonotone(1, MAX_LEVEL - 1);
    CapacityMonotone(0, MAX_LEVEL - 1);
    before, after := RemoveOther(h, 0, IDR_SIZE);
  }

  lemma ShrOne(x: nat)
    ensures Shr(x, 1) == Over(x)
  {
    assert Shr(x, 0) == x;
  }

  /** Ids in the block of a last id are not beyond it. */
  lemma UpToLast(start: nat, k: nat, x: nat)
    requires Over(start) == Over(k) && Rest(start) == x && x + 1 == IDR_SIZE
    ensures k <= start
  {
    Recompose(start);
    Recompose(k);
  }

  /** The last id of a tree of two layers: its block of one digit is the last one, and ends with it. */
  lemma LastId(start: nat, x: nat)
    requires start + 1 == Capacity(2) && x + 1 == IDR_SIZE
    ensures start > 0 && Digit(start, 1) == x && Shr(start - 1, 1) == Shr(start, 1)
    ensures forall k: nat :: start <= k && Shr(k, 1) == Shr(start, 1) ==> k == start
  {
    LastDigits(start, x);
    ShrOne(start);
    ShrOne(start - 1);
    forall k: nat | start <= k && Shr(k, 1) == Shr(start, 1)
      ensures k == start
    {
      ShrOne(k);
      UpToLast(start, k, x);
    }
  }

  lemma TwoDigits(x: nat)
    requires x + 1 == IDR_SIZE
    ensures Capacity(2) == Times(x) + IDR_SIZE
  {
    StrayDigits();
    ShlTimes(1, 1);
    assert Times(x + 1) == Times(x) + IDR_SIZE;
  }

  lemma LastDigits(start: nat, x: nat)
    requires start + 1 == Capacity(2) && x + 1 == IDR_SIZE
    ensures start > 0 && Over(start) == Over(start - 1) == x == Rest(start)
  {
    TwoDigits(x);
    LastOfBlock(x);
  }

  lemma LastOfBlock(x: nat)
    ensures Over(Times(x) + IDR_SIZE - 1) == Over(Times(x) + IDR_SIZE - 2) == x
    ensures Rest(Times(x) + IDR_SIZE - 1) == IDR_SIZE - 1
  {
    DivMod(x, IDR_SIZE - 1);
    DivMod(x, IDR_SIZE - 2);
  }

  /** The last id of two layers needs both, from an empty tree or one of that height. */
  lemma ExactlyTwo(start: nat)
    requires start + 1 == Capacity(2) && MAX_LEVEL >= 3
    ensures HeightFor(start, 1) == 2 && 2 < MAX_LEVEL
    ensures forall at: nat :: at <= start ==> HeightFor(at, 2) == 2
  {
    CapacityGrows(1);
    CapacityMonotone(1, 2);
    HeightMeans(start, 1);
    HeightMeans(start, 2);
    forall at: nat | at <= start
      ensures HeightFor(at, 2) == 2
    {
      HeightMeans(at, 2);
    }
  }

  /** When only the last id of two layers is taken, a search from it goes astray. */
  lemma LastStrays(h: Handle, start: nat)
    requires start + 1 == Capacity(2) && h.layers == 2 && h.entries.Keys == {start}
    ensures h.Astray(start) && forall at: nat, e: nat :: h.Destined(start, at, e) ==> at < start
  {
    LastId(start, IDR_SIZE - 1);
    assert start - 1 !in h.entries;
    assert h.AstrayAt(start, 1);
    forall at: nat, e: nat | h.Destined(start, at, e)
      ensures at < start
    {
      h.StraySides(start, at, e);
    }
  }

  /** The first call on a new handle: the start id itself is given out, and two layers are there. */
  method FirstAbove(h: Handle, ptr: Entry, start: nat) returns (first: int)
    requires h.Valid() && ptr.Val? && start + 1 == Capacity(2) && MAX_LEVEL >= 3
    requires h.entries == map[] && h.layers == 0 && h.idFreeCnt >= IDR_FREE_MAX
    modifies h
    ensures first == start && h.Valid() && h.layers == 2 && h.entries == map[start := ptr]
    ensures h.idFreeCnt + 2 >= IDR_FREE_MAX
  {
    ExactlyTwo(start);
    h.OnlyDestination(start);
    ghost var at, e;
    var ok;
    ok, first, at, e := h.GetNewAbove(ptr, start);
    assert at == start;
  }

  /** The second call: an id is returned under which there is nothing. */
  method SecondAbove(h: Handle, ptr: Entry, start: nat) returns (second: int, found: Entry)
    requires h.Valid() && ptr.Val? && start + 1 == Capacity(2) && MAX_LEVEL >= 3
    requires h.layers == 2 && h.entries == map[start := ptr] && h.idFreeCnt + 2 >= IDR_FREE_MAX
    modifies h
    ensures second > start && found == Nil
  {
    ExactlyTwo(start);
    LastStrays(h, start);
    ghost var at, e;
    var ok;
    ok, second, at, e := h.GetNewAbove(ptr, start);
    assert h.Masked(second) == second;
    found := h.Find(second);
  }

  /**
    A concrete case: on a new handle, idr_get_new_above is called twice with the last id of a tree
    of two layers.  The first pointer gets that id; the second call returns an id under which
    idr_find finds nothing.
   */
  method StrayGet(maxIdBit: IdLimit, grants: seq<Layer>, ptr: Entry)
    returns (start: nat, first: int, second: int, found: Entry)
    requires 2 * Capacity(MAX_LEVEL - 1) <= maxIdBit && ptr.Val? && MAX_LEVEL >= 3
    requires |grants| >= IDR_FREE_MAX && Stock(grants)
    ensures start + 1 == Capacity(2) && first == start && second > start && found == Nil
  {
    CapacityMonotone(0, 2);
    start := Capacity(2) - 1;
    var h := new Handle(maxIdBit);
    var ok := h.PreGet(grants);
    first := FirstAbove(h, ptr, start);
    second, found := SecondAbove(h, ptr, start);
  }
}
