/**
  datastruct/list.h: doubly linked rings through a head, and the two loops of the library that
  take nodes out of the ring they walk along.
 */
module LinkedRing {

  const NULL: int := 0

  /** struct list_head. */
  datatype Links = Links(next: int, prev: int)

  /** The list heads in memory, by address, none at NULL; reading through any other address faults. */
  type Memory = m: map<int, Links> | NULL !in m witness map[]

  // ---------- rings ----------

  predicate Distinct(ring: seq<int>) {
    forall i: nat, j: nat {:trigger ring[i], ring[j]} :: i < j < |ring| ==> ring[i] != ring[j]
  }

  function After(ring: seq<int>, i: nat): (j: nat)
    requires i < |ring|
    ensures j < |ring|
  {
    if i + 1 < |ring| then i + 1 else 0
  }

  function Before(ring: seq<int>, i: nat): (j: nat)
    requires i < |ring|
    ensures j < |ring|
  {
    if i > 0 then i - 1 else |ring| - 1
  }

  predicate Joined(m: Memory, ring: seq<int>, i: nat)
    requires i < |ring|
  {
    ring[i] in m && m[ring[i]] == Links(ring[After(ring, i)], ring[Before(ring, i)])
  }

  /** The links run through the head and the nodes in this order, and back. */
  ghost predicate IsRing(m: Memory, head: int, nodes: seq<int>) {
    var ring := [head] + nodes;
    && Distinct(ring) && NULL !in ring
    && forall i: nat {:trigger Joined(m, ring, i)} :: i < |ring| ==> Joined(m, ring, i)
  }

  // ---------- writes ----------

  /** INIT_LIST_HEAD. */
  function InitHead(m: Memory, head: int): Memory
    requires head != NULL
  {
    m[head := Links(head, head)]
  }

  /** list_add: the entry comes first. */
  function ListAdd(m: Memory, entry: int, head: int): Memory
    requires head in m && m[head].next in m && entry != NULL
  {
    var next := m[head].next;
    var m1 := m[next := m[next].(prev := entry)];
    var m2 := m1[entry := Links(next, head)];
    m2[head := m2[head].(next := entry)]
  }

  /** The entry's links lead somewhere. */
  predicate Linked(m: Memory, entry: int) {
    entry in m && m[entry].next in m && m[entry].prev in m
  }

  /** list_del: the neighbours are joined and the entry's own links cleared. */
  function ListDel(m: Memory, entry: int): Memory
    requires Linked(m, entry)
  {
    var next, prev := m[entry].next, m[entry].prev;
    var m1 := m[next := m[next].(prev := prev)];
    var m2 := m1[prev := m1[prev].(next := next)];
    m2[entry := Links(NULL, NULL)]
  }

  lemma InitRing(m: Memory, head: int)
    requires head != NULL
    ensures IsRing(InitHead(m, head), head, [])
  {
  }

  /** list_add puts the entry in front of the nodes and touches nothing outside the ring. */
  lemma AddRing(m: Memory, head: int, nodes: seq<int>, entry: int)
    requires IsRing(m, head, nodes) && entry != NULL && entry != head && entry !in nodes
    ensures head in m && m[head].next in m
    ensures IsRing(ListAdd(m, entry, head), head, [entry] + nodes)
    ensures forall a <- m :: a != head && a !in nodes && a != entry ==> ListAdd(m, entry, head)[a] == m[a]
  {
    var ring, ring' := [head] + nodes, [head] + ([entry] + nodes);
    assert Joined(m, ring, 0) && Joined(m, ring, After(ring, 0));
    var m' := ListAdd(m, entry, head);
    forall i: nat | i < |ring'|
      ensures Joined(m', ring', i)
    {
      assert i >= 2 ==> Joined(m, ring, i - 1) && ring'[i] == ring[i - 1];
      assert |ring| > 1 ==> ring'[2] == ring[1];
    }
    forall i: nat, j: nat | i < j < |ring'|
      ensures ring'[i] != ring'[j]
    {
      assert j >= 2 ==> ring'[j] == ring[j - 1];
      assert i >= 2 ==> ring'[i] == ring[i - 1];
    }
  }

  lemma NodeLinked(m: Memory, head: int, nodes: seq<int>, k: nat)
    requires IsRing(m, head, nodes) && k < |nodes|
    ensures Linked(m, nodes[k])
  {
    var ring := [head] + nodes;
    assert Joined(m, ring, k + 1) && Joined(m, ring, After(ring, k + 1)) && Joined(m, ring, k);
  }

  function Dropped(nodes: seq<int>, k: nat): seq<int>
    requires k < |nodes|
  {
    nodes[..k] + nodes[k + 1..]
  }

  /** What list_del leaves in the other cells of the ring. */
  lemma CellAfterDel(m: Memory, head: int, nodes: seq<int>, k: nat, o: nat)
    requires IsRing(m, head, nodes) && k < |nodes| && o <= |nodes| && o != k + 1
    ensures Linked(m, nodes[k])
    ensures var ring := [head] + nodes;
      && ring[o] in m
      && ListDel(m, nodes[k])[ring[o]]
      == Links(if o == k then ring[After(ring, k + 1)] else ring[After(ring, o)],
               if o == After(ring, k + 1) then ring[k] else ring[Before(ring, o)])
  {
    var ring := [head] + nodes;
    NodeLinked(m, head, nodes, k);
    assert Joined(m, ring, k + 1) && Joined(m, ring, o);
    var next := After(ring, k + 1);
    assert ring[o] == ring[next] ==> o == next;
    assert ring[o] == ring[k] ==> o == k;
    assert ring[o] != ring[k + 1];
  }

  lemma JoinedAfterDel(m: Memory, head: int, nodes: seq<int>, k: nat, i: nat)
    requires IsRing(m, head, nodes) && k < |nodes| && i < |nodes|
    ensures Linked(m, nodes[k])
    ensures Joined(ListDel(m, nodes[k]), [head] + Dropped(nodes, k), i)
  {
    var ring, ring' := [head] + nodes, [head] + Dropped(nodes, k);
    var o: nat := if i <= k then i else i + 1;
    CellAfterDel(m, head, nodes, k, o);
    assert ring'[i] == ring[o];
    assert ring'[After(ring', i)] == if o == k then ring[After(ring, k + 1)] else ring[After(ring, o)];
    assert ring'[Before(ring', i)] == if o == After(ring, k + 1) then ring[k] else ring[Before(ring, o)];
  }

  lemma DroppedDistinct(head: int, nodes: seq<int>, k: nat)
    requires Distinct([head] + nodes) && k < |nodes|
    ensures Distinct([head] + Dropped(nodes, k))
  {
    var ring, ring' := [head] + nodes, [head] + Dropped(nodes, k);
    forall i: nat, j: nat | i < j < |ring'|
      ensures ring'[i] != ring'[j]
    {
      assert ring'[i] == ring[if i <= k then i else i + 1];
      assert ring'[j] == ring[if j <= k then j else j + 1];
    }
  }

  /** list_del takes one node out of the ring, whose links are cleared, and touches nothing outside. */
  lemma DelRing(m: Memory, head: int, nodes: seq<int>, k: nat)
    requires IsRing(m, head, nodes) && k < |nodes|
    ensures Linked(m, nodes[k])
    ensures IsRing(ListDel(m, nodes[k]), head, Dropped(nodes, k))
    ensures ListDel(m, nodes[k])[nodes[k]] == Links(NULL, NULL)
    ensures forall a <- m :: a != head && a !in nodes ==> ListDel(m, nodes[k])[a] == m[a]
  {
    var ring, ring' := [head] + nodes, [head] + Dropped(nodes, k);
    NodeLinked(m, head, nodes, k);
    DroppedDistinct(head, nodes, k);
    var m' := ListDel(m, nodes[k]);
    assert Joined(m, ring, k + 1);
    assert ring[After(ring, k + 1)] == m[nodes[k]].next && ring[k] == m[nodes[k]].prev;
    forall i: nat | i < |ring'|
      ensures Joined(m', ring', i)
    {
      JoinedAfterDel(m, head, nodes, k, i);
    }
  }

  // ---------- loops that unlink where they stand ----------

  /**
    The loop of reset_pool: from the last node backwards, every node but the first is to be taken
    out and given back.  ok says that no link of NULL is followed, and node is then the one left.
    The step onwards reads the link that list_del has just cleared, so ok holds exactly if there
    is nothing to take out; otherwise only the last node goes.
   */
  method UnlinkBackward(m: Memory, head: int, ghost nodes: seq<int>)
    returns (ok: bool, m': Memory, node: int, freed: seq<int>)
    requires IsRing(m, head, nodes)
    ensures ok <==> |nodes| <= 1
    ensures ok ==> m' == m && freed == [] && node == if nodes == [] then head else nodes[0]
    ensures !ok ==> IsRing(m', head, Dropped(nodes, |nodes| - 1)) && freed == [nodes[|nodes| - 1]]
  {
    ghost var ring := [head] + nodes;
    assert Joined(m, ring, 0) && Joined(m, ring, |nodes|);
    m', node, freed := m, m[head].prev, [];
    while node != head
      invariant freed == [] ==> m' == m && node == ring[|nodes|]
      invariant freed != [] ==>
        |nodes| > 1 && freed == [nodes[|nodes| - 1]] && node == NULL && IsRing(m', head, Dropped(nodes, |nodes| - 1))
      decreases 1 - |freed|
    {
      if node !in m' {
        return false, m', node, freed;
      }
      if m'[node].prev == head {
        break;
      }
      DelRing(m, head, nodes, |nodes| - 1);
      m' := ListDel(m', node);
      freed := freed + [node];
      node := m'[node].prev;
    }
    ok := true;
  }

  /**
    A loop of mdl_caching_pool_destroy: every node is to be taken out.  It steps on through the
    link cleared by list_del, so it gets through (ok) exactly if the ring has no nodes.
   */
  method UnlinkForward(m: Memory, head: int, ghost nodes: seq<int>)
    returns (ok: bool, m': Memory, freed: seq<int>)
    requires IsRing(m, head, nodes)
    ensures ok <==> nodes == []
    ensures ok ==> m' == m && freed == []
    ensures !ok ==> IsRing(m', head, nodes[1..]) && freed == [nodes[0]]
  {
    ghost var ring := [head] + nodes;
    assert Joined(m, ring, 0) && Joined(m, ring, After(ring, 0));
    m', freed := m, [];
    var node := m[head].next;
    while node != head
      invariant freed == [] ==> m' == m && node == ring[After(ring, 0)]
      invariant freed != [] ==> nodes != [] && freed == [nodes[0]] && node == NULL && IsRing(m', head, nodes[1..])
      decreases 1 - |freed|
    {
      if node !in m' {
        return false, m', freed;
      }
      DelRing(m, head, nodes, 0);
      assert Dropped(nodes, 0) == nodes[1..];
      m' := ListDel(m', node);
      freed := freed + [node];
      node := m'[node].next;
    }
    ok := true;
  }
}
