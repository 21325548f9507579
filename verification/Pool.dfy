/**
  pool/pool.c: a bump allocator over a growing list of blocks.
 */
module Pool {
  import opened LinkedRing
  import opened PoolBlocks

  class MemoryPool {
    var blocks: seq<Block>
    var capacity: int
    const incrementSize: int

    /** The links of the list head and of the blocks, by address. */
    var links: Memory

    const head: int

    /** Everything handed out so far. */
    ghost var regions: seq<Region>

    ghost predicate Valid()
      reads this
    {
      && BlocksOk(blocks) && RegionsOk(blocks, regions) && capacity == Capacity(blocks) && incrementSize >= 0
      && head == HeadOf(blocks) && IsRing(links, head, Nodes(blocks))
    }

    /** mdl_pool_create_int, in a buffer of initialSize bytes that holds the headers up to the first aligned address. */
    constructor (buffer: int, initialSize: int, incrementSize: int)
      requires buffer > 0 && incrementSize >= 0
      requires AlignPtr(buffer + SIZEOF_POOL + SIZEOF_BLOCK) <= buffer + initialSize
      ensures Valid() && regions == [] && capacity == initialSize && this.incrementSize == incrementSize
      ensures var start := buffer + SIZEOF_POOL + SIZEOF_BLOCK;
        blocks == [Block(buffer, start, AlignPtr(start), buffer + initialSize)]
    {
      var start := buffer + SIZEOF_POOL + SIZEOF_BLOCK;
      var b := Block(buffer, start, AlignPtr(start), buffer + initialSize);
      blocks, capacity, this.incrementSize := [b], initialSize, incrementSize;
      var head, node := buffer + HEAD_OFFSET, buffer + SIZEOF_POOL;
      InitRing(map[], head);
      AddRing(InitHead(map[], head), head, [], node);
      assert Nodes([b]) == [node] == [node] + [];
      this.head, links := head, ListAdd(InitHead(map[], head), node, head);
      regions := [];
    }

    /** What mdl_pool_get_used_size reports. */
    ghost function UsedSize(): int
      reads this`blocks
    {
      SIZEOF_POOL + Used(blocks)
    }

    /** mdl_pool_alloc_from_block on the block at place i. */
    method AllocFromBlock(i: nat, size: nat) returns (p: int)
      requires Valid() && i < |blocks|
      modifies this`blocks, this`regions
      ensures Valid()
      ensures !old(HasRoom(blocks[i], size)) ==> p == NULL && blocks == old(blocks) && regions == old(regions)
      ensures old(HasRoom(blocks[i], size)) ==>
        && p == old(blocks[i].current) != NULL && regions == old(regions) + [Region(p, Rounded(size))]
        && blocks == old(blocks)[i := old(blocks[i]).(current := p + Rounded(size))]
        && UsedSize() == old(UsedSize()) + Rounded(size)
    {
      var rounded := Rounded(size);
      if blocks[i].end - blocks[i].current >= rounded {
        TakenBlocks(blocks, i, size);
        TakenRegions(blocks, regions, i, size);
        TakenSums(blocks, i, size);
        NodesTaken(blocks, i, size);
        assert BlockAt(blocks, i);
        p := blocks[i].current;
        regions := regions + [RegionAt(blocks[i], size)];
        blocks := blocks[i := blocks[i].(current := p + rounded)];
      } else {
        p := NULL;
      }
    }

    /** mdl_pool_create_block; memory is what the factory's policy returns, NULL or fresh. */
    method CreateBlock(size: int, memory: int) returns (ok: bool)
      requires Valid() && size >= SIZEOF_BLOCK
      requires memory != NULL ==> memory > 0 && Clear(blocks, memory, memory + size)
      requires memory != NULL ==> AlignPtr(memory + SIZEOF_BLOCK) <= memory + size
      modifies this`blocks, this`capacity, this`links
      ensures Valid() && ok == (memory != NULL)
      ensures !ok ==> blocks == old(blocks) && capacity == old(capacity)
      ensures ok ==>
        && blocks == [Block(memory, memory + SIZEOF_BLOCK, AlignPtr(memory + SIZEOF_BLOCK), memory + size)]
                     + old(blocks)
        && capacity == old(capacity) + size && UsedSize() == old(UsedSize()) + SIZEOF_BLOCK + Pad(memory)
    {
      ok := memory != NULL;
      if ok {
        AddedBlocks(blocks, regions, NewBlock(memory, size));
        NodesClear(blocks, memory, memory + size, memory);
        AddRing(links, head, Nodes(blocks), memory);
        capacity := capacity + size;
        assert Nodes([NewBlock(memory, size)] + blocks) == [memory] + Nodes(blocks);
        assert ([NewBlock(memory, size)] + blocks)[1..] == blocks;
        blocks := [NewBlock(memory, size)] + blocks;
        links := ListAdd(links, memory, head);
      }
    }

    /** The policy may be asked for another block, and gives one. */
    predicate MayGrow(memory: int)
      reads this
    {
      incrementSize > 0 && memory != NULL
    }

    /**
      mdl_pool_allocate_find: look through all blocks, then grow.  NULL after growth is the case in
      which the assertion that follows it fails.
     */
    method AllocateFind(size: nat, memory: int) returns (p: int, ghost i: nat)
      requires Valid()
      requires memory != NULL && incrementSize > 0 ==>
        memory > 0 && Clear(blocks, memory, memory + GrowSize(size, incrementSize))
      modifies this`blocks, this`capacity, this`regions, this`links
      ensures Valid()
      ensures FirstRoom(old(blocks), size, i)
      ensures i < |old(blocks)| ==>
        && p == old(blocks)[i].current != NULL
        && blocks == old(blocks)[i := old(blocks)[i].(current := p + Rounded(size))]
        && capacity == old(capacity) && UsedSize() == old(UsedSize()) + Rounded(size)
      ensures i == |old(blocks)| && !MayGrow(memory) ==>
        p == NULL && blocks == old(blocks) && capacity == old(capacity)
      ensures i == |old(blocks)| && MayGrow(memory) ==>
        var start, grown := AlignPtr(memory + SIZEOF_BLOCK), GrowSize(size, incrementSize);
        && p == (if start + Rounded(size) <= memory + grown then start else NULL)
        && blocks == [Block(memory, memory + SIZEOF_BLOCK, start + (if p != NULL then Rounded(size) else 0),
                            memory + grown)]
                     + old(blocks)
        && capacity == old(capacity) + grown
        && UsedSize() == old(UsedSize()) + SIZEOF_BLOCK + Pad(memory) + if p != NULL then Rounded(size) else 0
      ensures regions == old(regions) + if p != NULL then [Region(p, Rounded(size))] else []
    {
      NextNode(0);
      var node, n: nat := links[head].next, 0;
      i := 0;
      while node != head
        invariant i == n <= |blocks| && Valid() && node == ListNode(i) && (node == head <==> i == |blocks|)
        invariant blocks == old(blocks) && regions == old(regions) && capacity == old(capacity) && links == old(links)
        invariant forall k :: 0 <= k < i ==> !HasRoom(blocks[k], size)
        decreases |blocks| - i
      {
        NextNode(i);
        p := AllocFromBlock(n, size);
        if p != NULL {
          return;
        }
        node, n, i := links[node].next, n + 1, i + 1;
      }
      p := NULL;
      if incrementSize == 0 {
        return;
      }
      var ok := CreateBlock(GrowSize(size, incrementSize), memory);
      if ok {
        p := AllocFromBlock(0, size);
      }
    }

    /**
      mdl_pool_alloc.  The first block with room serves the request from its first free address on,
      otherwise a new block; the region is as large as the rounded size, and no other request got any
      of it, since Valid holds.
     */
    method Alloc(size: nat, memory: int) returns (p: int, ghost i: nat)
      requires Valid()
      requires memory != NULL && incrementSize > 0 ==>
        memory > 0 && Clear(blocks, memory, memory + GrowSize(size, incrementSize))
      modifies this`blocks, this`capacity, this`regions, this`links
      ensures Valid()
      ensures FirstRoom(old(blocks), size, i)
      ensures i < |old(blocks)| ==>
        && p == old(blocks)[i].current != NULL
        && blocks == old(blocks)[i := old(blocks)[i].(current := p + Rounded(size))]
        && capacity == old(capacity) && UsedSize() == old(UsedSize()) + Rounded(size)
      ensures i == |old(blocks)| && !MayGrow(memory) ==>
        p == NULL && blocks == old(blocks) && capacity == old(capacity)
      ensures i == |old(blocks)| && MayGrow(memory) ==>
        var start, grown := AlignPtr(memory + SIZEOF_BLOCK), GrowSize(size, incrementSize);
        && p == (if start + Rounded(size) <= memory + grown then start else NULL)
        && blocks == [Block(memory, memory + SIZEOF_BLOCK, start + (if p != NULL then Rounded(size) else 0),
                            memory + grown)]
                     + old(blocks)
        && capacity == old(capacity) + grown
        && UsedSize() == old(UsedSize()) + SIZEOF_BLOCK + Pad(memory) + if p != NULL then Rounded(size) else 0
      ensures regions == old(regions) + if p != NULL then [Region(p, Rounded(size))] else []
    {
      p := AllocFromBlock(0, size);
      i := 0;
      if p == NULL {
        p, i := AllocateFind(size, memory);
      }
    }

    /** A pool that may grow and is given aligned memory serves every request. */
    method AllocAligned(size: nat, memory: int) returns (p: int)
      requires Valid() && incrementSize > 0 && memory > 0
      requires memory % POOL_ALIGNMENT == 0 && Clear(blocks, memory, memory + GrowSize(size, incrementSize))
      modifies this`blocks, this`capacity, this`regions, this`links
      ensures Valid() && p != NULL && regions == old(regions) + [Region(p, Rounded(size))]
      ensures exists i: nat ::
        FirstRoom(old(blocks), size, i) && |blocks| == old(|blocks|) + if i < old(|blocks|) then 0 else 1
    {
      FreshBlockFits(memory, size, incrementSize);
      ghost var i;
      p, i := Alloc(size, memory);
    }

    /** mdl_pool_get_used_size: never more than the capacity; the difference is the free space of all blocks. */
    method GetUsedSize() returns (used: int)
      requires Valid()
      ensures used == UsedSize() && used + Unused(blocks) == capacity && 0 < used <= capacity
    {
      used := SIZEOF_POOL;
      NextNode(0);
      var node, i := links[head].next, 0;
      while node != head
        invariant i <= |blocks| && node == ListNode(i) && (node == head <==> i == |blocks|) && used > 0
        invariant used + Used(blocks[i..]) == SIZEOF_POOL + Used(blocks)
        decreases |blocks| - i
      {
        NextNode(i);
        assert BlockAt(blocks, i);
        assert blocks[i..][1..] == blocks[i + 1..];
        used := used + (blocks[i].current - blocks[i].start) + SIZEOF_BLOCK;
        node, i := links[node].next, i + 1;
      }
      UsedAndUnused(blocks);
    }

    /** Where list_for_each stands after i blocks. */
    ghost function ListNode(i: nat): int
      requires i <= |blocks|
      reads this
    {
      if i < |blocks| then NodeOf(blocks[i]) else head
    }

    /** Its first node and its next one. */
    lemma NextNode(i: nat)
      requires Valid() && i < |blocks|
      ensures head in links && links[head].next == ListNode(0)
      ensures ListNode(i) in links && links[ListNode(i)].next == ListNode(i + 1)
      ensures ListNode(i) != head && (ListNode(i + 1) == head <==> i + 1 == |blocks|)
    {
      var ring := [head] + Nodes(blocks);
      assert Joined(links, ring, 0) && Joined(links, ring, i + 1);
      assert ring[i + 1] != ring[0];
      assert i + 1 < |blocks| ==> ring[i + 2] != ring[0];
    }

    /**
      mdl_pool_reset.  The loop over the list returns (ok) exactly for pools of one block: all of
      it is free again, with its capacity.  In a pool that has grown it gives back the initial
      block, by an address that the block policy never returned, and follows its cleared link.
     */
    method Reset() returns (ok: bool, freed: seq<int>)
      requires Valid()
      modifies this`blocks, this`capacity, this`regions, this`links
      ensures ok <==> old(|blocks|) == 1
      ensures ok ==> Valid() && freed == [] && |blocks| == 1 && regions == [] && capacity == old(capacity)
      ensures ok ==> blocks == [old(blocks)[0].(current := AlignPtr(old(blocks)[0].start))]
      ensures ok ==> Unused(blocks) == blocks[0].end - AlignPtr(blocks[0].start)
      ensures !ok ==> freed == [head - HEAD_OFFSET + SIZEOF_POOL] && forall b <- old(blocks) :: b.base != freed[0]
    {
      var last := |blocks| - 1;
      var node;
      ok, links, node, freed := UnlinkBackward(links, head, Nodes(blocks));
      assert BlockAt(blocks, last);
      if !ok {
        InitialInside(blocks);
        blocks := blocks[..last];
        return;
      }
      assert blocks == [blocks[0]] && node == NodeOf(blocks[0]);
      OneBlock(blocks[0]);
      AlignLeast(blocks[0].start, blocks[0].current);
      var b := blocks[0].(current := AlignPtr(blocks[0].start));
      OneBlock(b);
      assert Nodes([b]) == Nodes(blocks);
      blocks, capacity, regions := [b], b.end - b.base, [];
      assert BlockAt(blocks, 0);
    }
  }

  /** The initial block's header is inside memory that begins with the pool's. */
  lemma InitialInside(blocks: seq<Block>)
    requires BlocksOk(blocks)
    ensures forall b <- blocks :: b.base != NodeOf(blocks[|blocks| - 1])
  {
    var last := |blocks| - 1;
    forall i: nat | i < |blocks|
      ensures blocks[i].base != NodeOf(blocks[last])
    {
      assert BlockAt(blocks, last) && BlockAt(blocks, i);
      assert i < last ==> BlocksApart(blocks, i, last);
    }
  }

  /** A pool without free space grows on the first request, and cannot be reset after it. */
  method GrownReset() returns (p: int, ok: bool)
    ensures p != NULL && !ok
  {
    var initialSize := SIZEOF_POOL + SIZEOF_BLOCK;
    var pool := new MemoryPool(POOL_ALIGNMENT, initialSize, 1);
    var memory := POOL_ALIGNMENT + initialSize;
    AlignLeast(memory, memory);
    assert !HasRoom(pool.blocks[0], 1);
    p := pool.AllocAligned(1, memory);
    var freed;
    ok, freed := pool.Reset();
  }
}
