/**
  pool/pool.c on values: blocks of memory, the regions handed out of them, and how much a new
  block has to hold.
 */
module PoolBlocks {
  import opened Arithmetic

  const POOL_ALIGNMENT: int := 4

  type Header = n: int | 0 < n && n % 4 == 0 witness 40

  /** sizeof(mdl_pool_t) and sizeof(mdl_pool_block_t): any multiples of four. */
  const SIZEOF_POOL: Header

  const SIZEOF_BLOCK: Header

  type Offset = n: int | 0 <= n < SIZEOF_POOL witness 0

  /** The place of block_head_list in mdl_pool_t. */
  const HEAD_OFFSET: Offset

  /** A block: its memory is base .. end, its header ends at start, and current is the first free byte. */
  datatype Block = Block(base: int, start: int, current: int, end: int)

  /** Memory handed out. */
  datatype Region = Region(addr: int, size: int)

  /** ALIGN_PTR. */
  function AlignPtr(p: int): (r: int)
    ensures p <= r < p + POOL_ALIGNMENT && r % POOL_ALIGNMENT == 0
  {
    p + (-p) % POOL_ALIGNMENT
  }

  /** No aligned address lies between. */
  lemma AlignLeast(p: int, q: int)
    requires p <= q && q % POOL_ALIGNMENT == 0
    ensures AlignPtr(p) <= q
  {
    var r := AlignPtr(p);
    var a, b := r / POOL_ALIGNMENT, q / POOL_ALIGNMENT;
    assert r == POOL_ALIGNMENT * a && q == POOL_ALIGNMENT * b;
  }

  /** The size that an allocation takes up. */
  function Rounded(size: nat): (r: nat)
    ensures size <= r < size + POOL_ALIGNMENT && r % POOL_ALIGNMENT == 0
  {
    if size % POOL_ALIGNMENT != 0 then (size + POOL_ALIGNMENT) / POOL_ALIGNMENT * POOL_ALIGNMENT else size
  }

  function NewBlock(base: int, size: int): Block {
    var start := base + SIZEOF_BLOCK;
    Block(base, start, AlignPtr(start), base + size)
  }

  /** The size of the block that mdl_pool_allocate_find asks for. */
  function GrowSize(size: nat, increment: int): (r: int)
    requires increment > 0
    ensures var need := size + SIZEOF_BLOCK + POOL_ALIGNMENT;
      && (need <= increment ==> r == increment)
      && (need > increment ==> need < r <= need + increment && r % increment == 0)
  {
    var need := size + SIZEOF_BLOCK + POOL_ALIGNMENT;
    if increment < need then
      CountCovers(need, increment);
      (need + increment) / increment * increment
    else increment
  }

  lemma CountCovers(need: int, increment: int)
    requires increment > 0
    ensures need < (need + increment) / increment * increment <= need + increment
    ensures (need + increment) / increment * increment % increment == 0
  {
    var q, r := (need + increment) / increment, (need + increment) % increment;
    assert q * increment + r == need + increment;
    ModUnique(q * increment, increment, q, 0);
  }

  predicate HasRoom(b: Block, size: nat) {
    b.end - b.current >= Rounded(size)
  }

  /** A new block at an aligned address satisfies the request it was made for, whatever size and increment. */
  lemma FreshBlockFits(base: int, size: nat, increment: int)
    requires increment > 0 && base % POOL_ALIGNMENT == 0
    ensures HasRoom(NewBlock(base, GrowSize(size, increment)), size)
  {
    SlightlyOff(base, size, GrowSize(size, increment));
  }

  /** For blocks at any address: the assertion after growth is safe exactly if at most one byte is lost to alignment. */
  lemma FreshBlockExact(base: int)
    ensures (forall size: nat, increment: int :: increment > 0 ==>
              HasRoom(NewBlock(base, GrowSize(size, increment)), size))
       <==> base % POOL_ALIGNMENT == 0 || base % POOL_ALIGNMENT == 3
  {
    if base % POOL_ALIGNMENT == 0 || base % POOL_ALIGNMENT == 3 {
      forall size: nat, increment: int | increment > 0
        ensures HasRoom(NewBlock(base, GrowSize(size, increment)), size)
      {
        SlightlyOff(base, size, GrowSize(size, increment));
      }
    } else {
      var size: nat, increment: int := 1, 1 + SIZEOF_BLOCK + POOL_ALIGNMENT;
      assert GrowSize(size, increment) == increment;
      TooFarOff(base, increment);
      assert !HasRoom(NewBlock(base, GrowSize(size, increment)), size);
    }
  }

  /** How far a header's end is from the next aligned address. */
  lemma Padding(base: int)
    ensures AlignPtr(base + SIZEOF_BLOCK) - (base + SIZEOF_BLOCK)
         == if base % POOL_ALIGNMENT == 0 then 0 else POOL_ALIGNMENT - base % POOL_ALIGNMENT
  {
    var p, k, q, r := base + SIZEOF_BLOCK, SIZEOF_BLOCK / 4, base / 4, base % 4;
    assert p == 4 * (q + k) + r;
  }

  lemma SlightlyOff(base: int, size: nat, grown: int)
    requires base % POOL_ALIGNMENT == 0 || base % POOL_ALIGNMENT == 3
    requires grown >= size + SIZEOF_BLOCK + POOL_ALIGNMENT
    ensures HasRoom(NewBlock(base, grown), size)
  {
    Padding(base);
    var start, r := base + SIZEOF_BLOCK, Rounded(size);
    assert AlignPtr(start) <= start + 1 && r <= size + 3;
  }

  lemma TooFarOff(base: int, grown: int)
    requires base % POOL_ALIGNMENT == 1 || base % POOL_ALIGNMENT == 2
    requires grown == 1 + SIZEOF_BLOCK + POOL_ALIGNMENT
    ensures !HasRoom(NewBlock(base, grown), 1)
  {
    Padding(base);
    var start := base + SIZEOF_BLOCK;
    assert AlignPtr(start) >= start + 2 && Rounded(1) == 4;
  }

  /** What alignment costs behind the header of a block. */
  function Pad(base: int): int {
    AlignPtr(base + SIZEOF_BLOCK) - (base + SIZEOF_BLOCK)
  }

  /** i is the first block with room for the request; |blocks| if there is none. */
  ghost predicate FirstRoom(blocks: seq<Block>, size: nat, i: nat) {
    && i <= |blocks| && (i < |blocks| ==> HasRoom(blocks[i], size))
    && forall k: nat :: k < i ==> !HasRoom(blocks[k], size)
  }

  // ---------- what holds between calls ----------

  predicate BlockOk(b: Block) {
    && 0 < b.base < b.start <= b.current <= b.end
    && b.current % POOL_ALIGNMENT == 0
  }

  /** Extents of memory that do not meet. */
  predicate Disjoint(a: int, a': int, b: int, b': int) {
    a' <= b || b' <= a
  }

  predicate BlocksApart(blocks: seq<Block>, i: nat, j: nat)
    requires i < j < |blocks|
  {
    Disjoint(blocks[i].base, blocks[i].end, blocks[j].base, blocks[j].end)
  }

  predicate BlockAt(blocks: seq<Block>, i: nat)
    requires i < |blocks|
  {
    && BlockOk(blocks[i])
    && blocks[i].start - blocks[i].base == SIZEOF_BLOCK + if i == |blocks| - 1 then SIZEOF_POOL else 0
  }

  ghost predicate BlocksOk(blocks: seq<Block>) {
    && blocks != []
    && (forall i: nat {:trigger BlockAt(blocks, i)} :: i < |blocks| ==> BlockAt(blocks, i))
    && (forall i: nat, j: nat {:trigger BlocksApart(blocks, i, j)} :: i < j < |blocks| ==> BlocksApart(blocks, i, j))
  }

  /** The address of a block's header, which begins with block_node_list. */
  function NodeOf(b: Block): int {
    b.start - SIZEOF_BLOCK
  }

  /** The nodes of the pool's list, in its order. */
  function Nodes(blocks: seq<Block>): (r: seq<int>)
    ensures |r| == |blocks|
  {
    seq(|blocks|, i requires 0 <= i < |blocks| => NodeOf(blocks[i]))
  }

  /** The list's head is in the pool's own header, at the beginning of the initial block. */
  function HeadOf(blocks: seq<Block>): int
    requires blocks != []
  {
    blocks[|blocks| - 1].base + HEAD_OFFSET
  }

  /** A list of blocks that are apart has nodes that are apart, also from those of a clear piece of memory. */
  lemma NodesClear(blocks: seq<Block>, base: int, end: int, node: int)
    requires BlocksOk(blocks) && Clear(blocks, base, end) && base <= node < end
    ensures node != HeadOf(blocks) && node !in Nodes(blocks)
  {
    var last := |blocks| - 1;
    assert BlockAt(blocks, last) && Disjoint(base, end, blocks[last].base, blocks[last].end);
    forall i: nat | i < |blocks|
      ensures Nodes(blocks)[i] != node
    {
      assert BlockAt(blocks, i) && Disjoint(base, end, blocks[i].base, blocks[i].end);
    }
  }

  lemma NodesTaken(blocks: seq<Block>, i: nat, size: nat)
    requires i < |blocks|
    ensures Nodes(blocks[i := Taken(blocks[i], size)]) == Nodes(blocks)
    ensures HeadOf(blocks[i := Taken(blocks[i], size)]) == HeadOf(blocks)
  {
  }

  /** The region lies in the used part of block i. */
  predicate InBlock(b: Block, r: Region) {
    r.size >= 0 && r.addr % POOL_ALIGNMENT == 0 && b.start <= r.addr && r.addr + r.size <= b.current
  }

  /** The region lies in the used part of some block. */
  ghost predicate Inside(blocks: seq<Block>, r: Region) {
    exists i: nat :: i < |blocks| && InBlock(blocks[i], r)
  }

  predicate RegionsApart(regions: seq<Region>, i: nat, j: nat)
    requires i < j < |regions|
  {
    Disjoint(regions[i].addr, regions[i].addr + regions[i].size, regions[j].addr, regions[j].addr + regions[j].size)
  }

  /** All regions are aligned, inside a block, and pairwise disjoint. */
  ghost predicate RegionsOk(blocks: seq<Block>, regions: seq<Region>) {
    && (forall i: nat {:trigger regions[i]} :: i < |regions| ==> Inside(blocks, regions[i]))
    && (forall i: nat, j: nat {:trigger RegionsApart(regions, i, j)} ::
          i < j < |regions| ==> RegionsApart(regions, i, j))
  }

  function Capacity(blocks: seq<Block>): int {
    if blocks == [] then 0 else blocks[0].end - blocks[0].base + Capacity(blocks[1..])
  }

  /** The sum that mdl_pool_get_used_size takes over the blocks. */
  function Used(blocks: seq<Block>): int {
    if blocks == [] then 0 else blocks[0].current - blocks[0].start + SIZEOF_BLOCK + Used(blocks[1..])
  }

  function Unused(blocks: seq<Block>): int {
    if blocks == [] then 0 else blocks[0].end - blocks[0].current + Unused(blocks[1..])
  }

  /** Reported used size and free space add up to the capacity. */
  lemma {:induction false} UsedAndUnused(blocks: seq<Block>)
    requires blocks != [] && forall i: nat {:trigger BlockAt(blocks, i)} :: i < |blocks| ==> BlockAt(blocks, i)
    ensures SIZEOF_POOL + Used(blocks) + Unused(blocks) == Capacity(blocks) && Unused(blocks) >= 0
  {
    assert BlockAt(blocks, 0);
    var rest := blocks[1..];
    if rest != [] {
      forall i: nat | i < |rest|
        ensures BlockAt(rest, i)
      {
        assert BlockAt(blocks, i + 1);
      }
      UsedAndUnused(rest);
    }
  }

  lemma OneBlock(b: Block)
    ensures Capacity([b]) == b.end - b.base && Unused([b]) == b.end - b.current
  {
    assert [b][1..] == [];
  }

  // ---------- taking from a block ----------

  function Taken(b: Block, size: nat): Block {
    b.(current := b.current + Rounded(size))
  }

  lemma {:induction false} TakenSums(blocks: seq<Block>, i: nat, size: nat)
    requires i < |blocks|
    ensures Capacity(blocks[i := Taken(blocks[i], size)]) == Capacity(blocks)
    ensures Used(blocks[i := Taken(blocks[i], size)]) == Used(blocks) + Rounded(size)
    decreases i
  {
    if i > 0 {
      TakenSums(blocks[1..], i - 1, size);
      assert blocks[i := Taken(blocks[i], size)][1..] == blocks[1..][i - 1 := Taken(blocks[i], size)];
    } else {
      assert blocks[0 := Taken(blocks[0], size)][1..] == blocks[1..];
    }
  }

  lemma TakenBlocks(blocks: seq<Block>, i: nat, size: nat)
    requires BlocksOk(blocks) && i < |blocks| && HasRoom(blocks[i], size)
    ensures BlocksOk(blocks[i := Taken(blocks[i], size)])
  {
    var blocks' := blocks[i := Taken(blocks[i], size)];
    forall k: nat | k < |blocks'|
      ensures BlockAt(blocks', k)
    {
      assert BlockAt(blocks, k);
    }
    forall k: nat, j: nat | k < j < |blocks'|
      ensures BlocksApart(blocks', k, j)
    {
      assert BlocksApart(blocks, k, j);
    }
  }

  /** The region taken from block i. */
  function RegionAt(b: Block, size: nat): Region {
    Region(b.current, Rounded(size))
  }

  lemma TakenRegions(blocks: seq<Block>, regions: seq<Region>, i: nat, size: nat)
    requires BlocksOk(blocks) && RegionsOk(blocks, regions) && i < |blocks| && HasRoom(blocks[i], size)
    ensures RegionsOk(blocks[i := Taken(blocks[i], size)], regions + [RegionAt(blocks[i], size)])
  {
    var blocks', r := blocks[i := Taken(blocks[i], size)], RegionAt(blocks[i], size);
    var regions' := regions + [r];
    forall k: nat | k < |regions'|
      ensures Inside(blocks', regions'[k])
    {
      if k < |regions| {
        StillInside(blocks, i, size, regions[k]);
      } else {
        assert BlockAt(blocks, i);
        assert InBlock(blocks'[i], r);
      }
    }
    forall k: nat, j: nat | k < j < |regions'|
      ensures RegionsApart(regions', k, j)
    {
      if j < |regions| {
        assert RegionsApart(regions, k, j);
      } else {
        ApartFromNew(blocks, i, size, regions[k]);
      }
    }
  }

  lemma StillInside(blocks: seq<Block>, i: nat, size: nat, r: Region)
    requires i < |blocks| && Inside(blocks, r)
    ensures Inside(blocks[i := Taken(blocks[i], size)], r)
  {
    var blocks' := blocks[i := Taken(blocks[i], size)];
    var k: nat :| k < |blocks| && InBlock(blocks[k], r);
    assert InBlock(blocks'[k], r);
  }

  lemma ApartFromNew(blocks: seq<Block>, i: nat, size: nat, r: Region)
    requires BlocksOk(blocks) && i < |blocks| && HasRoom(blocks[i], size) && Inside(blocks, r)
    ensures var n := RegionAt(blocks[i], size); Disjoint(r.addr, r.addr + r.size, n.addr, n.addr + n.size)
  {
    var k: nat :| k < |blocks| && InBlock(blocks[k], r);
    assert BlockAt(blocks, k) && BlockAt(blocks, i);
    if k < i {
      assert BlocksApart(blocks, k, i);
    } else if i < k {
      assert BlocksApart(blocks, i, k);
    }
  }

  // ---------- adding a block ----------

  /** The memory base .. end meets no block of the pool. */
  ghost predicate Clear(blocks: seq<Block>, base: int, end: int) {
    forall i: nat {:trigger blocks[i]} :: i < |blocks| ==> Disjoint(base, end, blocks[i].base, blocks[i].end)
  }

  lemma AddedBlocks(blocks: seq<Block>, regions: seq<Region>, b: Block)
    requires BlocksOk(blocks) && RegionsOk(blocks, regions) && BlockOk(b) && b.start - b.base == SIZEOF_BLOCK
    requires Clear(blocks, b.base, b.end)
    ensures BlocksOk([b] + blocks) && RegionsOk([b] + blocks, regions)
    ensures Capacity([b] + blocks) == b.end - b.base + Capacity(blocks)
  {
    var blocks' := [b] + blocks;
    assert blocks'[1..] == blocks;
    forall k: nat | k < |blocks'|
      ensures BlockAt(blocks', k)
    {
      assert k > 0 ==> BlockAt(blocks, k - 1);
    }
    forall k: nat, j: nat | k < j < |blocks'|
      ensures BlocksApart(blocks', k, j)
    {
      assert blocks'[j] == blocks[j - 1];
      assert k > 0 ==> BlocksApart(blocks, k - 1, j - 1);
    }
    forall k: nat | k < |regions|
      ensures Inside(blocks', regions[k])
    {
      var i: nat :| i < |blocks| && InBlock(blocks[i], regions[k]);
      assert InBlock(blocks'[i + 1], regions[k]);
    }
  }
}
