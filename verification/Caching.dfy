/**
  pool/caching.c: a cache of released pools in sixteen size classes.

  Pools appear by address, capacity, class and list of blocks.  What malloc returns is a parameter.
 */
module Caching {
  import opened LinkedRing
  import PoolBlocks

  const CACHING_POOL_ARRAY_SIZE: nat := 16

  const START_SIZE: nat := 5

  /** A size_t counts modulo 2^64. */
  const SIZE_WRAP: nat := 0x1_0000_0000_0000_0000

  const POOL_SIZES: seq<nat> := [
    256, 512, 1024, 2048, 4096, 8192, 12288, 16384,
    20480, 24576, 28672, 32768, 40960, 49152, 57344, 65536]

  /** A pool: its blocks in list order, their links, and what the cache keeps in data_factory. */
  datatype CachedPool = CachedPool(addr: nat, capacity: nat, cls: nat, blocks: seq<int>, links: Memory) {
    /** The address of block_head_list. */
    function Head(): int {
      addr + PoolBlocks.HEAD_OFFSET
    }
  }

  /** A new pool: the list of its blocks holds the initial one, behind the pool's own header. */
  function Fresh(addr: nat, capacity: nat, cls: nat): (p: CachedPool)
    requires addr != NULL
    ensures p.addr == addr && p.capacity == capacity && p.cls == cls
    ensures IsRing(p.links, p.Head(), p.blocks) && p.blocks == [addr + PoolBlocks.SIZEOF_POOL]
  {
    var head, node := addr + PoolBlocks.HEAD_OFFSET, addr + PoolBlocks.SIZEOF_POOL;
    InitRing(map[], head);
    AddRing(InitHead(map[], head), head, [], node);
    assert [node] + [] == [node];
    CachedPool(addr, capacity, cls, [node], ListAdd(InitHead(map[], head), node, head))
  }

  /** The pool with one more block, at the front of its list. */
  function Grown(p: CachedPool, size: nat, node: int): (q: CachedPool)
    requires IsRing(p.links, p.Head(), p.blocks) && node != NULL && node != p.Head() && node !in p.blocks
    ensures IsRing(q.links, q.Head(), q.blocks) && q.blocks == [node] + p.blocks
    ensures q.addr == p.addr && q.cls == p.cls && q.capacity == p.capacity + size
  {
    AddRing(p.links, p.Head(), p.blocks, node);
    p.(capacity := p.capacity + size, blocks := [node] + p.blocks, links := ListAdd(p.links, node, p.Head()))
  }

  // ---------- size classes ----------

  lemma SizesGrow(i: nat, j: nat)
    requires i < j < CACHING_POOL_ARRAY_SIZE
    ensures POOL_SIZES[i] < POOL_SIZES[j]
  {
  }

  /** idx is the first class whose pools are large enough; CACHING_POOL_ARRAY_SIZE if there is none. */
  ghost predicate SmallestFit(size: nat, idx: nat) {
    && idx <= CACHING_POOL_ARRAY_SIZE
    && (forall i :: 0 <= i < idx ==> POOL_SIZES[i] < size)
    && (forall i :: idx <= i < CACHING_POOL_ARRAY_SIZE ==> size <= POOL_SIZES[i])
  }

  /** The search from the middle, down or up. */
  method ClassOf(size: nat) returns (idx: int)
    ensures 0 <= idx && SmallestFit(size, idx)
  {
    if size <= POOL_SIZES[START_SIZE] {
      idx := START_SIZE - 1;
      while idx >= 0 && POOL_SIZES[idx] >= size
        invariant -1 <= idx < START_SIZE
        invariant forall i :: idx < i < CACHING_POOL_ARRAY_SIZE ==> size <= POOL_SIZES[i]
      {
        idx := idx - 1;
      }
      forall i | 0 <= i < idx + 1
        ensures POOL_SIZES[i] < size
      {
        if i < idx {
          SizesGrow(i, idx);
        }
      }
      idx := idx + 1;
    } else {
      idx := START_SIZE + 1;
      while idx < CACHING_POOL_ARRAY_SIZE && POOL_SIZES[idx] < size
        invariant START_SIZE < idx <= CACHING_POOL_ARRAY_SIZE
        invariant forall i :: 0 <= i < idx ==> POOL_SIZES[i] < size
      {
        idx := idx + 1;
      }
      forall i | idx <= i < CACHING_POOL_ARRAY_SIZE
        ensures size <= POOL_SIZES[i]
      {
        if idx < i {
          SizesGrow(idx, i);
        }
      }
    }
  }

  function Peak(a: nat, b: nat): nat {
    if a < b then b else a
  }

  // ---------- sums over lists of pools ----------

  function Total(pools: seq<CachedPool>): nat {
    if pools == [] then 0 else pools[0].capacity + Total(pools[1..])
  }

  function TotalOf(lists: seq<seq<CachedPool>>): nat {
    if lists == [] then 0 else Total(lists[0]) + TotalOf(lists[1..])
  }

  function Without(pools: seq<CachedPool>, p: CachedPool): seq<CachedPool> {
    if pools == [] then [] else if pools[0] == p then pools[1..] else [pools[0]] + Without(pools[1..], p)
  }

  /** The nodes of a list: pool_node_list comes first in a pool. */
  function Places(pools: seq<CachedPool>): seq<int> {
    seq(|pools|, i requires 0 <= i < |pools| => pools[i].addr)
  }

  /** The addresses on a list. */
  function Addrs(pools: seq<CachedPool>): multiset<nat> {
    if pools == [] then multiset{} else multiset{pools[0].addr} + Addrs(pools[1..])
  }

  function AddrsOf(lists: seq<seq<CachedPool>>): multiset<nat> {
    if lists == [] then multiset{} else Addrs(lists[0]) + AddrsOf(lists[1..])
  }

  lemma Front(p: CachedPool, pools: seq<CachedPool>)
    ensures Total([p] + pools) == p.capacity + Total(pools)
    ensures Addrs([p] + pools) == multiset{p.addr} + Addrs(pools)
  {
    assert ([p] + pools)[1..] == pools;
  }

  lemma {:induction false} WithoutSums(pools: seq<CachedPool>, p: CachedPool)
    requires p in pools
    ensures Total(Without(pools, p)) + p.capacity == Total(pools) && |Without(pools, p)| + 1 == |pools|
    ensures Addrs(Without(pools, p)) + multiset{p.addr} == Addrs(pools)
  {
    if pools[0] != p {
      WithoutSums(pools[1..], p);
      Front(pools[0], Without(pools[1..], p));
    }
  }

  /** pools with q in the place of p. */
  function Replaced(pools: seq<CachedPool>, p: CachedPool, q: CachedPool): seq<CachedPool> {
    if pools == [] then [] else if pools[0] == p then [q] + pools[1..] else [pools[0]] + Replaced(pools[1..], p, q)
  }

  lemma {:induction false} ReplacedSums(pools: seq<CachedPool>, p: CachedPool, q: CachedPool)
    requires p in pools && p.addr == q.addr
    ensures Total(Replaced(pools, p, q)) + p.capacity == Total(pools) + q.capacity && |Replaced(pools, p, q)| == |pools|
    ensures Addrs(Replaced(pools, p, q)) == Addrs(pools)
  {
    if pools[0] == p {
      Front(q, pools[1..]);
    } else {
      ReplacedSums(pools[1..], p, q);
      Front(pools[0], Replaced(pools[1..], p, q));
    }
  }

  lemma {:induction false} ReplacedMembers(pools: seq<CachedPool>, p: CachedPool, q: CachedPool)
    ensures forall x <- Replaced(pools, p, q) :: x == q || x in pools
  {
    if pools != [] && pools[0] != p {
      ReplacedMembers(pools[1..], p, q);
    }
  }

  lemma {:induction false} WithoutMembers(pools: seq<CachedPool>, p: CachedPool)
    ensures forall q <- Without(pools, p) :: q in pools
  {
    if pools != [] && pools[0] != p {
      WithoutMembers(pools[1..], p);
    }
  }

  lemma {:induction false} UpdateTotal(lists: seq<seq<CachedPool>>, i: nat, pools: seq<CachedPool>)
    requires i < |lists|
    ensures TotalOf(lists[i := pools]) == TotalOf(lists) - Total(lists[i]) + Total(pools)
    ensures Total(lists[i]) <= TotalOf(lists)
    decreases i
  {
    if i > 0 {
      UpdateTotal(lists[1..], i - 1, pools);
      assert lists[i := pools][1..] == lists[1..][i - 1 := pools];
    } else {
      assert lists[0 := pools][1..] == lists[1..];
    }
  }

  lemma {:induction false} UpdateAddrs(lists: seq<seq<CachedPool>>, i: nat, pools: seq<CachedPool>, a: nat)
    requires i < |lists|
    ensures AddrsOf(lists[i := pools])[a] + Addrs(lists[i])[a] == AddrsOf(lists)[a] + Addrs(pools)[a]
    decreases i
  {
    if i > 0 {
      UpdateAddrs(lists[1..], i - 1, pools, a);
      assert lists[i := pools][1..] == lists[1..][i - 1 := pools];
    } else {
      assert lists[0 := pools][1..] == lists[1..];
    }
  }

  /** The first pool leaves a list. */
  lemma PopFront(lists: seq<seq<CachedPool>>, i: nat, a: nat)
    requires i < |lists| && lists[i] != []
    ensures var p, lists' := lists[i][0], lists[i := lists[i][1..]];
      && TotalOf(lists') + p.capacity == TotalOf(lists)
      && AddrsOf(lists')[a] + multiset{p.addr}[a] == AddrsOf(lists)[a]
  {
    UpdateTotal(lists, i, lists[i][1..]);
    UpdateAddrs(lists, i, lists[i][1..], a);
  }

  /** A pool joins a list at its front. */
  lemma PushFront(lists: seq<seq<CachedPool>>, i: nat, p: CachedPool, a: nat)
    requires i < |lists|
    ensures var lists' := lists[i := [p] + lists[i]];
      && TotalOf(lists') == TotalOf(lists) + p.capacity
      && AddrsOf(lists')[a] == AddrsOf(lists)[a] + multiset{p.addr}[a]
  {
    Front(p, lists[i]);
    UpdateTotal(lists, i, [p] + lists[i]);
    UpdateAddrs(lists, i, [p] + lists[i], a);
  }

  /** Every pool of a free list has exactly the size of its class. */
  ghost predicate ClassOk(list: seq<CachedPool>, i: nat)
    requires i < CACHING_POOL_ARRAY_SIZE
  {
    forall p <- list :: p.cls == i && |p.blocks| == 1 && InUseOk(p)
  }

  /** A pool in use: of a class with its size, or larger than all classes, unless it has grown. */
  ghost predicate InUseOk(p: CachedPool) {
    && p.blocks != [] && p.cls <= CACHING_POOL_ARRAY_SIZE && IsRing(p.links, p.Head(), p.blocks)
    && (|p.blocks| == 1 ==>
          if p.cls < CACHING_POOL_ARRAY_SIZE then p.capacity == POOL_SIZES[p.cls]
          else p.capacity > POOL_SIZES[CACHING_POOL_ARRAY_SIZE - 1])
  }

  ghost predicate AllInUse(pools: seq<CachedPool>) {
    forall p <- pools :: InUseOk(p)
  }

  /** A pool that has not grown is larger than all classes exactly if it is of none. */
  lemma ClassFits(p: CachedPool)
    requires InUseOk(p) && |p.blocks| == 1
    ensures p.capacity > POOL_SIZES[CACHING_POOL_ARRAY_SIZE - 1] <==> p.cls >= CACHING_POOL_ARRAY_SIZE
  {
    if p.cls < CACHING_POOL_ARRAY_SIZE - 1 {
      SizesGrow(p.cls, CACHING_POOL_ARRAY_SIZE - 1);
    }
  }

  /** The size of a new pool of a class, or of none. */
  function NewSize(size: nat, cls: nat): nat {
    if cls < CACHING_POOL_ARRAY_SIZE then POOL_SIZES[cls] else size
  }

  /** A new pool has the size of its class, or the requested one if that is beyond all classes. */
  lemma NewPoolOk(size: nat, idx: nat, addr: nat)
    requires SmallestFit(size, idx)
    ensures var n := NewSize(size, idx);
      n >= size && (addr != NULL ==> InUseOk(Fresh(addr, n, idx)))
  {
    assert idx == CACHING_POOL_ARRAY_SIZE ==> POOL_SIZES[CACHING_POOL_ARRAY_SIZE - 1] < size;
  }

  ghost predicate ClassesOk(lists: seq<seq<CachedPool>>) {
    && |lists| == CACHING_POOL_ARRAY_SIZE
    && forall i: nat {:trigger ClassOk(lists[i], i)} :: i < CACHING_POOL_ARRAY_SIZE ==> ClassOk(lists[i], i)
  }

  lemma ClassesUpdate(lists: seq<seq<CachedPool>>, i: nat, pools: seq<CachedPool>)
    requires ClassesOk(lists) && i < CACHING_POOL_ARRAY_SIZE && ClassOk(pools, i)
    ensures ClassesOk(lists[i := pools])
  {
    var lists' := lists[i := pools];
    forall k: nat | k < CACHING_POOL_ARRAY_SIZE
      ensures ClassOk(lists'[k], k)
    {
      assert ClassOk(lists[k], k);
    }
  }

  lemma ClassesPush(lists: seq<seq<CachedPool>>, i: nat, p: CachedPool)
    requires ClassesOk(lists) && i < CACHING_POOL_ARRAY_SIZE && p.cls == i && |p.blocks| == 1 && InUseOk(p)
    ensures ClassesOk(lists[i := [p] + lists[i]])
  {
    assert ClassOk(lists[i], i);
    ClassesUpdate(lists, i, [p] + lists[i]);
  }

  /** The pools on the lists, with those on no list for now, are the live ones, each once. */
  ghost predicate Listed(used: seq<CachedPool>, lists: seq<seq<CachedPool>>, loose: multiset<nat>, live: set<nat>) {
    forall a: nat {:trigger ListedOnce(used, lists, loose, live, a)} :: ListedOnce(used, lists, loose, live, a)
  }

  predicate ListedOnce(used: seq<CachedPool>, lists: seq<seq<CachedPool>>, loose: multiset<nat>, live: set<nat>,
                       a: nat) {
    Addrs(used)[a] + AddrsOf(lists)[a] + loose[a] == if a in live then 1 else 0
  }

  lemma Born(used: seq<CachedPool>, lists: seq<seq<CachedPool>>, live: set<nat>, a: nat)
    requires Listed(used, lists, multiset{}, live) && a !in live
    ensures Listed(used, lists, multiset{a}, live + {a})
  {
    var used', lists', loose', live' := used, lists, multiset{a}, live + {a};
    forall x: nat
      ensures ListedOnce(used', lists', loose', live', x)
    {
      assert ListedOnce(used, lists, multiset{}, live, x);
    }
  }

  lemma Gone(used: seq<CachedPool>, lists: seq<seq<CachedPool>>, live: set<nat>, a: nat)
    requires Listed(used, lists, multiset{a}, live)
    ensures Listed(used, lists, multiset{}, live - {a})
  {
    var used', lists', loose', live' := used, lists, multiset{}, live - {a};
    assert ListedOnce(used, lists, multiset{a}, live, a);
    forall x: nat
      ensures ListedOnce(used', lists', loose', live', x)
    {
      assert ListedOnce(used, lists, multiset{a}, live, x);
    }
  }

  lemma PutInUse(used: seq<CachedPool>, lists: seq<seq<CachedPool>>, live: set<nat>, p: CachedPool)
    requires Listed(used, lists, multiset{p.addr}, live)
    ensures Listed([p] + used, lists, multiset{}, live)
  {
    var used', lists', loose', live' := [p] + used, lists, multiset{}, live;
    Front(p, used);
    forall x: nat
      ensures ListedOnce(used', lists', loose', live', x)
    {
      assert ListedOnce(used, lists, multiset{p.addr}, live, x);
    }
  }

  lemma TakeFromUse(used: seq<CachedPool>, lists: seq<seq<CachedPool>>, live: set<nat>, p: CachedPool)
    requires Listed(used, lists, multiset{}, live) && p in used
    ensures Listed(Without(used, p), lists, multiset{p.addr}, live)
  {
    var used', lists', loose', live' := Without(used, p), lists, multiset{p.addr}, live;
    WithoutSums(used, p);
    forall x: nat
      ensures ListedOnce(used', lists', loose', live', x)
    {
      assert ListedOnce(used, lists, multiset{}, live, x);
    }
  }

  lemma ReplacedListed(used: seq<CachedPool>, lists: seq<seq<CachedPool>>, live: set<nat>, p: CachedPool, q: CachedPool)
    requires Listed(used, lists, multiset{}, live) && p in used && p.addr == q.addr
    ensures Listed(Replaced(used, p, q), lists, multiset{}, live)
  {
    var used' := Replaced(used, p, q);
    ReplacedSums(used, p, q);
    forall x: nat
      ensures ListedOnce(used', lists, multiset{}, live, x)
    {
      assert ListedOnce(used, lists, multiset{}, live, x);
    }
  }

  lemma PutInCache(used: seq<CachedPool>, lists: seq<seq<CachedPool>>, live: set<nat>, i: nat, p: CachedPool)
    requires Listed(used, lists, multiset{p.addr}, live) && i < |lists|
    ensures Listed(used, lists[i := [p] + lists[i]], multiset{}, live)
  {
    var used', lists', loose', live' := used, lists[i := [p] + lists[i]], multiset{}, live;
    forall x: nat
      ensures ListedOnce(used', lists', loose', live', x)
    {
      PushFront(lists, i, p, x);
      assert ListedOnce(used, lists, multiset{p.addr}, live, x);
    }
  }

  lemma TakeFromCache(used: seq<CachedPool>, lists: seq<seq<CachedPool>>, live: set<nat>, i: nat)
    requires Listed(used, lists, multiset{}, live) && i < |lists| && lists[i] != []
    ensures Listed(used, lists[i := lists[i][1..]], multiset{lists[i][0].addr}, live) && lists[i][0].addr in live
  {
    var used', lists', loose', live' := used, lists[i := lists[i][1..]], multiset{lists[i][0].addr}, live;
    PopFront(lists, i, lists[i][0].addr);
    assert ListedOnce(used, lists, multiset{}, live, lists[i][0].addr);
    forall x: nat
      ensures ListedOnce(used', lists', loose', live', x)
    {
      PopFront(lists, i, x);
      assert ListedOnce(used, lists, multiset{}, live, x);
    }
  }

  lemma {:induction false} NoPools(lists: seq<seq<CachedPool>>)
    requires forall i :: 0 <= i < |lists| ==> lists[i] == []
    ensures TotalOf(lists) == 0 && AddrsOf(lists) == multiset{}
    decreases |lists|
  {
    if lists != [] {
      NoPools(lists[1..]);
    }
  }

  /** mdl_caching_pool_t. */
  class CachingPool {
    var capacity: nat
    const maxCapacity: nat
    var usedCount: nat
    var usedSize: nat
    var peakUsedSize: nat
    var freeList: seq<seq<CachedPool>>
    var usedList: seq<CachedPool>

    /** The pools that exist. */
    ghost var live: set<nat>

    /**
      The accounts: the capacity is that of the cached pools and within its bound, the count is
      that of the pools in use, and used_size is all memory in pools, cached or in use; every
      pool that exists is on exactly one list, once.
     */
    ghost predicate Valid()
      reads this
    {
      && ClassesOk(freeList) && AllInUse(usedList)
      && Listed(usedList, freeList, multiset{}, live) && NULL !in live
      && capacity == TotalOf(freeList) <= maxCapacity
      && usedCount == |usedList|
      && usedSize == Total(usedList) + TotalOf(freeList) <= peakUsedSize
    }

    /** mdl_caching_pool_init. */
    constructor (maxCapacity: nat)
      ensures Valid() && this.maxCapacity == maxCapacity && live == {} && usedList == []
      ensures forall i :: 0 <= i < CACHING_POOL_ARRAY_SIZE ==> freeList[i] == []
    {
      this.maxCapacity := maxCapacity;
      capacity, usedCount, usedSize, peakUsedSize := 0, 0, 0, 0;
      freeList, usedList, live := seq(CACHING_POOL_ARRAY_SIZE, i => []), [], {};
      new;
      NoPools(freeList);
    }

    /** cpool_on_block_alloc. */
    method OnBlockAlloc(size: nat) returns (rc: int)
      modifies this`usedSize, this`peakUsedSize
      ensures rc == 1 && usedSize == old(usedSize) + size
      ensures peakUsedSize == Peak(old(peakUsedSize), old(usedSize) + size)
    {
      usedSize := usedSize + size;
      if usedSize > peakUsedSize {
        peakUsedSize := usedSize;
      }
      rc := 1;
    }

    /** cpool_on_block_free: an unsigned difference. */
    method OnBlockFree(size: nat)
      modifies this`usedSize
      ensures usedSize == if size <= old(usedSize) then old(usedSize) - size else (old(usedSize) - size) % SIZE_WRAP
    {
      usedSize := if size <= usedSize then usedSize - size else (usedSize - size) % SIZE_WRAP;
    }

    /** A cached pool of class idx leaves its list. */
    method Reuse(idx: nat) returns (pool: CachedPool)
      requires Valid() && idx < CACHING_POOL_ARRAY_SIZE && freeList[idx] != []
      modifies this`capacity, this`freeList
      ensures ClassesOk(freeList) && pool == old(freeList[idx][0])
      ensures freeList == old(freeList)[idx := old(freeList[idx])[1..]]
      ensures capacity == TotalOf(freeList) == old(capacity) - pool.capacity
      ensures Listed(usedList, freeList, multiset{pool.addr}, live)
      ensures pool.cls == idx && pool.capacity == POOL_SIZES[idx] && pool.addr != NULL
      ensures |pool.blocks| == 1 && InUseOk(pool)
    {
      pool := freeList[idx][0];
      assert ClassOk(freeList[idx], idx);
      PopFront(freeList, idx, pool.addr);
      ClassesUpdate(freeList, idx, freeList[idx][1..]);
      TakeFromCache(usedList, freeList, live, idx);
      freeList := freeList[idx := freeList[idx][1..]];
      if capacity > pool.capacity {
        capacity := capacity - pool.capacity;
      } else {
        capacity := 0;
      }
    }

    /** A cached pool of class idx is at hand. */
    ghost predicate Cached(idx: nat)
      reads this`freeList
    {
      idx < |freeList| && freeList[idx] != []
    }

    /**
      cpool_create_pool: a pool of the smallest class that fits, from the cache if there is one.
      memory is where malloc would put a new pool, 0 if it fails.
     */
    method CreatePool(initialSize: nat, memory: nat) returns (r: nat, ghost pool: CachedPool)
      requires Valid() && memory !in live
      modifies this`capacity, this`usedCount, this`usedSize, this`peakUsedSize, this`freeList, this`usedList, this`live
      ensures Valid() && SmallestFit(initialSize, pool.cls)
      ensures r == 0 <==> memory == 0 && !old(Cached(pool.cls))
      ensures r == 0 ==>
        && usedList == old(usedList) && freeList == old(freeList) && capacity == old(capacity)
        && usedSize == old(usedSize) && live == old(live)
      ensures r != 0 ==>
        && usedList == [pool] + old(usedList) && r == pool.addr && |pool.blocks| == 1 && pool.capacity >= initialSize
        && pool.capacity == (if pool.cls < CACHING_POOL_ARRAY_SIZE then POOL_SIZES[pool.cls] else initialSize)
      ensures !old(Cached(pool.cls)) ==>
        peakUsedSize == Peak(old(peakUsedSize), old(usedSize) + NewSize(initialSize, pool.cls))
      ensures old(Cached(pool.cls)) ==> peakUsedSize == old(peakUsedSize)
      ensures r != 0 && !old(Cached(pool.cls)) ==>
        && pool == Fresh(memory, pool.capacity, pool.cls) && freeList == old(freeList)
        && usedSize == old(usedSize) + pool.capacity && live == old(live) + {memory}
      ensures old(Cached(pool.cls)) ==>
        && freeList == old(freeList)[pool.cls := old(freeList[pool.cls])[1..]] && pool == old(freeList[pool.cls][0])
        && usedSize == old(usedSize) && live == old(live)
    {
      var idx := ClassOf(initialSize);
      if idx == CACHING_POOL_ARRAY_SIZE || freeList[idx] == [] {
        var size := NewSize(initialSize, idx);
        NewPoolOk(initialSize, idx, memory);
        pool := if memory == NULL then CachedPool(0, 0, idx, [], map[]) else Fresh(memory, size, idx);
        r := NewPool(memory, size, idx);
      } else {
        var p := Reuse(idx);
        Enlist(p);
        r, pool := p.addr, p;
      }
    }

    /** mdl_pool_create_int as the cache uses it: the memory is counted while malloc is tried. */
    method NewPool(memory: nat, size: nat, idx: nat) returns (r: nat)
      requires Valid() && memory !in live && (memory != NULL ==> InUseOk(Fresh(memory, size, idx)))
      modifies this`usedCount, this`usedSize, this`peakUsedSize, this`usedList, this`live
      ensures Valid() && r == memory && peakUsedSize == Peak(old(peakUsedSize), old(usedSize) + size)
      ensures r == 0 ==> usedList == old(usedList) && usedSize == old(usedSize) && live == old(live)
      ensures r != 0 ==>
        && usedList == [Fresh(memory, size, idx)] + old(usedList)
        && usedSize == old(usedSize) + size && live == old(live) + {memory}
    {
      var rc := OnBlockAlloc(size);
      r := memory;
      if memory == 0 {
        OnBlockFree(size);
      } else {
        Born(usedList, freeList, live, memory);
        live := live + {memory};
        Enlist(Fresh(memory, size, idx));
      }
    }

    /** The pool joins the used list. */
    method Enlist(p: CachedPool)
      requires ClassesOk(freeList) && AllInUse(usedList) && InUseOk(p) && NULL !in live
      requires Listed(usedList, freeList, multiset{p.addr}, live)
      requires capacity == TotalOf(freeList) <= maxCapacity && usedCount == |usedList|
      requires usedSize == Total(usedList) + p.capacity + TotalOf(freeList) <= peakUsedSize
      modifies this`usedList, this`usedCount
      ensures Valid() && usedList == [p] + old(usedList)
    {
      Front(p, usedList);
      PutInUse(usedList, freeList, live, p);
      usedList := [p] + usedList;
      usedCount := usedCount + 1;
    }

    /** The pool joins the free list of its class. */
    method Recycle(p: CachedPool)
      requires ClassesOk(freeList) && AllInUse(usedList) && InUseOk(p) && NULL !in live
      requires Listed(usedList, freeList, multiset{p.addr}, live)
      requires capacity == TotalOf(freeList) && capacity + p.capacity <= maxCapacity && usedCount == |usedList|
      requires usedSize == Total(usedList) + p.capacity + TotalOf(freeList) <= peakUsedSize
      requires p.cls < CACHING_POOL_ARRAY_SIZE && |p.blocks| == 1
      modifies this`freeList, this`capacity
      ensures Valid() && freeList == old(freeList)[p.cls := [p] + old(freeList[p.cls])]
    {
      var i := p.cls;
      PushFront(freeList, i, p, p.addr);
      PutInCache(usedList, freeList, live, i, p);
      ClassesPush(freeList, i, p);
      freeList := freeList[i := [p] + freeList[i]];
      capacity := capacity + p.capacity;
    }

    /** The pool is destroyed. */
    method Destroy(p: CachedPool)
      requires ClassesOk(freeList) && AllInUse(usedList) && NULL !in live
      requires Listed(usedList, freeList, multiset{p.addr}, live)
      requires capacity == TotalOf(freeList) <= maxCapacity && usedCount == |usedList|
      requires usedSize == Total(usedList) + p.capacity + TotalOf(freeList) <= peakUsedSize
      modifies this`usedSize, this`live
      ensures Valid() && usedSize == old(usedSize) - p.capacity && live == old(live) - {p.addr}
    {
      OnBlockFree(p.capacity);
      Gone(usedList, freeList, live, p.addr);
      live := live - {p.addr};
    }

    /** A pool in use gets another block through the factory's policy; memory is what malloc returns. */
    method GrowPool(pool: CachedPool, size: nat, memory: nat) returns (grown: CachedPool)
      requires Valid() && pool in usedList && memory != pool.Head() && memory !in pool.blocks
      modifies this`usedSize, this`peakUsedSize, this`usedList
      ensures Valid() && InUseOk(pool) && peakUsedSize == Peak(old(peakUsedSize), old(usedSize) + size)
      ensures memory == NULL ==> usedList == old(usedList) && usedSize == old(usedSize) && grown == pool
      ensures memory != NULL ==>
        && grown == Grown(pool, size, memory)
        && usedList == Replaced(old(usedList), pool, grown) && usedSize == old(usedSize) + size
    {
      var rc := OnBlockAlloc(size);
      grown := pool;
      assert InUseOk(pool);
      if memory == NULL {
        OnBlockFree(size);
      } else {
        grown := Grown(pool, size, memory);
        ReplacedSums(usedList, pool, grown);
        ReplacedMembers(usedList, pool, grown);
        ReplacedListed(usedList, freeList, live, pool, grown);
        usedList := Replaced(usedList, pool, grown);
      }
    }

    /**
      cpool_release_pool: the pool is cached if it is of a class and the bound allows it, else
      destroyed.  Both run the loop of reset_pool first: ok says that the call returns, and it
      does exactly if the pool has not grown.
     */
    method ReleasePool(pool: CachedPool) returns (ok: bool)
      requires Valid() && pool in usedList
      modifies this`capacity, this`usedCount, this`usedSize, this`freeList, this`usedList, this`live
      ensures ok <==> |pool.blocks| == 1
      ensures ok ==> Valid() && usedList == Without(old(usedList), pool)
      ensures ok ==>
        var keep := pool.cls < CACHING_POOL_ARRAY_SIZE && old(capacity) + pool.capacity <= maxCapacity;
        && freeList == (if keep then old(freeList)[pool.cls := [pool] + old(freeList[pool.cls])] else old(freeList))
        && usedSize == old(usedSize) - (if keep then 0 else pool.capacity)
        && live == old(live) - if keep then {} else {pool.addr}
    {
      assert InUseOk(pool);
      WithoutSums(usedList, pool);
      WithoutMembers(usedList, pool);
      TakeFromUse(usedList, freeList, live, pool);
      usedList := Without(usedList, pool);
      usedCount := usedCount - 1;
      var links, node, freed;
      if pool.capacity > POOL_SIZES[CACHING_POOL_ARRAY_SIZE - 1] || capacity + pool.capacity > maxCapacity {
        ok, links, node, freed := UnlinkBackward(pool.links, pool.Head(), pool.blocks);
        if ok {
          ClassFits(pool);
          Destroy(pool);
        }
      } else {
        ok, links, node, freed := UnlinkBackward(pool.links, pool.Head(), pool.blocks);
        if ok {
          ClassFits(pool);
          Recycle(pool.(links := links));
        }
      }
    }

    // ---------- the end of the cache ----------

    /** The list heads of the cache, the used list's behind those of the free lists. */
    ghost predicate ListsIn(m: Memory, heads: seq<int>)
      reads this
    {
      && |heads| == CACHING_POOL_ARRAY_SIZE + 1 && |freeList| == CACHING_POOL_ARRAY_SIZE
      && IsRing(m, heads[CACHING_POOL_ARRAY_SIZE], Places(usedList))
      && forall i: nat :: i < CACHING_POOL_ARRAY_SIZE ==> IsRing(m, heads[i], Places(freeList[i]))
    }

    /**
      mdl_caching_pool_destroy: each loop takes a pool out of its list and goes on from it.  The
      call returns (ok) exactly if there is no pool at all.
     */
    method DestroyAll(m: Memory, heads: seq<int>) returns (ok: bool)
      requires Valid() && ListsIn(m, heads)
      ensures ok <==> live == {}
    {
      var links, freed, i := m, [], 0;
      while i < CACHING_POOL_ARRAY_SIZE
        invariant i <= CACHING_POOL_ARRAY_SIZE && links == m
        invariant forall k: nat :: k < i ==> freeList[k] == []
      {
        ok, links, freed := UnlinkForward(links, heads[i], Places(freeList[i]));
        if !ok {
          SomePool(i);
          return;
        }
        i := i + 1;
      }
      ok, links, freed := UnlinkForward(links, heads[i], Places(usedList));
      if !ok {
        SomePool(i);
        return;
      }
      NoPools(freeList);
      forall a: nat
        ensures a !in live
      {
        assert ListedOnce(usedList, freeList, multiset{}, live, a);
      }
    }

    lemma SomePool(i: nat)
      requires Valid()
      requires if i < CACHING_POOL_ARRAY_SIZE then freeList[i] != [] else usedList != []
      ensures live != {}
    {
      if i < CACHING_POOL_ARRAY_SIZE {
        TakeFromCache(usedList, freeList, live, i);
      } else {
        assert ListedOnce(usedList, freeList, multiset{}, live, usedList[0].addr);
      }
    }
  }

  /** A pool that was created, has grown, and is to be released: the call does not return. */
  method GrownRelease() returns (ok: bool)
    ensures !ok
  {
    var cache := new CachingPool(1000000);
    var r, pool := cache.CreatePool(100, 8192);
    var grown := cache.GrowPool(cache.usedList[0], 100, 4096);
    ok := cache.ReleasePool(grown);
  }
}
