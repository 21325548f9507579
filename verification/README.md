# Verified models of the core modules

This project models the parts of the library whose correctness is hardest to see from the code, and
proves what they are for. `dafny verify dfyconfig.toml` checks everything.

| files | models |
|---|---|
| `Arithmetic` | remainders and powers of two, shared by the others |
| `UdpSequence`, `UdpLinkSpec`, `UdpDelivery`, `UdpEffects`, `UdpLink`, `UdpRecovery` | reliable, ordered delivery over UDP (`udp/ex_udp.c`, `udp/ex_udp.h`) |
| `RbZipper`, `RbErase`, `RbHeap`, `RbTree` | the red-black tree (`datastruct/rbtree.c`, `datastruct/rbtree.h`) |
| `IdrDigits`, `IdrTable`, `Idr` | the radix-tree id allocator (`datastruct/idr.c`, `datastruct/idr.h`) |
| `KfifoIndex`, `Kfifo`, `KfifoConcurrent` | the byte ring (`datastruct/kfifo.c`, `datastruct/kfifo.h`) |
| `TimerQueue`, `TimerScheduler` | the timer scheduler (`timer/module_timer.c`) |
| `LinkedRing`, `PoolBlocks`, `Pool`, `Caching` | memory pools and the pool cache (`pool/pool.c`, `pool/caching.c`) on linked lists (`datastruct/list.h`) |

**UDP.** A sender, a receiver and a network that loses, duplicates and reorders form a step system:
packets are never taken out of the network, and each handler or API call is one step. Packets carry,
for the proof only, the absolute number they were sent under; the real fields are those numbers
modulo the sequence modulus. Ring length and modulus are constants without a value: any ring of at least
two slots whose gap lists fit a packet, and any multiple of its length that is at least twice as large.
The header has 511 and 4 * 511 = 2044. The only assumption on the network is the packet lifetime:
modulus minus ring length (1533) numbers for data, one more (1534) for reports. `ReceiveWindowExact` and
`ReportWindowExact` show that both bounds are tight. `UdpLinkSpec` gives each handler as a function on
values; `UdpLink` is the imperative code with its two rings, proved to compute those functions.
`UdpEffects` says what each of the nine steps does in absolute numbers, without those functions. The
recovery exchange is built from the same steps and shown to be a run.

**Red-black tree.** The rebalancing is first written on a zipper (a subtree and the path above it),
where both fix-up loops are proved to restore the invariants and keep the order. `RbTree` is the
pointer code on heap nodes with parent links; `Rep` ties the heap to a tree and a path, and every
rotation, recolouring and link update is shown to move from one such pair to the next.

**IDR.** Fan-out and height limit are constants without a value, so the results hold for every
`IDR_BITS`. Layers live in an explicit memory, a map from addresses to records, which keeps links, the
free list through `ary[0]` and in-place updates. The ghost tree is a table from positions to layers,
whose rules are local to a position and its children. The search for a free id from any start id keeps two
ids apart: the one whose digits it works with, and the one whose leaf it walks to. `Missing` counts the
layers that an allocation takes: new tops, and what is absent on the path of its id.

**kfifo.** `Kfifo` is the object as the locked interface uses it. `KfifoConcurrent` interleaves one
reader and one writer copy by copy; each call looks at the other side's index twice, as the `min` macro
does, copies its bytes in any order and then publishes its own index. Memory is taken as sequentially
consistent.

**Timer.** Each method is one critical section. The two lists are sequences of slots, `list_insert(pos, n)`
puts `n` before `pos`, and the current time is a parameter. Every slot has a history, for the proof only,
of what was last asked for: function and parameter, queue, number of messages, interval and time.

**Pools.** Addresses are integers, and what the block policy returns is a parameter. Header sizes are
any multiples of four. The links of a list are a map from addresses to next and prev, where NULL is no
address, and every pool keeps them beside the sequence of its blocks.

Integers are unbounded except where a width matters: sequence numbers modulo their modulus, kfifo
indices, sizes and `generic_fls` on 32 bits.

Where the code does not do what its documentation says, the model follows the code, and the exact
condition is proved.

- Removing an id beyond the tree's range can take out another id: `Idr.Handle.RemoveExact`, with the case
  `Idr.StrayRemove`.
- `idr_get_new_above` returns the id it stored the pointer under if and only if the search does not go
  astray: some block of ids around the start id is the last one in its layer, has free ids, but none from
  the start id on. Then the pointer is stored below the start id and another id is returned:
  `Idr.Handle.GetNewAbove`, with the case `Idr.StrayGet`. It writes beyond its path array exactly if the id
  needs MAX_LEVEL layers and the free list has the new tops.
- When all ids are released, all layers are spare or returned exactly if no layer is idle. Allocations that
  succeed and removals leave none; one that fails half-way keeps the layers it has hung:
  `Idr.Handle.AllReturned`, `Idr.Handle.GetNewAbove`, `Idr.Handle.Remove`.
- A message timer sends its messages exactly if its slot was never given out by `SetTimer`, and calls the
  old function otherwise: `TimerScheduler.Scheduler.Tick`, with the case `TimerScheduler.StaleFunction`.
- `kfifo_alloc` settles on a power of two that holds the request exactly for requests from 1 to 2^31, and on
  0 bytes otherwise: `KfifoIndex.AllocSize`.
- Without the lock, a put or get takes more bytes than the caller has exactly if the other side's index
  allows no more than that at the first look and more at the second: `KfifoConcurrent.PutTakes`,
  `KfifoConcurrent.GetTakes`, with the case `KfifoConcurrent.GetTooMany`.
- The assertion after growth of a pool is safe exactly if alignment costs a new block at most one byte:
  `PoolBlocks.FreshBlockExact`.
- Resetting or releasing a pool works exactly if it holds a single block, since the loop follows a link that
  it has cleared: `LinkedRing.UnlinkBackward`, `Pool.MemoryPool.Reset`, `Caching.CachingPool.ReleasePool`,
  with the cases `Pool.GrownReset` and `Caching.GrownRelease`. Destroying a cache works exactly if it has no
  pool: `Caching.CachingPool.DestroyAll`.

## Model

| member | source | states |
|---|---|---|
| `UdpSequence.CmpSeqIsWindow` | udp/ex_udp.h:304-306 | for every ring size n and modulus q >= n, CMP_SEQ decides exactly 0 < (head - tail) mod q < n |
| `UdpSequence.CmpSeqOrderIsWindow` | udp/ex_udp.h:309-312 | for every n and q >= n, CMP_SEQ_ORDER decides exactly (mid - head) mod q < (tail - head) mod q < n |
| `UdpSequence.ReceiveWindowExact` | udp/ex_udp.c:720-741 | the receive test on wire numbers is the window test on absolute numbers for packets at most modulus - ring length (1533) old, and fails for one number older |
| `UdpSequence.ReportWindowExact` | udp/ex_udp.c:476-480 | a report at most 1534 numbers old is accepted exactly if it does not fall behind the acknowledged number; one number older can be accepted wrongly |
| `UdpSequence.SlotInjective` | udp/ex_udp.h:43-46 | numbers less than a ring length apart never share a ring slot |
| `UdpLinkSpec.MissingMember` | udp/ex_udp.c:521-561 | a gap list holds a number if and only if it lies in [SeqRead, SeqReadMax) modulo the modulus and is not in the ring |
| `UdpLinkSpec.MissingOrdered` | udp/ex_udp.c:521-561 | a gap list is strictly ordered from SeqRead on, hence without repeats |
| `UdpLinkSpec.LackingFits` | udp/ex_udp.c:521-561 | a gap list has fewer entries than the ring has slots (at most 510) and fits one packet, so the flush inside the loop is never taken |
| `UdpDelivery.CanSendExact` | udp/ex_udp.c:1634-1642 | exSend's test on ring slots is exactly M + 1 - C < ring length (M - C < 510) |
| `UdpDelivery.ResendableExact` | udp/ex_udp.c:575-596 | a gap entry passes the sender's window test if and only if it names an unacknowledged number, and then exactly one |
| `UdpDelivery.LackKeepsData` | udp/ex_udp.c:570-615 | every retransmission for any gap list carries the payload first sent under its number, and the ring's data is unchanged |
| `UdpDelivery.ExSendKeepsInv` | udp/ex_udp.c:1611-1715 | a send keeps the invariant: no unacknowledged slot is overwritten |
| `UdpDelivery.DataKeepsInv` | udp/ex_udp.c:707-770 | any arriving data packet, old, duplicate or new, keeps the invariant: an unread packet is never replaced by a different one |
| `UdpDelivery.TakeKeepsInv` | udp/ex_udp.c:1555-1597 | reading a packet extends the delivered payloads by the next one sent |
| `UdpDelivery.ReportKeepsInv` | udp/ex_udp.c:470-507 | any arriving report keeps C below R and the send window |
| `UdpDelivery.CheckKeepsInv` | udp/ex_udp.c:654-704 | any arriving probe keeps the invariant |
| `UdpDelivery.LackKeepsInv` | udp/ex_udp.c:570-615 | any arriving gap list keeps the invariant |
| `UdpDelivery.StepKeepsInv` | udp/ex_udp.c:450-770 | every step of sender, receiver and network keeps the invariant |
| `UdpDelivery.RunKeepsInv` | udp/ex_udp.c:450-770 | so does every run |
| `UdpDelivery.DeliveryInOrder` | udp/ex_udp.h:1-4 | for every ring length and modulus, in every run: what exRecv returned is a prefix of what exSend accepted; M - C stays between 1 and ring length - 1 (510); both rings hold exactly what they should |
| `UdpEffects.SendEffect` | udp/ex_udp.c:1611-1715 | a payload of valid length is accepted as number M exactly if M + 1 - C is less than the ring length and sendto succeeds; packet and slot, field by field; otherwise nothing changes |
| `UdpEffects.ProbeEffect` | udp/ex_udp.c:618-651 | a probe, naming M and C + 1, goes out exactly if something is unacknowledged |
| `UdpEffects.DataEffect` | udp/ex_udp.c:707-770 | arriving data is stored exactly if it is not read yet and not there already |
| `UdpEffects.ReadEffect` | udp/ex_udp.c:1555-1597 | a read returns the next payload exactly if number R is there, and empties its slot |
| `UdpEffects.GapList` | udp/ex_udp.c:521-561 | a gap list names exactly the numbers from R on below SeqReadMax that are not there, and none unless SeqReadMax is in the window ahead of R |
| `UdpEffects.ReportSent` | udp/ex_udp.c:450-467 | a report carries R - 1, followed by the gap list exactly if there is a gap and the rate limit is open |
| `UdpEffects.CheckEffect` | udp/ex_udp.c:654-704 | an arriving probe of any age whose window holds R sets SeqReadMax and is answered exactly if R is not its seqCheck; any other changes nothing |
| `UdpEffects.ProbeAnswered` | udp/ex_udp.c:661-692 | the sender's current probe is answered if and only if something read is unacknowledged, and the answer acknowledges everything read |
| `UdpEffects.ReportEffect` | udp/ex_udp.c:470-507 | an arriving report moves C to its number, never back, and changes nothing else |
| `UdpEffects.LackEffect` | udp/ex_udp.c:570-615 | an arriving gap list of any age is answered up to the first entry that names no unacknowledged number, each with the payload first sent under it |
| `UdpEffects.QuietStart` | udp/ex_udp.c:309-316 | a new link has nothing to probe for and no gap to report |
| `UdpRecovery.DrainsAll` | udp/ex_udp.c:1539-1601 | if every number from R to M is waiting in the ring, reading until empty delivers all of them |
| `UdpRecovery.LackingMeaning` | udp/ex_udp.c:511-567 | after a probe, the gap list names exactly the unread numbers below M that are not waiting |
| `UdpRecovery.LackingResendable` | udp/ex_udp.c:570-615 | every entry of that list passes the sender's test |
| `UdpRecovery.ResendsAll` | udp/ex_udp.c:575-612 | a list whose entries all pass is answered packet by packet, in order |
| `UdpRecovery.NoGapLeft` | udp/ex_udp.c:511-615 | after report, gap list and retransmission nothing is missing any more |
| `UdpRecovery.InformState` | udp/ex_udp.c:450-693 | after probe, drain, report and gap list the receiver knows M and the sender R |
| `UdpRecovery.CompleteState` | udp/ex_udp.c:570-615 | from there, retransmission, drain and report deliver and acknowledge everything |
| `UdpRecovery.ExchangeRecovers` | udp/ex_udp.c:450-704 | from every state of the invariant with something unacknowledged, one loss-free exchange ends with R = M and C = M - 1 |
| `UdpRecovery.ReachableRecovers` | udp/ex_udp.c:450-704 | the exchange is a run of the step system, from every reachable state |
| `UdpLink.Link.constructor` | udp/ex_udp.c:309-316 | the link after add_list and the handshake is the initial state of the step system |
| `UdpLink.Link.ExSend` | udp/ex_udp.c:1611-1715 | return value, packet and new send state for every input: bad lengths, a full window, a failing sendto, success |
| `UdpLink.Link.SeqReportAck` | udp/ex_udp.c:470-507 | computes ReportAck on the send state and leaves the receive state |
| `UdpLink.Link.SeqLackAck` | udp/ex_udp.c:570-615 | the loop over the entries sends what LackAck gives, entry by entry |
| `UdpLink.Link.Resend` | udp/ex_udp.c:180-216 | the slot's seqCheck is brought up to date and the packet carries it |
| `UdpLink.Link.SeqCheck` | udp/ex_udp.c:618-651 | sends the probe of ProbeEffect, established links only |
| `UdpLink.Link.SeqCheckAck` | udp/ex_udp.c:654-704 | new SeqReadMax, report and return code, those of CheckEffect |
| `UdpLink.Link.UserDataRecv` | udp/ex_udp.c:707-770 | computes Accept: stored, duplicate, or out of window |
| `UdpLink.Link.SeqLack` | udp/ex_udp.c:511-567 | sends one packet with the whole gap list of GapList, or none if it is empty |
| `UdpLink.Link.ListMissing` | udp/ex_udp.c:521-561 | the loop terminates with exactly the missing numbers, never taking the flush |
| `UdpLink.Link.SeqReport` | udp/ex_udp.c:450-467 | the report of the last number read, followed by the gap list |
| `UdpLink.Link.ExRecv` | udp/ex_udp.c:1539-1601 | the next payload if it is there; otherwise the reports sent along, none unless the link is established |
| `RbZipper.FitsIsRb` | datastruct/rbtree.c:43-106 | a subtree that fits its path plugs to a red-black tree |
| `RbZipper.InsertFixCorrect` | datastruct/rbtree.c:43-106 | the insert fix-up from any red violation yields a red-black tree with the same order |
| `RbZipper.EraseFixCorrect` | datastruct/rbtree.c:108-198 | the erase fix-up from any missing black yields a red-black tree with the same order |
| `RbZipper.InsertSettles` | datastruct/rbtree.c:65-103 | the rotations leave the node below a black parent, one level higher, where the loop ends with the same tree |
| `RbZipper.SiblingTurnedReady` | datastruct/rbtree.c:117-124 | the red-sibling case keeps the deficit and decreases the loop's measure |
| `RbZipper.SiblingReddenedReady` | datastruct/rbtree.c:125-133 | the case of two black nephews moves the deficit one level up |
| `RbZipper.EraseRotatedFits` | datastruct/rbtree.c:134-193 | the final rotations remove the deficit, in both mirror images |
| `RbErase.VacatedOrder` | datastruct/rbtree.c:200-268 | taking the node out, with its successor in its place if it has two children, removes exactly it from the order |
| `RbErase.EraseAtCorrect` | datastruct/rbtree.c:200-272 | erasing any node of any red-black tree yields one whose order is the old one without the node |
| `RbErase.InsertAtCorrect` | datastruct/rbtree.h:37-45 | linking a red leaf at any empty place and fixing up yields a red-black tree with the leaf in place |
| `RbErase.ReachableHeight` | datastruct/rbtree.c:43-272 | every tree reachable by inserts and erases with n nodes and height h has 2^h <= (n + 1)^2 |
| `RbHeap.RepRotate` | datastruct/rbtree.c:3-41 | the pointer writes of a rotation turn a represented tree into the rotated one, parent links included |
| `RbHeap.RepReplace` | datastruct/rbtree.c:232-252 | the writes that put the successor into the node's place represent exactly that exchange |
| `RbTree.RbRoot.RotateLeft` | datastruct/rbtree.c:3-21 | the heap represents the left rotation, also at the root |
| `RbTree.RbRoot.RotateRight` | datastruct/rbtree.c:23-41 | the heap represents the right rotation, also at the root |
| `RbTree.RbRoot.RotateLeftLinks` | datastruct/rbtree.c:3-21 | what the assignments leave in each of the four cells, and that no other changes |
| `RbTree.RbRoot.RotateRightLinks` | datastruct/rbtree.c:23-41 | the mirror image |
| `RbTree.RbRoot.InsertColor` | datastruct/rbtree.c:43-106 | the pointer loop computes InsertFix |
| `RbTree.RbRoot.InsertUnderLeft` | datastruct/rbtree.c:51-77 | one pass below a left child moves up or settles, with the same final tree |
| `RbTree.RbRoot.InsertUnderRight` | datastruct/rbtree.c:77-102 | its mirror image |
| `RbTree.RbRoot.EraseColor` | datastruct/rbtree.c:108-198 | the pointer loop computes EraseFix, also for a NULL child |
| `RbTree.RbRoot.EraseFinishLeft` | datastruct/rbtree.c:134-153 | the last case with the node on the left, on pointers |
| `RbTree.RbRoot.EraseFinishRight` | datastruct/rbtree.c:174-193 | its mirror image |
| `RbTree.RbRoot.EraseTurnLeft` | datastruct/rbtree.c:118-124 | the red-sibling case on pointers |
| `RbTree.RbRoot.EraseTurnRight` | datastruct/rbtree.c:158-164 | its mirror image |
| `RbTree.RbRoot.EraseBendLeft` | datastruct/rbtree.c:136-145 | the near nephew is rotated up |
| `RbTree.RbRoot.EraseBendRight` | datastruct/rbtree.c:176-185 | its mirror image |
| `RbTree.RbRoot.EraseLastLeft` | datastruct/rbtree.c:146-152 | the closing recolouring and rotation |
| `RbTree.RbRoot.EraseLastRight` | datastruct/rbtree.c:186-192 | its mirror image |
| `RbTree.RbRoot.LinkNode` | datastruct/rbtree.h:37-45 | the new node is a red leaf at the given place |
| `RbTree.RbRoot.UnlinkLinks` | datastruct/rbtree.c:220-230 | what putting an only child into a node's place leaves in each cell |
| `RbTree.RbRoot.TakeOverLinks` | datastruct/rbtree.c:234-250 | what putting the successor into a node's place leaves in each cell |
| `RbTree.RbRoot.EraseNode` | datastruct/rbtree.c:200-272 | the pointer code computes EraseAt |
| `RbTree.RbRoot.Insert` | datastruct/rbtree.h:37-45 | on the heap: the tree stays a red-black tree with agreeing links, and the node appears at its place in the order |
| `RbTree.RbRoot.Erase` | datastruct/rbtree.c:200-272 | on the heap: the tree stays a red-black tree with agreeing links, and the order loses exactly that node |
| `RbTree.RbRoot.First` | datastruct/rbtree.c:277-287 | the first node in order, NULL for an empty tree |
| `RbTree.RbRoot.Last` | datastruct/rbtree.c:289-299 | the last node in order, NULL for an empty tree |
| `RbTree.RbRoot.Next` | datastruct/rbtree.c:301-322 | the next node in order, NULL after the last |
| `RbTree.RbRoot.Prev` | datastruct/rbtree.c:324-341 | the previous node in order, NULL before the first |
| `RbTree.RbRoot.Walk` | datastruct/rbtree.c:277-322 | rb_first and repeated rb_next visit exactly the order and end in NULL |
| `RbTree.RbRoot.WalkBack` | datastruct/rbtree.c:289-341 | rb_last and repeated rb_prev visit its reverse |
| `RbTree.RbRoot.ThereAndBack` | datastruct/rbtree.c:301-341 | rb_next and rb_prev undo each other wherever both are defined |
| `RbTree.RbRoot.constructor` | datastruct/rbtree.h:21 | RB_ROOT is an empty red-black tree |
| `IdrTable.FullSubtree` | datastruct/idr.c:141-156 | below a full bitmap every id is taken, through all levels |
| `IdrTable.PlantedStale` | datastruct/idr.c:141-143 | planting a pointer leaves at most one bit to be set above |
| `IdrTable.MarkedStale` | datastruct/idr.c:151-156 | setting that bit moves the doubt one level up |
| `IdrTable.HungWf` | datastruct/idr.c:128-133 | hanging an empty layer into a free slot keeps bitmaps and counts right |
| `IdrTable.GrownWf` | datastruct/idr.c:195-199 | a new top above the old one keeps them right, with its bit exactly if the old top is full |
| `IdrTable.EmptiedOvercounted` | datastruct/idr.c:294-304 | clearing the bits on the way and the pointer leaves one count too high and all else right |
| `IdrTable.ReleasedOvercounted` | datastruct/idr.c:305-308 | freeing an empty layer moves the excess one level up |
| `IdrTable.LastLayer` | datastruct/idr.c:305-310 | when the top runs empty, no layer is left below it |
| `IdrTable.DroppedWf` | datastruct/idr.c:329-338 | dropping a top whose only child is its first keeps the tree well-formed |
| `IdrTable.EmptiedIds` | datastruct/idr.c:303-304 | a removal frees exactly its id and touches no other pointer |
| `IdrTable.SkippedTaken` | datastruct/idr.c:104-121 | ids under slots that the search skips are all taken |
| `IdrTable.FreeUnder` | datastruct/idr.c:104-136 | under every slot whose bit is clear there is a free id, through all levels |
| `IdrTable.StaleFull` | datastruct/idr.c:151-156 | the same as FullSubtree while the bit above is still to be set |
| `Idr.Handle.constructor` | datastruct/idr.c:402-407 | an initialised handle stands for the empty map |
| `Idr.Handle.AllocLayer` | datastruct/idr.c:37-49 | a blank layer off the free list, NULL exactly if the list is empty |
| `Idr.Handle.FreeLayer` | datastruct/idr.c:51-61 | the layer is at the head of the free list |
| `Idr.Handle.PreGet` | datastruct/idr.c:75-85 | success stocks up to exactly IDR_FREE_MAX spare layers, or leaves a longer list; layers are conserved |
| `Idr.Handle.MarkUp` | datastruct/idr.c:150-156 | the upward loop restores the representation invariant; if the id carries a wrong digit, it still does unless the marking gets that far |
| `Idr.Handle.PickSlot` | datastruct/idr.c:104-120 | the first clear slot from the id's digit on: everything skipped is taken, and there is room; without one, the search was on the path of the start id |
| `Idr.Handle.Climb` | datastruct/idr.c:107-116 | the step back: out of the top, to the next block of the layer above, or, with a carry, astray |
| `Idr.Handle.LeadsAstray` | datastruct/idr.c:107-116 | a step back with a carry means that the block around the start id has free ids, but none from the start id on |
| `Idr.Handle.NotAstray` | datastruct/idr.c:107-116 | a search that found room, or reached the top, without a carry was not from such a start id |
| `Idr.Handle.StraySides` | datastruct/idr.c:107-116 | a stray pointer is stored below the start id, and the id returned is above it |
| `Idr.Handle.SubAlloc` | datastruct/idr.c:88-158 | for every start id: the first free id from it on gets the pointer and is returned, if and only if the search does not go astray; -2 exactly if all ids from it on are taken, and nothing changed; -1 exactly if the free list is shorter than the absent part of the path; the path array is overrun exactly with MAX_LEVEL layers |
| `Idr.Handle.TearDown` | datastruct/idr.c:182-194 | a half-built top is given back completely and the old tree is as it was |
| `Idr.Handle.BuildUp` | datastruct/idr.c:166-202 | for every id: the tree gets exactly the height it needs, if and only if the free list has the new tops; otherwise nothing changes and no layer is lost |
| `Idr.MissingGrown` | datastruct/idr.c:128-133 | the layers missing for an id can be counted before growth: new tops, and the absent positions on its path |
| `Idr.Handle.GetNewAbove` | datastruct/idr.c:160-207 | for every start id and state, through growth and retry: the smallest unused id from it on gets the pointer and is returned, if and only if the search does not go astray, otherwise the smallest unused one of the block it strays in; -1 if and only if the free list is shorter than the number of missing layers, of which success uses exactly that many; the path array is overrun exactly if MAX_LEVEL layers are needed and to be had; no layer without an id comes about |
| `Idr.Handle.GetNew` | datastruct/idr.c:259-275 | the smallest unused id gets the pointer and nothing else changes, if and only if the free list has the missing layers; otherwise -1 and nothing is allocated |
| `Idr.Handle.NothingMissing` | datastruct/idr.c:125-136 | with the layers of the path there, an empty free list is enough |
| `Idr.StrayGet` | datastruct/idr.c:225-241 | a concrete case from a new handle: the second call with the last id of two layers returns an id that idr_find does not know |
| `Idr.Handle.Find` | datastruct/idr.c:359-378 | agrees with the map for every id, negative ones masked; also after a stray allocation |
| `Idr.Handle.WalkDown` | datastruct/idr.c:294-300 | the walk clears exactly the bits on the id's path and collects its layers |
| `Idr.Handle.UnwindAll` | datastruct/idr.c:305-310 | the upward freeing loop restores the representation invariant, down to an empty handle |
| `Idr.Handle.SubRemove` | datastruct/idr.c:284-314 | exactly the id named by the lowest digits goes; a free one changes nothing |
| `Idr.Handle.DropTop` | datastruct/idr.c:329-338 | one layer less, the same map |
| `Idr.Handle.GiveBack` | datastruct/idr.c:339-344 | at most one surplus layer goes back to the slab cache, and is counted |
| `Idr.Handle.Remove` | datastruct/idr.c:321-345 | an allocated id is removed and nothing else; without idle layers before there are none after, and the height drops exactly if all ids fit one layer less; one layer goes back exactly if IDR_FREE_MAX are spare |
| `Idr.Handle.AllReturned` | datastruct/idr.c:20-24 | when all ids are released, every layer is spare or returned, if and only if no layer is idle |
| `IdrTable.ThickInhabited` | datastruct/idr.c:305-310 | in a tree without empty layers every layer has an id below it |
| `IdrTable.TopOnlyFirst` | datastruct/idr.c:329-331 | there, the test for dropping the top holds exactly if all ids fit one layer less |
| `Idr.Handle.RemoveExact` | datastruct/idr.c:321-345 | a removal touches no other id if and only if the id is in range or its lowest digits name a free one |
| `Idr.StrayRemove` | datastruct/idr.c:321-345 | a concrete case from a new handle: after its first pointer got id 0, removing the free id IDR_SIZE takes that pointer out |
| `KfifoIndex.WrapWorksExactly` | datastruct/kfifo.c:87-90 | wrapped indices find the right slots if and only if the size divides 2^32 |
| `KfifoIndex.MaskIsRemainder` | datastruct/kfifo.c:139-140 | index & (size - 1) is the remainder when size is a power of two |
| `KfifoIndex.PowerTest` | datastruct/kfifo.c:91 | size & (size - 1) is zero if and only if size is a power of two |
| `KfifoIndex.GenericFls` | datastruct/kfifo.c:9-36 | the position of the highest set bit of any 32-bit number |
| `KfifoIndex.RoundupPowOfTwo` | datastruct/kfifo.c:39-42 | the least power of two not below x for 0 < x <= 2^32, which covers every unsigned int |
| `KfifoIndex.AllocSize` | datastruct/kfifo.c:80-106 | for every unsigned int: the size is a power of two that holds the request if and only if 0 < request <= 2^31, then the least one; otherwise it is 0 |
| `Kfifo.WrittenAppends` | datastruct/kfifo.c:131-148 | bytes written behind the end of the queue are appended to it, also across both wrap-arounds |
| `Kfifo.RingSuffix` | datastruct/kfifo.c:162-179 | advancing out leaves the rest of the queue |
| `Kfifo.Fifo.constructor` | datastruct/kfifo.c:55-72 | a new ring is empty |
| `Kfifo.Fifo.Reset` | datastruct/kfifo.h:26-29 | the ring is empty |
| `Kfifo.Fifo.Contents` | datastruct/kfifo.h:102-105 | the unsigned difference of the indices is the number of bytes in the queue |
| `Kfifo.Fifo.CopyIn` | datastruct/kfifo.c:139-143 | the two copies write exactly the slots from in on |
| `Kfifo.Fifo.CopyOut` | datastruct/kfifo.c:170-174 | the two copies read exactly the slots from out on |
| `Kfifo.Fifo.Put` | datastruct/kfifo.c:131-148 | min(len, room) bytes are appended to the queue |
| `Kfifo.Fifo.Get` | datastruct/kfifo.c:162-179 | min(len, length) bytes leave the front of the queue, in order, and no other byte of the destination changes |
| `Kfifo.Fifo.LockedGet` | datastruct/kfifo.h:77-96 | the reset of both indices of an emptied queue leaves the queue as it is |
| `KfifoConcurrent.PutSizeKeeps` | datastruct/kfifo.c:136 | whatever the reader did since the comparison, there is room for the bytes the writer settles on |
| `KfifoConcurrent.PutByteKeeps` | datastruct/kfifo.c:139-143 | no single byte copy of the writer touches a byte the reader may look at |
| `KfifoConcurrent.GetByteKeeps` | datastruct/kfifo.c:170-174 | every single byte copy of the reader gets the byte that is due |
| `KfifoConcurrent.PutPublishKeeps` | datastruct/kfifo.c:145 | publishing in hands over exactly the bytes copied |
| `KfifoConcurrent.GetPublishKeeps` | datastruct/kfifo.c:176 | publishing out frees exactly the bytes read |
| `KfifoConcurrent.StepKeeps` | datastruct/kfifo.c:131-179 | every step of either side keeps the invariant |
| `KfifoConcurrent.FifoOrder` | datastruct/kfifo.c:127-129 | in every interleaving the bytes read are a prefix of the bytes written, in - out modulo 2^32 is their distance and at most size, and no slot is in use by both sides |
| `KfifoConcurrent.NeverStuck` | datastruct/kfifo.c:131-179 | a call in progress can always go on |
| `KfifoConcurrent.PutTakes` | datastruct/kfifo.c:136 | in every interleaving, a put takes more bytes than offered if and only if the room was at most the count at the first look and more at the second; never more than there is room |
| `KfifoConcurrent.GetTakes` | datastruct/kfifo.c:167 | the same for a get, which then writes beyond the caller's buffer |
| `KfifoConcurrent.GetTooMany` | datastruct/kfifo.c:167 | a concrete run for every ring size: a get of no bytes writes one |
| `TimerQueue.NotBeforeIsOrder` | timer/module_timer.c:30-40 | cmptime on normalised times compares the instants |
| `TimerQueue.Plus` | timer/module_timer.c:124-126 | the sum with carry is normalised and exact |
| `TimerQueue.FromMillis` | timer/module_timer.c:257-258 | the interval is exactly the given milliseconds |
| `TimerQueue.InsertedSorted` | timer/module_timer.c:76-88 | inserting before the first timer that is not due earlier keeps the order |
| `TimerQueue.ErasedSorted` | timer/module_timer.c:296-298 | erasing a timer keeps the order |
| `TimerScheduler.FiredOnce` | timer/module_timer.c:122-158 | a firing moves the schedule on by exactly one interval from the instant it was due at |
| `TimerScheduler.FiringCount` | timer/module_timer.c:122-158 | once nothing is due, a timer has fired as often as its interval fits into the time since it was armed |
| `TimerScheduler.Scheduler.constructor` | timer/module_timer.c:173-214 | all slots are free, in order |
| `TimerScheduler.Scheduler.InsertTimer` | timer/module_timer.c:62-89 | the place in the ordered list, and the return code |
| `TimerScheduler.Scheduler.GetTimerID` | timer/module_timer.c:216-226 | the first free slot, or an error exactly if there is none |
| `TimerScheduler.Scheduler.SetTimer` | timer/module_timer.c:235-276 | when it fails; otherwise the slot holds exactly what was asked for, due one interval from now, at its place on the work list, and no other slot changes |
| `TimerScheduler.Scheduler.SetMsgTimer` | timer/module_timer.c:312-351 | the same for a message timer; function and parameter are those of the last SetTimer that had the slot |
| `TimerScheduler.Scheduler.KillTimer` | timer/module_timer.c:282-302 | a running timer goes to the end of the free list; any other id changes nothing |
| `TimerScheduler.Scheduler.ChangeTimerTime` | timer/module_timer.c:359-386 | a running timer is re-armed from now on; errors change nothing |
| `TimerScheduler.Scheduler.GetTimerTime` | timer/module_timer.c:392-405 | gives back the interval it was set with, 0 if the slot is not running |
| `TimerScheduler.Scheduler.StateMeans` | timer/module_timer.c:289-300 | state is 1 exactly for slots on the work list, 0 exactly for those on the free list; func and parameter are those of the last SetTimer |
| `TimerScheduler.Scheduler.Tick` | timer/module_timer.c:92-171 | a timer fires exactly if one is due, the earliest first and never early, at arm time + (k + 1) intervals after k firings; it calls the function, with the parameter, of the last SetTimer that had the slot, and if there was none sends to the queue of the last SetMsgTimer; only deadline and counters of the slot change; a timer for n messages leaves with the n-th; an idle thread has caught up |
| `TimerScheduler.Scheduler.Fire` | timer/module_timer.c:122-158 | new deadline, list and counters of the timer that fires; the error branch is never taken |
| `TimerScheduler.Play` | timer/module_timer.c:92-386 | in every run of calls and thread rounds from initialisation, whatever fires is what was last asked for in that slot: function and parameter, or queue |
| `TimerScheduler.StaleFunction` | timer/module_timer.c:332-340 | a concrete run from initialisation in which a message timer calls the function that an earlier timer left in its slot |
| `LinkedRing.AddRing` | datastruct/list.h:36-57 | list_add puts the entry first in the ring, links in both directions, and touches nothing outside |
| `LinkedRing.DelRing` | datastruct/list.h:79-95 | list_del takes exactly that node out of the ring, at any place, and clears its links |
| `LinkedRing.UnlinkBackward` | pool/pool.c:182-193 | for every ring, the loop of reset_pool gets through without following NULL if and only if there is at most one node; otherwise it takes out just the last one |
| `LinkedRing.UnlinkForward` | pool/caching.c:290-295 | for every ring, the loop of mdl_caching_pool_destroy gets through if and only if there is no node; otherwise it takes out just the first one |
| `PoolBlocks.AlignPtr` | pool/pool.c:4 | the next multiple of four |
| `PoolBlocks.Rounded` | pool/pool.c:248-251 | the size rounded up to a multiple of four |
| `PoolBlocks.GrowSize` | pool/pool.c:69-82 | the increment if that holds the request, its header and the alignment, else the next multiple of it |
| `PoolBlocks.FreshBlockFits` | pool/pool.c:84-91 | a new aligned block satisfies the request, for every size and increment |
| `PoolBlocks.FreshBlockExact` | pool/pool.c:84-91 | for blocks at any address: it always does if and only if alignment costs at most one byte |
| `PoolBlocks.TakenRegions` | pool/pool.c:246-260 | the region taken is aligned, inside its block and disjoint from all regions handed out before |
| `PoolBlocks.AddedBlocks` | pool/pool.c:25-36 | a new block at the front keeps all regions valid |
| `PoolBlocks.UsedAndUnused` | pool/pool.c:231-244 | reported used size plus free space is the capacity |
| `Pool.MemoryPool.constructor` | pool/pool.c:118-169 | a pool with its initial block, nothing handed out |
| `Pool.MemoryPool.AllocFromBlock` | pool/pool.c:246-260 | succeeds exactly if the rounded size fits |
| `Pool.MemoryPool.CreateBlock` | pool/pool.c:8-39 | the block is first in the list, links included, and counted in the capacity; NULL changes nothing |
| `Pool.MemoryPool.AllocateFind` | pool/pool.c:41-94 | the first block with room, or a new one, gives up exactly the rounded size; fails exactly if no block has room and the pool may not or cannot grow, or a new block is too small because of its alignment, in which case the assertion after growth fails |
| `Pool.MemoryPool.Alloc` | pool/pool.c:262-274 | the region has exactly the rounded size and begins at the first free address of the first block with room, or of a new one; reported used size grows by just that and a new header; over any run regions stay aligned, inside live blocks and pairwise disjoint |
| `Pool.MemoryPool.AllocAligned` | pool/pool.c:84-91 | with aligned memory and a pool that may grow, every request of any size is served and the assertion holds |
| `Pool.MemoryPool.GetUsedSize` | pool/pool.c:231-244 | the sum over the blocks; never exceeds the capacity, and the difference is the free space |
| `Pool.MemoryPool.Reset` | pool/pool.c:172-200 | the loop over the linked blocks returns if and only if there is one block, which is then all free again from its first aligned address, with its capacity; in any other pool it gives back the header of the initial block, an address the policy never returned, and follows its cleared link |
| `Pool.GrownReset` | pool/pool.c:172-200 | a concrete run: a new pool grows on its first request and cannot be reset |
| `Caching.ClassOf` | pool/caching.c:46-65 | the search from the middle finds the smallest class that fits |
| `Caching.CachingPool.constructor` | pool/caching.c:249-279 | an empty cache with correct accounts |
| `Caching.CachingPool.OnBlockAlloc` | pool/caching.c:226-237 | used size and its peak |
| `Caching.CachingPool.OnBlockFree` | pool/caching.c:240-245 | used size, an unsigned difference; ReleasePool and CreatePool show that it never wraps |
| `Caching.CachingPool.Reuse` | pool/caching.c:89-106 | the first pool of the class leaves the cache and its capacity is subtracted exactly |
| `Caching.CachingPool.CreatePool` | pool/caching.c:28-121 | the smallest fitting class, at least the requested size, cached or new; fails exactly if none is cached and malloc fails; all accounts stay right and no pool is in two hands |
| `Caching.CachingPool.GrowPool` | pool/pool.c:15-26 | a further block counts in the pool's capacity and in used size; the accounts stay right also if malloc fails |
| `Caching.CachingPool.ReleasePool` | pool/caching.c:123-183 | the loop over the pool's linked blocks returns if and only if it has not grown; then the pool is cached if of a class and within the bound, else destroyed; the index assertion holds and all accounts stay right |
| `Caching.GrownRelease` | pool/caching.c:123-183 | a concrete run: a pool that was created and has grown cannot be released |
| `Caching.CachingPool.DestroyAll` | pool/caching.c:281-309 | the loops over the linked lists return if and only if there is no pool, cached or in use |

## Left out

- UDP: handshake, heartbeat, link table, sockets, semaphores, blocking modes and time-outs; one direction of an established link is modelled, and rate limits are parameters.
- UDP: the round-trip estimate and statistics fields; they do not influence delivery.
- UdpLink.Link.ExSend: only the non-blocking mode is modelled; the blocking modes repeat the same attempt after waiting.
- UdpLink.Link.ExRecv: only the non-blocking mode is modelled, for the same reason.
- UDP: packets with link state below 2 arriving late, which rewrite SeqRead.
- RbTree.RbRoot.Insert: the search for the place is the caller's, as in the source.
- Idr.Handle.GetNewAbove: negative start ids; what happens after the path array was overrun.
- IDR: locks, the error codes that the wrappers return for -1, and the slab cache beyond handing out blank layers.
- IDR layers as heap objects: they are records in a map from addresses, so aliasing is by address.
- kfifo: kfifo_init, kfifo_alloc and kfifo_free beyond the choice of the size; the two asserts, whose conditions are the reverse of their comments; weak memory models.
- Timer: waiting, waking and dispatch (semaphores, messages, callbacks), and overflow of time fields.
- clist.h is not part of this model.
- Pool.MemoryPool.constructor: buffers in which alignment leaves no room behind the headers; there the source takes a negative amount of room for a huge one.
- Pool.MemoryPool.CreateBlock: blocks in which alignment leaves no room behind the header, for the same reason; growth never asks for one.
- Caching.CachingPool.DestroyAll: what mdl_pool_destroy_int does to the one pool that is taken out before the loop fails.
- Pools: size overflow, names, signatures and logging.
- datastruct/sort.c, string.c, the rest of list.h, module_array.c, module_list.c, and the log, signal, thread and shell_receipt directories: they would only add easy members.
