# Verified model of the Opentegra X.org driver's memory and drawing core

A Dafny model of three parts of the driver that keep long-lived state, with proofs of what they promise.

1. **The relocating memory pool** (`Bitmap`, `VfpCopy`, `PoolLayout`, `PoolContents`, `MemPool`,
   `PoolTransfer`, `PoolPolicy`, `PoolSession`). A first-fit allocator that moves live data behind its
   owners' backs and tells them through back-pointers; the transfers between pools; the policy that merges,
   drains, shrinks and destroys pools; the bounce-buffered copies underneath. The main results:
   `MemPool.Alloc` (with memory for the bitmap, an allocation that may defragment fails only for lack of space),
   `PoolTransfer.TransferEntries` and `TransferEntriesFast` (nothing that would have fitted is left behind),
   `PoolPolicy.MergePools` (exactly when it merges, that it takes everything if that fits, and that otherwise
   what it leaves behind fits no gap),
   `PoolPolicy.DrainAll` (the `goto` loops end, and only when nothing more can be moved),
   `PoolPolicy.CompactPoolsSlow` (nothing is lost, almost no spare page is left unless a buffer was refused,
   and what was worth merging is merged), `PoolPolicy.AllocSmall` (a pool of the list that has room serves the
   request; a new pool is made only if none has a gap and no compaction that was due has found the space; it
   fails only if a buffer is refused) and `PoolSession.Run` (over every run of requests, each allocation keeps
   its bytes wherever it lives, and its place while 3D jobs wait).
2. **The deferred drawing engine** (`Screens`, `Batch`, `Drawing`, `DrawingSession`, `FullBuffer`,
   `DriverSession`, `OptContext`, `Fences`). Whole-pixmap fills are recorded, 3D jobs are batched, copies turn
   into fills, small fills go to the CPU. All jobs of a batch share one vertex buffer of 256 KiB, and a
   rectangle that finds no room there is dropped. `DrawingSession.Run` proves for every sequence of
   operations that what is seen, and what the CPU reads, is what immediate drawing of everything that found
   room gives; so it is what immediate drawing gives, as long as each job finds room. That condition is
   exact: by `Batch.CutExact` a job whose rectangles all show is seen as drawn if and only if it fits behind
   the bytes in use, and `FullBuffer.LostDraw` is a run in which a job is lost. What drawing means is stated in
   coordinates: `DrawingSession.StepStrokes` and `Perform` give for every rectangle of an operation which pixels
   change, and to what. `DriverSession.Run` runs the
   engine and the pools together: the pool entries that waiting jobs refer to stay in place. `OptContext` and
   `Fences` prove the nesting of drawing contexts and the reference counts of the batch's fence.
3. **The buffer-object recycle cache** (`BoCache`, `BoSession`): bucket table, parking, recycling, cleanup.
   Every buffer is in use, parked or freed; `BoCache.CacheFree` and `CacheAlloc` say exactly what the lists of
   the buckets are afterwards, first in, first out; `BoSession.Run` proves over every run of requests that the cache
   never parks, frees or hands out again a buffer that somebody holds.

`Lists` holds what several modules share about lists without repetitions, sums, and sizes of sets.

## How to read it

- Objects that the driver updates in place are classes with the same fields: pool, handle (`Owner`), the
  policy's state (`Exa`), pixmap, engine, stream, fence, buffer, bucket. Ghost fields hold what the code only
  implies: the bytes of every live allocation (`live`), the slots in use (`used`), the drawing brackets in
  progress (`locks`).
- What the kernel answers is an argument. `memory` says that every request for more bitmap is granted;
  without that promise each one may be granted or refused. `Kernel` adds the same for buffers (`buffers`), that
  a refusal is for lack of memory (`scarce`), and that the buffer can be had after the compaction that follows
  (`freed`). `Clock` is what the clock reads when the policy asks for it. `idle` and `granted` are the answers
  that the recycle cache gets.
- `Pool.Valid` is the invariant of a pool: the bitmap words agree with the used slots; entries are ordered by
  index, disjoint, in bounds and 128-aligned, with slot 0 at the base; owner back-pointers are exact;
  `remain` plus the sizes is `pool_size`; an unfragmented pool is a gap-free index prefix; a pool with space
  and an open bitmap has a free slot. `Exa.Valid` adds that the listed pools share nothing and hold exactly
  the allocations `all`. `Engine.Valid` and `Drm.Valid` do the same for drawing and for the cache. Each of
  these classes has a constructor that establishes its invariant, from which the runs start.
- `Serves` says that a pool has room for a request as it stands: its bitmap is open, and either a gap with a
  slot is large enough or it is packed and has the space. `NoFit` says that no gap is large enough, `NoSlot`
  that none of those with a slot is, `Stuck` that nothing of a pool goes to the end of another one.
- `Shown` is what an observer of the lazy drawing engine is entitled to see; `Screen` adds the commands that
  wait in the stream of a bracket. Every drawing method says what it does to them.
- `pool_compaction_blockcnt`, which the batch raises and the policy tests, is the field `blockcnt` of `Engine`
  and an argument of `PoolPolicy.AllocSmall`: `Drawing.BlockedWhileWaiting` says when it is raised,
  `PoolSession.BatchKeepsPlaces` what the pools promise meanwhile, and `DriverSession.JobsKeepPlaces` what
  follows for the two together.
- A 3D job is a list of rectangles, each an arbitrary function of the pictures (`Paint`). `Engine.attribs` is
  the number of bytes of the vertex buffer in use, `JobBytes` what a job takes there, and `Cut` what is left
  of a job that does not fit.
- `hide` statements at the start of a body only keep the solver's context small.

## Assumptions

- `unsigned long` has 32 bits. Allocation sizes are positive multiples of 128. Mapping a buffer succeeds.
- Growing a bitmap and creating a buffer may fail at any time, unless an argument promises otherwise. Clocks,
  the state of hardware fences, the address `mmap` picks, the number of processors, and whether a rectangle
  counts as small are arbitrary.
- Addresses inside a pool are offsets from its base; the code adds 0x10000000 to them. A bitmap word is 32
  booleans: the shift that builds the mask of the bits below a position wraps at bit 31, and
  `Bitmap.MaskValues` shows which words the shifts denote.
- A job that is submitted to the hardware is executed at once: the fences make every later access wait.
- The poison marker of the fences exists in debug builds; elsewhere it is NULL and the check has no effect.

## Where the code differs from its comments or from immediate drawing

- The batch does not look at its vertex buffer before it takes another job: `tegra_exa_composite_3d` drops
  each rectangle for which the buffer has no room (a FIXME in the code), while drawing each job at once would
  have emptied the buffer before. `FullBuffer.LostDraw` gives the run: 5462 brackets of one textured rectangle
  on one destination within one batch, of which the last is lost. `DrawingSession.Perform` says exactly when a
  job is drawn.
- The comments of both transfer functions promise the number of entries; they return bytes, and the model
  follows the code.
- `tegra_exa_compact_pools_fast` marks its source light and then skips the loop for light sources, so its
  transfer is never reached; `PoolPolicy.CompactPoolsFast` proves what is left of it.
- Alignment in `drm_tegra_bo_cache_alloc` wraps around for requests in the last page below 4 GiB, which then
  get one page: `BoCache.WrapsAround` gives such a request and `BoCache.AlignCovers` the exact condition.
- `lookup_bo` resets the counter of a parked buffer to one and then counts the new user as well, so such a
  buffer has one reference that nobody will give back. `BoCache.Lookup` states both counts, and
  `BoSession.Run` counts these references in `extra`; without lookups there are none.
- A request for an empty pool fails although no buffer is refused. Only a pool that was empty before could
  cause one, and `Exa.NoneEmpty` is kept by everything that the policy does.
- The `fragmented` flag is conservative: a pool may be packed while it is set. Compaction clears it only if no
  slot is left unused, and freeing sets it also where no slot was free; `MemPool.DefragPool` and `MemPool.Free`
  say exactly when.
- The comments above `tegra_exa_compact_pools_slow` promise the most empty and the most filled pools. The bound on
  a full list can pass over such a pool: if the first six half-empty pools come lightest first already, the list
  is the first five, whatever follows. `PoolPolicy.HeadIsBest` gives the exact condition under which the first
  of either list is the best of all.

## Model

| member | source | states |
|---|---|---|
| Bitmap.MaskValues | src/mempool/pool_alloc.c:141-142 | the words of the model have the values that the code's shifts compute, bit 31 included |
| Bitmap.ZeroValue | src/mempool/pool_alloc.c:144-156 | a word is the number 0 exactly when no bit is set, the test that skips words |
| Bitmap.SetAgrees | src/mempool/pool_alloc.c:199-208 | setting a bit marks exactly that slot as used |
| Bitmap.ClearAgrees | src/mempool/pool_alloc.c:210-219 | clearing a bit frees exactly that slot |
| Bitmap.GrowAgrees | src/mempool/pool_alloc.c:368-423 | a grown bitmap keeps every slot and adds 32 unused ones |
| Bitmap.NextUnused | src/mempool/pool_alloc.c:129-162 | the least unused slot at or after the start, or -1 exactly when there is none |
| Bitmap.NextUsed | src/mempool/pool_alloc.c:164-197 | the least used slot at or after the start, or -1 exactly when there is none |
| Bitmap.IsNextUnique | src/mempool/pool_alloc.c:129-197 | that answer is the only one possible |
| VfpCopy.VfpCpy | src/memcpy-vfp/memcpy_vfp.c:41-56 | a forward copy in units of 64 bytes stores exactly the source range |
| VfpCopy.CopyBlockBounced | src/memcpy-vfp/memcpy_vfp.c:88-89 | a block that goes through the bounce buffer arrives intact, however source and destination overlap |
| VfpCopy.BlockStep | src/memcpy-vfp/memcpy_vfp.c:80-93 | moving one block at the front or the back leaves exactly the rest to do, as long as no unread byte was overwritten |
| VfpCopy.CopyBlocks | src/memcpy-vfp/memcpy_vfp.c:80-95 | the counted loop moves all whole blocks, walking up or down |
| VfpCopy.CopyBlock2Pass | src/memcpy-vfp/memcpy_vfp.c:63-104 | memmove for every overlap and every positive multiple of 128, with the clamped last block |
| VfpCopy.CopiedUnique | src/memcpy-vfp/memcpy_vfp.c:63-104 | the promise of memmove determines every byte of the destination |
| VfpCopy.CopyAligned | src/memcpy-vfp/memcpy_vfp.h:67-77 | the aligned wrapper is memmove as well |
| VfpCopy.CopyUnaligned2Pass | src/memcpy-vfp/memcpy_vfp.c:160-199 | splitting off unaligned ends copies a disjoint range exactly |
| VfpCopy.CopyUnaligned | src/memcpy-vfp/memcpy_vfp.h:48-56 | the unaligned wrapper copies a disjoint range exactly |
| VfpCopy.PlanCovers | src/memcpy-vfp/memcpy_vfp.c:242-266 | the chunks of the threads cover the range, and each meets the alignment and size that its copy demands |
| VfpCopy.PlanDisjoint | src/memcpy-vfp/memcpy_vfp.c:242-266 | no two threads touch the same byte |
| VfpCopy.ChunkDone | src/memcpy-vfp/memcpy_vfp.c:201-208 | one thread's chunk may be stored in any order with the others |
| VfpCopy.CopyThreaded | src/memcpy-vfp/memcpy_vfp.c:229-270 | the threaded copy is a plain copy of a disjoint range, whatever the order of the threads |
| PoolLayout.TotalBounds | src/mempool/pool_alloc.c:251-296 | the sizes of the used entries fit the pool, and are 0 only when nothing is used |
| PoolLayout.SlotFitsHandle | src/mempool/pool_alloc.h:45-48 | entry ids fit 16 bits in every pool of up to 8 MiB, such as those of the policy |
| PoolLayout.PackedTotal | src/mempool/pool_alloc.c:438-447 | in a packed pool the free space is one gap behind the last entry |
| PoolLayout.NoFitMonotone | src/mempool/pool_alloc.c:819-842 | a request that fits nowhere is not helped by being larger, the rule behind `fail_size` |
| PoolLayout.NoFitPlace | src/mempool/pool_alloc.c:808-843 | placing an entry never makes a request fit that did not |
| PoolLayout.NoFitGrown | src/mempool/pool_alloc.c:489-492 | nor does growing the bitmap |
| PoolLayout.TooLarge | src/mempool/pool_alloc.c:515-516 | a size above `remain` fits no gap |
| PoolLayout.PackedFits | src/mempool/pool_alloc.c:525-563 | in a packed pool the gap behind the last entry takes any size up to `remain` |
| PoolLayout.GapTest | src/mempool/pool_alloc.c:536-562 | comparing the gap with the size decides exactly whether the slot's gap is too small |
| PoolLayout.AllocNoFit | src/mempool/pool_alloc.c:494-603 | what fitted nowhere before an allocation fits nowhere after it |
| PoolLayout.AllocPacked | src/mempool/pool_alloc.c:494-603 | allocating in a packed pool keeps it packed |
| PoolLayout.FreedFits | src/mempool/pool_alloc.c:605-642 | where an entry was freed, first-fit finds a gap of its size again |
| PoolLayout.SpacedAlloc | src/exa/mm_pool.c:805-823 | in a pool that only serves more than 96 KiB at a time, allocating keeps every entry at least 96 KiB per slot into the pool |
| PoolLayout.SpacedClear | src/mempool/pool_alloc.c:605-642 | freeing keeps that spacing |
| PoolLayout.SpacedPacked | src/mempool/pool_alloc.c:425-487 | compacting such a pool keeps that spacing |
| PoolLayout.LargeSlots | src/exa/mm.c:168-169 | so entry ids stay below 256 in the large pool of up to 24 MiB |
| PoolContents.HoldsMove | src/mempool/pool_alloc.c:322-366 | moving an entry inside its pool, over its own old place too, keeps the bytes of every handle |
| PoolContents.HoldsArrive | src/mempool/pool_alloc.c:322-366 | an entry that arrives brings its bytes and overwrites no other live entry |
| PoolContents.HoldsWrite | src/mempool/pool_alloc.h:116-121 | a write inside one allocation changes no other |
| PoolContents.Compacts | src/mempool/pool_alloc.c:454-473 | one step of compaction lengthens the gap-free prefix by one entry |
| MemPool.Pool.constructor | src/mempool/pool_alloc.c:78-127 | a new pool is valid, empty and unfragmented |
| MemPool.Pool.SetBit | src/mempool/pool_alloc.c:199-208 | the words and the set of used slots change together |
| MemPool.Pool.ClearBit | src/mempool/pool_alloc.c:210-219 | the words and the set of used slots change together |
| MemPool.Pool.OpenAccess | src/mempool/pool_alloc.h:133-139 | a nested mapping uses the same address; nothing else about the pool changes |
| MemPool.Pool.CloseAccess | src/mempool/pool_alloc.h:141-147 | the mapping goes with the last user |
| MemPool.CopyData | src/mempool/pool_alloc.c:344-357 | memcpy is chosen only for disjoint ranges, memmove otherwise, and the bytes arrive in both cases |
| MemPool.MoveEntry | src/mempool/pool_alloc.c:298-320 | the slot changes, and the owner's pool and id with it |
| MemPool.MigrateWithin | src/mempool/pool_alloc.c:322-366 | inside a pool: structure, back-pointers and the bytes of every handle are kept |
| MemPool.MigrateAcross | src/mempool/pool_alloc.c:322-366 | between pools: the handle takes its bytes along, all others keep theirs |
| MemPool.GrowBitmap | src/mempool/pool_alloc.c:489-492 | one more word of slots, or an unchanged pool when memory is refused, which it is not when `memory` promises it |
| MemPool.TryGap | src/mempool/pool_alloc.c:536-562 | a gap that is large enough is the first such one; one that is too small leaves all gaps up to the next used slot, or all there are, too small |
| MemPool.FirstFit | src/mempool/pool_alloc.c:525-563 | the first slot whose gap is large enough; or none, when no gap is, or when memory for one more slot is refused |
| MemPool.EarlyStop | src/mempool/pool_alloc.c:464-470 | where compaction stops early, the retry finds a gap that is large enough |
| MemPool.DefragPool | src/mempool/pool_alloc.c:425-487 | compaction keeps all contents and leaves a packed pool or a usable gap; it stops at the first such gap, and what lies behind has not moved; the `fragmented` flag is cleared exactly if no slot is left unused |
| MemPool.Attempt | src/mempool/pool_alloc.c:524-580 | one pass of first-fit with all its bookkeeping |
| MemPool.Alloc | src/mempool/pool_alloc.c:494-603 | with `memory` and defragmentation it serves every size up to `remain`; with `memory` but without defragmentation it fails only if no gap is large enough, and moves nothing; without `memory` it fails with space only if the bitmap was full, or if no gap with a slot was large enough and the last slot is used; a gap with a slot, or an unfragmented pool with an open bitmap, always serves |
| MemPool.AllocStill | src/mempool/pool_alloc.c:494-580 | the search before anything is moved: it takes the first gap that is large enough, or leaves every entry as it was |
| MemPool.UnfragmentedFits | src/mempool/pool_alloc.c:525-563 | a request up to `remain` that first-fit turns down everywhere proves that the pool was not packed |
| MemPool.Free | src/mempool/pool_alloc.c:605-642 | exactly one allocation goes, its bytes return to `remain`, the bitmap is open, and some gap of the pool takes the same size again; the pool becomes fragmented exactly if it is no longer packed or had no free slot |
| MemPool.FlagBeforeFree | src/mempool/pool_alloc.c:618-623 | the flag stays clear exactly if a slot was free and the pool stays a gap-free prefix |
| MemPool.Defrag | src/mempool/pool_alloc.c:863-867 | afterwards the pool is packed and every handle has its bytes; the flag goes only if no slot is unused |
| MemPool.EntryAddr | src/mempool/pool_alloc.h:101-121 | a handle leads through pool and id to the bytes of its allocation, 128-aligned and in bounds |
| MemPool.HandlesDisjoint | src/mempool/pool_alloc.c:251-296 | two live handles of a pool never share a byte |
| MemPool.OthersStay | src/mempool/pool_alloc.c:494-603 | an allocation without defragmentation leaves slot, offset and size of every other entry alone |
| MemPool.WriteByte | src/mempool/pool_alloc.h:116-121 | a byte written through the handle changes this allocation at this place only |
| PoolTransfer.AppendOne | src/mempool/pool_alloc.c:736-746 | an entry that is appended keeps the target packed and moves its size from one `remain` to the other |
| PoolTransfer.TransferEntries | src/mempool/pool_alloc.c:675-769 | bytes returned are the change of both `remain`; the moved handles keep their contents; the target is packed; every entry left behind is larger than the target's `remain`, unless the target's bitmap is full, which takes a refusal of memory; the source that gave something is open, and fragmented unless empty |
| PoolTransfer.FastOne | src/mempool/pool_alloc.c:822-843 | one entry goes through a placeholder allocation, or no gap of the target takes it |
| PoolTransfer.FastInvSkipped | src/mempool/pool_alloc.c:819-820 | an entry skipped because of `fail_size` would indeed have failed |
| PoolTransfer.FastMovesAll | src/mempool/pool_alloc.c:776-861 | a packed target with enough bytes and slots empties the source, even if the bitmap never grows, and stays packed with the rest of its room |
| PoolTransfer.TransferEntriesFast | src/mempool/pool_alloc.c:776-861 | as above without defragmenting; with `memory` every entry left behind fits no gap of the target, unless that is full; what fitted nowhere before fits nowhere afterwards; a source that fits is emptied and leaves the target packed, full only once its bytes or slots are used up |
| PoolPolicy.MapPool | src/exa/mm_pool.c:130-144 | a pool is mapped apart from all others, and its nested users see one address |
| PoolPolicy.UnmapPool | src/exa/mm_pool.c:146-153 | giving the mapping up changes nothing else |
| PoolPolicy.Exa.constructor | src/exa/mm.c:125 | without pools the invariant holds, and nothing is allocated |
| PoolPolicy.MoveEntries | src/exa/mm_pool.c:303-312 | the map, transfer, unmap bracket loses no allocation, leaves both mappings as they were, and keeps the promises of the transfer |
| PoolPolicy.CreatePool | src/exa/mm_pool.c:80-128 | a new pool shares nothing with the others; an empty size always fails, and any other only if the buffer is refused |
| PoolPolicy.DropEmpty | src/exa/mm_pool.c:67-73 | destroying an empty pool loses no allocation |
| PoolPolicy.Destroy | src/exa/mm_pool.c:67-73 | only an empty pool may be destroyed, and only it leaves the list |
| PoolPolicy.MergePools | src/exa/mm_pool.c:321-384 | it merges exactly if the examined pools waste 64 KiB in partly used pages and the buffer is to be had; the new pool has the pages that they hold, up to 1 MiB, and is not empty; all allocations are kept, emptied pools only are destroyed, and the first that can be merged is; if everything fits 1 MiB, exactly the pools that can be merged are gone; and with `memory` whatever such a pool has left fits no gap of the new pool, unless that is full |
| PoolPolicy.MergeSize | src/exa/mm_pool.c:332-352 | the merged pool has the pages that the examined pools hold, up to 1 MiB, and a bitmap for all their slots |
| PoolPolicy.MergeNext | src/exa/mm_pool.c:357-379 | the first pool always goes completely into the merged one, and every pool does if everything fits |
| PoolPolicy.FirstFits | src/exa/mm_pool.c:332-353 | a merged pool is large enough for the first pool that goes there |
| PoolPolicy.FullTakesAll | src/exa/mm_pool.c:376-377 | where everything fits, leaving the loop early because the merged pool is full leaves nothing behind |
| PoolPolicy.BlockedNext | src/exa/mm_pool.c:357-379 | emptying one pool into the merged one makes nothing fit that earlier pools have left behind |
| PoolPolicy.Rank | src/exa/mm_pool.c:439-466 | insertion keeps the list ranked and distinct, puts a pool ahead of the first one it beats, and pushes out one pool exactly when the list is full |
| PoolPolicy.LightPools | src/exa/mm_pool.c:421-470 | up to five listed pools, at least half empty, the lightest first, and fewer than five are all there are; if the first six come in this order already they are the first five, and otherwise the first is the lightest of all; the `light` bits are exactly theirs, all `heavy` bits are clear |
| PoolPolicy.HeavyPools | src/exa/mm_pool.c:472-524 | up to sixteen pools with space, neither light nor heavy before, the heaviest first, and fewer than sixteen are all there are; if the first seventeen come in this order already they are the first sixteen, and otherwise the first is the heaviest of all; their `heavy` bits are added |
| PoolPolicy.HeadIsBest | src/exa/mm_pool.c:434-437 | the first of either list is the best of all candidates, except exactly where the first ones fill the list in their order, one more is turned away, and a later one beats the first |
| PoolPolicy.Drain | src/exa/mm_pool.c:526-560 | light pools go into heavy ones; those destroyed were empty; nothing that is left of the others fits a heavy pool, and nothing becomes movable that was not; bytes move only if both lists have pools |
| PoolPolicy.DrainOne | src/exa/mm_pool.c:535-553 | after its turn nothing in a light pool fits any of the heavy ones |
| PoolPolicy.TakesNothing | src/exa/mm_pool.c:482-486 | a pool that the heavy list passes over because it is full or has less than 128 bytes takes nothing |
| PoolPolicy.Level | src/exa/mm_pool.c:472-560 | what was settled stays settled, and if the heavy list was not full, nothing in the light pools fits any other pool |
| PoolPolicy.Round | src/exa/mm_pool.c:472-571 | going round again means fewer pools, or as many pools of which fewer have never been heavy |
| PoolPolicy.DrainAll | src/exa/mm_pool.c:421-571 | the loops end with nothing in the light pools that fits a pool of any heavy list, nor any other pool unless sixteen places were too few |
| PoolPolicy.DrainedHalves | src/exa/mm_pool.c:421-571 | if no more than five pools are half empty, the light pools at the end are those of them that are left, and the others are as many as before |
| PoolPolicy.RoomInNew | src/exa/mm_pool.c:292-308 | a new pool of the rounded size with the same bitmap has room for every entry of the old one |
| PoolPolicy.ShrinkPool | src/exa/mm_pool.c:283-319 | the replacement has received every entry before the old pool goes, and has less than a page to spare; it fails only if the buffer is refused or the pool is empty |
| PoolPolicy.ShrinkPools | src/exa/mm_pool.c:573-591 | it stops only if a buffer is refused or a pool is empty, and otherwise only light pools keep a page they do not need; the pools that stay are untouched, and all light ones stay |
| PoolPolicy.CompactPoolsSlow | src/exa/mm_pool.c:386-604 | it ends and keeps every allocation; if buffers are to be had and no pool was empty, only the last light pools, at most five and each half empty, keep a spare page; a pool that stays in the list takes nothing of what is left in these; where merging is worth it, the first pool that can be merged is gone, and all are if they hold no more than 1 MiB; where it is not, and no more than five pools were half empty, only such pools are gone and the others are as many as before |
| PoolPolicy.CompactPoolsFast | src/exa/mm_pool.c:205-281 | it returns a pool with enough space in all, or none exactly when no pool has it |
| PoolPolicy.CompactPools | src/exa/mm_pool.c:618-686 | the slow form runs exactly if nothing blocks it, 15 seconds have passed since the last one and 960 KiB are to spare, and then its promise on spare pages holds; the fast form exactly after three seconds and if the pools have the size to spare together; if neither runs, nothing happens; if one does, the pool returned has enough space, and there is none exactly if no pool has it; both times are set as they should be |
| PoolPolicy.TotalSpace | src/exa/mm_pool.c:606-616 | the sum of what the pools have to spare |
| PoolPolicy.SlowAllowed | src/exa/mm_pool.c:618-641 | true exactly if nothing blocks it, 15 seconds have passed and the limit is met; only then the time is set |
| PoolPolicy.FastAllowed | src/exa/mm_pool.c:643-661 | true exactly if nothing blocks it, three seconds have passed and the limit is met |
| PoolPolicy.PoolAlloc | src/exa/mm_pool.c:175-203 | a pool that serves the request as it stands is never passed over; success moves the pool to the head; with memory for the bitmap the slow form fails only for lack of space; the fast form moves nothing |
| PoolPolicy.TryAll | src/exa/mm_pool.c:720-724 | the pools in turn: if one serves the request as it stands, it is served from the list; if none does, then with memory for the bitmaps none has a gap for it |
| PoolPolicy.CompactAndTry | src/exa/mm_pool.c:725-735 | with memory for the bitmaps it fails only if no compaction was due or no pool has the space afterwards |
| PoolPolicy.NewFront | src/exa/mm_pool.c:737-752 | a new pool of the size rounded up to 64 KiB goes to the head of the list, and serves the request |
| PoolPolicy.AllocFromNew | src/exa/mm_pool.c:737-758 | it fails only if a buffer is refused: the allocation from a new pool, whose failure the code calls fatal, cannot fail; the pool has the size rounded up to 64 KiB and holds nothing else |
| PoolPolicy.NewOrAgain | src/exa/mm_pool.c:737-758 | a buffer refused for lack of memory is asked for again after a slow compaction, if one is allowed |
| PoolPolicy.AllocSmall | src/exa/mm_pool.c:701-762 | too large exactly for sizes above 96 KiB; a pool of the list that serves the request as it stands makes it succeed within the list, and no pool is made; with memory for the bitmaps a new pool is made only if no pool had a gap, and, once a compaction was due, none has the space; it fails only if a buffer is refused, and again after the compaction that follows; earlier allocations keep their bytes, and their places while the block counter is raised |
| PoolPolicy.AllocFromOld | src/exa/mm_pool.c:720-735 | a pool that serves the request as it stands makes it succeed within the list; with memory for the bitmaps it fails only if no pool had a gap and, once a compaction was due, none has the space; with the counter raised every handle leads where it led |
| PoolPolicy.HolderIs | src/exa/mm_pool.c:30-39 | the back-pointer of a live handle names the one pool that holds it, and its id fits 16 bits |
| PoolPolicy.FreeEntry | src/exa/mm_pool.c:688-699 | exactly this allocation goes, its pool leaves the list exactly if that empties it, the handle is reset, and no other handle leads elsewhere |
| PoolSession.UntouchedForever | src/mempool/pool_alloc.c:298-366 | over a whole run an allocation that no request names keeps every byte |
| PoolSession.LastWriteReads | src/mempool/pool_alloc.c:298-366 | a byte written stays until it is written again or the allocation is freed, whatever is compacted meanwhile |
| PoolSession.BatchKeepsPlaces | src/exa/mm_pool.c:618-686 | over a whole run with the block counter raised, an allocation stays where it is until its owner gives it back |
| PoolSession.Request | src/exa/mm_pool.c:688-762 | each request does to the contents what its owner asked, and nothing else: one that the small pools serve is never turned down while a buffer can be had, and one to a pool that serves it, or has the space and may be defragmented, succeeds; a compaction leaves at most five pools with a spare page unless a buffer is refused; a transfer leaves nothing behind that would have fitted; with the block counter raised it moves nothing; no pool stays in the list empty |
| PoolSession.DefragAt | src/mempool/pool_alloc.c:863-867 | defragmenting any pool of the list packs it and keeps every allocation of all of them |
| PoolSession.MoveAt | src/mempool/pool_alloc.c:675-861 | a transfer in either form between any two pools of the list keeps every allocation of all of them and leaves nothing behind that would have fitted; the source leaves the list exactly if that empties it |
| PoolSession.Run | src/exa/mm_pool.c:175-762 | any sequence of allocations with or without defragmentation, writes, frees, defragmentations, transfers in both forms and compactions is a trace of steps that only do what the owners asked, and that move nothing while 3D jobs wait |
| Screens.SubmitUnseen | src/exa/optimizations_3d.c:386-420 | submitting the batch changes nothing that can be seen |
| Screens.RecordSeen | src/exa/optimizations_2d.c:82-99 | recording a fill looks like filling |
| Screens.DropSeen | src/exa/optimizations_3d.c:737-757 | dropping the only job changes what is seen of its destination only |
| Screens.JobsFrame | src/exa/optimizations_3d.c:657-691 | jobs neither see nor change a pixmap that they do not touch |
| Screens.CmdSeen | src/exa/optimizations_2d.c:300-313 | a 2D command in memory is a 2D command on the screen once its pixmaps are flushed as the code does |
| Screens.QueueSeen | src/exa/optimizations_3d.c:563-592 | queueing a job looks like running it |
| Screens.FillOvertakes | src/exa/optimizations_2d.c:117-139 | a CPU fill may overtake rectangles of the same colour that wait in the stream |
| Screens.SolidSwallows | src/exa/optimizations_2d.c:82-99 | a recorded fill may be performed before rectangles of its colour that were queued earlier |
| Screens.CoverHides | src/exa/optimizations_2d.c:267-275 | a copy over the whole destination hides what was cancelled there |
| Screens.FillIs | src/exa/solid_2d.c:124-145 | in coordinates: a fill gives the pixels inside its bounds the colour and changes no other |
| Screens.BlitIs | src/exa/copy_2d.c:382-389 | in coordinates: a copy gives the pixels inside its bounds those that the source has at the offset, and changes no other |
| Screens.PaintIs | src/exa/composite_3d.c:743-910 | a rectangle of a job changes its destination only, by what it makes of destination, source and mask, after the rectangles before it |
| Batch.BookAgain | src/exa/optimizations_3d.c:474-482 | one more reference of a pixmap in the table keeps count and flags exact |
| Batch.BookNew | src/exa/optimizations_3d.c:484-489 | a new entry keeps count and flags exact |
| Batch.TableSize | src/exa/optimizations_3d.c:458-489 | the table has exactly as many entries as the queued jobs refer to pixmaps |
| Batch.TableMeans | src/exa/optimizations_3d.c:640-655 | a pixmap is in the table exactly if a queued job touches it, with the write flag exactly if one writes it |
| Batch.RoomIs | src/exa/composite_3d.c:379-388 | the bytes in use determine how many rectangles of a job find room |
| Batch.CutExact | src/exa/composite_3d.c:743-747 | a job whose rectangles all show is seen as drawn if and only if all of it fits behind the bytes in use; what is left of any other job fits |
| Batch.CutFits | src/exa/composite_3d.c:743-747 | what is left of a job are its first rectangles at 24 bytes per attribute and rectangle, as many as 256 KiB hold: one more would not fit |
| Batch.BytesAre | src/exa/composite_3d.c:379-388 | the bytes in use are the sum over the queued jobs of 24 bytes per attribute and rectangle |
| Drawing.Pixmap.constructor | src/exa/pixmap.c:295-338 | a new pixmap has one reference, no lock and no recorded fill |
| Drawing.Engine.constructor | src/exa/tegra_exa.c:243-253 | over pixmaps without recorded fills and batch references the invariant holds, with nothing queued and no bracket open |
| Drawing.BlockedWhileWaiting | src/exa/optimizations_3d.c:375-379 | the block counter is raised by one exactly while jobs are queued |
| Drawing.QueuedHeld | src/exa/exa.h:399 | a pixmap that a queued job touches is locked against freezing, and its data has not been released |
| Drawing.Release | src/exa/pixmap.c:104-118 | the assertions on releasing the data: destroyed, no lock, no reference, not in the batch |
| Drawing.Unref | src/exa/pixmap.c:489-507 | the last batch reference of a destroyed pixmap releases it, once |
| Drawing.RefPixmap | src/exa/optimizations_3d.c:458-489 | the reference counts in the table and in the pixmap move together, and the table never overflows |
| Drawing.UnrefAll | src/exa/optimizations_3d.c:331-366 | all counters return to their old values; destroyed pixmaps are released after being taken out of the table |
| Drawing.SubmitJobs | src/exa/optimizations_3d.c:386-420 | the batch is executed, the state reset, and nothing seen changes |
| Drawing.Flush3DState | src/exa/optimizations_3d.c:422-444 | the assertion that the 3D context is not entered holds |
| Drawing.InBatch | src/exa/optimizations_3d.c:640-655 | true exactly if a queued job touches the pixmap |
| Drawing.Flush3D | src/exa/optimizations_3d.c:657-691 | the batch is submitted exactly if a queued job reads or writes the pixmap in the way that is flushed; nothing seen changes |
| Drawing.CancelOrFlush3D | src/exa/optimizations_3d.c:720-760 | afterwards no job touches the pixmap, and only what is seen of this pixmap may have changed; a single job that writes it is dropped without being executed, if what went before is completed |
| Drawing.Cancel | src/exa/optimizations.c:145-160 | likewise, and nothing is recorded for the pixmap either |
| Drawing.Flush2D | src/exa/optimizations_2d.c:323-346 | the recorded fill is in memory, the batch untouched, the bracket in progress restored, and nothing seen changes |
| Drawing.Flush | src/exa/optimizations.c:130-143 | both flushes together |
| Drawing.FillFacts | src/exa/optimizations_3d.c:429-437 | a pixmap with a recorded fill is in no queued job and is not scanned out |
| Drawing.PrepareSolid | src/exa/solid_2d.c:24-122 | opens a fill bracket, in which fills may be recorded exactly if the pixmap is not scanned out and no flush is in progress; the CPU may be used only if the batch does not touch the pixmap |
| Drawing.SolidOp | src/exa/optimizations_2d.c:59-144 | whichever way is taken, the screen shows the colour inside the bounds of this rectangle and is as before elsewhere; a fill of the whole pixmap is recorded where fills may be |
| Drawing.DoneSolid | src/exa/solid_2d.c:147-186 | closing the bracket changes nothing that is seen and gives the lock back |
| Drawing.PrepareCopy | src/exa/optimizations_2d.c:196-242 | opens a copy bracket, or a fill bracket exactly if the source has a recorded fill and its stream can be begun |
| Drawing.CopyOp | src/exa/copy_2d.c:348-392 | the screen shows inside the bounds the pixels that the source had at the offset and is as before elsewhere, also when the copy became a fill; a copy over the whole pixmap cancels what was pending or recorded there, and one from a recorded fill is recorded |
| Drawing.DoneCopy | src/exa/copy_2d.c:394-436 | closing the bracket changes nothing that is seen and gives all locks back |
| Drawing.Finalize | src/exa/composite_3d_state_tracker.c:241-422 | no pixmap of the job has a recorded fill any more, although that of an unchanged target is not flushed |
| Drawing.OptimizeSubmission | src/exa/optimizations_3d.c:513-609 | inside exactly one 3D context the job is seen as drawn: it joins the queue exactly if the table has room and it may wait, and otherwise the whole batch is submitted; the table keeps to its size |
| Drawing.PushVertices | src/exa/composite_3d.c:743-910 | rectangle by rectangle, exactly those are dropped that find no room: what is written are 24 bytes for the destination and for each texture per rectangle, never more than 256 KiB, and one more would not fit |
| Drawing.Composite | src/exa/composite_3d.c:920-961 | what is seen are the job's rectangles that find room behind those of the queued jobs, and no others; it says exactly which jobs wait afterwards, and that the bytes in use are the sum of theirs; the nested flush assertion is never reached |
| Drawing.CpuRead | src/exa/cpu_access.c:25-131 | the CPU reads what is seen |
| Drawing.CpuWrite | src/exa/cpu_access.c:25-131 | what the CPU writes is what is seen |
| Drawing.FlushTimer | src/exa/optimizations_3d.c:446-456 | the timer empties the batch and changes nothing that is seen |
| Drawing.Destroy | src/exa/pixmap.c:440-475 | a pixmap that the batch needs lives on; any other is released now |
| DrawingSession.Start | src/exa/tegra_exa.c:243-253 | a new engine is idle and shows what is in memory: where every run starts |
| DrawingSession.DrawnIfRoom | src/exa/composite_3d.c:743-747 | an operation for which the buffer has room is drawn as on the eager machine, and a job whose rectangles all show only then |
| DrawingSession.StepStrokes | src/exa/exa.c:189-211 | the rectangles of an operation are drawn one after the other, each changing the pixels that its coordinates, or its function, say and no others |
| DrawingSession.Perform | src/exa/exa.c:189-211 | one operation on the lazy machine shows its rectangles one after the other, each in coordinates, but for those that find no room; it is the same operation on the eager machine; a job whose rectangles all show has the same effect if and only if it fits; which jobs wait afterwards and how many bytes they use; a fill of a whole pixmap that is not scanned out stays recorded |
| DrawingSession.Advance | src/exa/exa.c:189-211 | after each operation the pixmaps are those of the eager machine, and the buffer holds no more than the operation added |
| DrawingSession.ModestRoom | src/exa/composite_3d.c:379-388 | a run with never more vertices between two ticks than the buffer holds finds room for every job |
| DrawingSession.Run | src/exa/optimizations_2d.c:59-346 | every run of fills, copies, jobs, CPU accesses, ticks and destructions shows and reads what immediate drawing of all that found room gives; that is the run itself if each job finds room, and in particular if between two ticks there are never more vertices than the buffer holds |
| FullBuffer.LostDraw | src/exa/composite_3d.c:743-747 | a run of 5462 one-rectangle jobs after which the screen is not the one that immediate drawing shows: the last job is lost |
| FullBuffer.Lost | src/exa/composite_3d.c:743-747 | with less than 48 bytes left a textured rectangle changes nothing, although it would show |
| DriverSession.Begin | src/exa/mm.c:116-198 | a driver that has just started is idle, and no pixmap has a pool entry: where every run starts |
| DriverSession.OnePlace | src/exa/mm_pool.c:30-39 | the entry of a pixmap is in exactly one pool of the list |
| DriverSession.JobsKeepPlaces | src/exa/optimizations_3d.c:588-606 | over every run, from the moment when a job is queued to the moment when its batch is submitted, the entry of each pixmap that it refers to stays in the same pool at the same offset |
| DriverSession.GetEntry | src/exa/mm_pool.c:825-853 | memory for a pixmap is asked for with the engine's own block counter, so it moves no entry that a waiting job refers to; a pixmap that a small pool can serve gets an entry of its size whenever a buffer can be had |
| DriverSession.GiveBackEntry | src/exa/pixmap.c:180-183 | the entry of a pixmap goes back exactly if nothing holds the pixmap, so never one that a waiting job refers to |
| DriverSession.Perform | src/exa/optimizations_3d.c:513-609 | drawing moves no entry, and allocating or giving back submits no job and moves no entry in use; the pools hold exactly the entries of the pixmaps |
| DriverSession.Run | src/exa/optimizations_3d.c:368-609 | any run of drawing, allocating and giving back is a trace of such steps |
| OptContext.InitOptimizations | src/exa/optimizations.c:23-48 | every optimization context starts with poisoned fences and the driver's parameters, and nothing has been submitted |
| OptContext.DescribesItself | src/exa/optimizations.c:23-48 | outside all contexts the driver's fences and parameters describe its state, which is where a run starts |
| OptContext.Transfer | src/exa/optimizations.c:72-86 | the fences move, the old stream is poisoned, and the assertion holds |
| OptContext.Wrap | src/exa/optimizations.c:88-108 | the first entry switches stream and scratch, any other only counts |
| OptContext.Unwrap | src/exa/optimizations.c:110-128 | the last exit restores the stream and the scratch of the context outside |
| OptContext.OuterKept | src/exa/optimizations.c:88-128 | whatever a nested run does, the parameters of the contexts that wait outside stay as they are |
| OptContext.ExcursionRestores | src/exa/optimizations.c:88-128 | an excursion into another context gives the caller's parameters back unchanged |
| OptContext.Exec | src/exa/optimizations.c:88-128 | over every properly nested run, re-entrant ones included, exactly the current stream holds live fences, and stream, nesting and parameters come out as they should |
| OptContext.RunFromStart | src/exa/optimizations.c:23-128 | from the initialisation on, any properly nested run does what it means, and leaves the driver outside all contexts |
| Fences.GetExplicitFence | src/exa/helpers.c:256-316 | the fence with the greatest number, with one more reference, and no other count changes |
| Fences.SelectLatestFence | src/exa/helpers.c:318-345 | the later fence keeps its reference, the other is given back |
| Fences.AddJob | src/exa/optimizations_3d.c:547-562 | the batch waits for the greatest number among all its jobs need, with exactly one extra reference |
| Fences.EndBatch | src/exa/optimizations_3d.c:368-384 | that reference is given back |
| Fences.RunBatch | src/exa/optimizations_3d.c:513-609 | over a whole batch no reference is lost or leaked |
| BoCache.SizesFine | src/tegradrm/tegra_bo_cache.c:84-111 | the bucket sizes rise in steps of at most about a quarter |
| BoCache.SizesFacts | src/tegradrm/tegra_bo_cache.c:84-111 | fifty-five sizes, from one page to 112 MiB |
| BoCache.Waste | src/tegradrm/tegra_bo_cache.c:84-111 | rounding a page-aligned request wastes less than a quarter of it |
| BoCache.AddBucket | src/tegradrm/tegra_bo_cache.c:38-49 | the assertion on the size of the table holds |
| BoCache.CacheInit | src/tegradrm/tegra_bo_cache.c:84-111 | one initialisation adds exactly those sizes, empty and of one class |
| BoCache.OpenDrm | src/tegradrm/tegra.c:386-391 | both initialisations fit the 112 slots, and the device starts with no buffer |
| BoCache.GetBucket | src/tegradrm/tegra_bo_cache.c:166-207 | the smallest bucket of the right class that holds the size, or none exactly above 112 MiB |
| BoCache.Home | src/tegradrm/tegra_bo_cache.c:209-212 | it names the bucket that holds a parked buffer, whose size is the buffer's |
| BoCache.AlignCovers | src/tegradrm/private.h:50-51 | alignment covers a request exactly if it does not lie in the last page below 4 GiB |
| BoCache.WrapsAround | src/tegradrm/tegra_bo_cache.c:297-298 | a request of 0xFFFFF001 bytes is rounded to one page |
| BoCache.RoundedWell | src/tegradrm/tegra_bo_cache.c:290-324 | the rounded size covers the request exactly under that condition, and wastes less than a quarter of it |
| BoCache.CacheAlloc | src/tegradrm/tegra_bo_cache.c:290-324 | if the first buffer in the list of the rounded size and the right class is idle, it is recycled, with one reference and out of the list; otherwise nothing is; every other list and buffer stays as it is |
| BoCache.BoNew | src/tegradrm/tegra.c:444-548 | the first parked buffer of exactly the rounded size and class if it is idle, and otherwise a new one whenever the kernel grants it; it has one reference, and no other buffer or list changes |
| BoCache.CleanBucket | src/tegradrm/tegra_bo_cache.c:130-160 | the oldest buffers go one after the other, if the bucket holds more than 64 KiB or buffers above 16 KiB: those parked for more than ten seconds, and for a minute if less than five are left; it stops exactly at the first that is too recent |
| BoCache.CleanedOnce | src/tegradrm/tegra_bo_cache.c:130-160 | this rule determines what is left of a list |
| BoCache.Cleanup | src/tegradrm/tegra_bo_cache.c:113-164 | all buckets are cleaned so; what was parked is still parked or freed, and no other buffer is touched |
| BoCache.CacheFree | src/tegradrm/tegra_bo_cache.c:326-362 | exactly if a bucket can hold it, a buffer is parked with the time, at the end of what the cleanup has left of the list of its size and class; every other list is what the cleanup has left; of the others only parked ones can be freed |
| BoCache.AddRef | src/tegradrm/tegra.c:602-611 | a further reference on a buffer in use, which stays neither parked nor freed |
| BoCache.Unref | src/tegradrm/tegra.c:613-635 | with the last reference a buffer is parked at the end of its list, or freed, never both; no other buffer in use is parked or freed |
| BoCache.Lookup | src/tegradrm/tegra.c:41-69 | a parked buffer leaves the bucket whose counter is lowered, the others there keep their order, and it has two references; any other has one more; other buckets and buffers stay |
| BoSession.HeldIsSafe | src/tegradrm/tegra.c:613-635 | a buffer that somebody holds is neither parked nor freed |
| BoSession.UnheldIsGone | src/tegradrm/tegra.c:613-635 | a buffer that nobody holds is parked or freed, unless a lookup found it parked |
| BoSession.NeverShared | src/tegradrm/tegra.c:444-548 | as long as nobody looks up or shares a buffer, no two users ever have the same one |
| BoSession.Request | src/tegradrm/tegra.c:41-635 | each request changes the references as asked; a new buffer is one that nobody holds, and there is one whenever the kernel grants it |
| BoSession.Run | src/tegradrm/tegra.c:41-635 | from opening the device, over any sequence of requests, every reference is counted and what somebody holds is never parked, freed or handed out again |

## Left out

- Debug builds: canaries, statistics, valgrind hooks, the verbose checks (the asserted layout itself is `Pool.Valid`), and the placeholder check in setting a bit.
- Shrinking a bitmap: no caller asks for it; only growth by one word is modelled.
- The copy callbacks of a pool: fixed to the two that the driver passes, the threaded aligned memcpy and the aligned memmove.
- VfpCopy.CopyThreaded: threads interleave chunk by chunk, not byte by byte; since chunks are disjoint the result is the same.
- VfpCopy.VfpCpy: the assembly is specified as a forward copy of 64-byte units; the ARM block copy and the write-only prefetch wrappers differ in speed only.
- PoolPolicy.LightPools: does not say which pools follow the first one in a full list; the bound can pass over pools that are lighter than some of them, as in the code.
- PoolPolicy.Rank: the fixed arrays with NULL slots are sequences without them; a destroyed pool leaves the sequence instead of leaving a NULL.
- PoolPolicy.AllocSmall: the option that turns the pools off.
- PoolPolicy.CompactPoolsSlow: does not say that a pool made by shrinking takes nothing from the light pools, because the new pool gets a bitmap that can grow again.
- PoolPolicy.DrainAll: a heavy list that is full can leave out pools that would take more, as in the code.
- The large pool and its rate limit: the same allocator without the policy; only the bound on its entry ids is proved.
- Fence waits before a transfer, the freezer and its compression, and retries after failed allocations.
- Drawing: stream errors other than a bracket that does not begin, unaccelerated pixmaps, 1x1 pixmaps, raster operations other than copying, rotated copies and copies of a pixmap onto itself.
- Drawing.Composite: a rectangle is an opaque function of the pictures; rectangles that are empty or that blending makes void are not in the list, and shader selection, the texture cache flags and a vertex buffer that cannot be had are not modelled.
- Drawing.PrepareCopy: how the hint about transparent pixels is kept up to date; it is an argument, because it only chooses between ways that show the same.
- Drawing.OptimizeSubmission: whether the sparse buffers of the batch map too much memory, or the kernel cannot batch, is the argument `alone`.
- DriverSession.Run: the pictures that are drawn and the bytes of the entries are not tied together; which pixmaps are frozen is arbitrary, as long as nothing holds them.
- Drawing.Destroy: the optional erasure of destroyed pixmaps and the list of busy ones that wait to be freed.
- Drawing.SolidOp: contexts are swapped by saving and restoring the fields in use; the swap itself is the subject of `OptContext`.
- OptContext.InitOptimizations: the failure to create a stream.
- Fences.GetExplicitFence: kernels without explicit fencing, for which it returns nothing.
- The mapping cache of src/tegradrm/tegra_bo_cache.c, guards, flink names, and imported buffers, which are never parked.
- BoCache.Lookup: the exact reference count of a buffer that was parked.
- The X server, kernel interfaces, mode setting, video overlay and register packing.
