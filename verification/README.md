# AuroraOS in Dafny

A model of the parts of AuroraOS whose correctness rests on state that has to stay consistent over whole runs, with
proofs about that model. `dafny verify dfyconfig.toml` checks everything. Nothing here is executed.

* **Lua heap** (`runtime/lua_heap.hpp`). The pool is an array of bytes; headers and free-list links are little-endian
  words in it, the bitmaps and list heads are fields. `LuaHeap` runs the allocator on those bytes and is proved against
  an abstract heap: a map of blocks that tile the pool, and a list of free blocks for each bin. `HeapModel`, `HeapOps`
  and `HeapAccounting` prove what each operation does to the abstract heap, `FreeLists`, `HeapTags`, `HeapPayload` and
  `HeapEffects` what each write does to the bytes, `HeapTheorems` what holds over runs of operations,
  `HeapOverruns` when the copy of a reallocation does not fit its block, and `HeapReach` that runs come to this.
* **Photon cache** (`vfs/photon_cache.hpp` on `drivers/storage/flash_device.hpp`). `PhotonCache` is the write-back page
  cache over a flash whose writes AND bits and whose operations may fail; it refines a flat byte store and its
  replacement order refines a move-to-front list; `CacheFlushes` says which pages each operation writes back.
  `PhotonSteps` is the same cache as a state machine in which any number of threads interleave through the window in
  which a missing page is read with the lock released, `PhotonRuns` proves when its runs are coherent, and
  `PhotonStale` holds two concrete runs.
* **Bootloader** (`bootloader/boot_main.cpp`). `Bootloader` performs the B-to-A swap on a flash and keeps the history
  of every intermediate content. `FirmwareSwap` says what the flash holds after the first k operations, for any k;
  `BootRuns` reasons about boots that lose power or hit a flash fault anywhere, repeated any number of times. The
  signature check is an arbitrary predicate of signature and body.
* **SoftBus** (`net/distributed_bus.hpp`, `utils/json_parser.hpp`, `utils/hmac_sha256.hpp`). The replay table, the token
  buckets, SHA-256 and HMAC, the JSON field extractor, the beacon text, and the listener that combines them.
  `Sha256Spec` is FIPS 180-4 as a function and `Sha256Facts` says what its constants and functions are.
* **Lua collector, line information and jump threading** (`3rdparty/lua/lgc.c`, `lcode.c`, `ldebug.c`). The incremental
  tri-colour collector with its barriers, the delta-compressed line table, and the final pass over generated code.

Module by module the model has the form of its source: what mutates fields or buffers in loops is a class or a method
with loops, proved against specification functions; what only computes is a function.

## What the proofs turned up

* The allocator's two-level search is exact only for block sizes below 32 and from 64 to 2^18 - 2^13. For every other
  size a smaller block can be filed where the search looks, so `allocate` can hand out a block smaller than required
  (`HeapTheorems.TooSmallIff`), and six calls from reset come to it (`HeapReach.TooSmallReached`;
  `HeapTheorems.ShortBlockRun` is a concrete run). The heap is still well formed then. But when `reallocate` moves a
  block to such a size, its memcpy can leave the new block and write over the header behind it
  (`HeapOverruns.OverrunRun`). `HeapOverruns.OverrunIff` gives the exact sizes and pools, below 2^18 bytes only sizes
  of 32 to 56 (`HeapOverruns.OverrunsAreSmall`), and `HeapReach.OverrunReached` the runs. The theorems about runs are
  about runs without such a copy.
* The same row of the table makes the search pass over blocks that would do: a request for a block of 16 bytes does not
  find free blocks of 32 and 40 bytes, one for 24 none of 32 to 48 (`TlsfMapping.FindsIff`). `HeapTheorems.GrantedIff`
  says exactly when a request is granted.
* The in-place branch of `reallocate` does not lower `total_free_memory_`, so used plus free exceeds the pool by what
  was grown in place. The saturating subtractions never saturate.
* Flash programming only clears bits, so flushing a page over old content that is not erased can store something else
  than the page. A sync loses no page exactly when the flash can take every dirty one (`CacheFlushes.UntakeableIff`),
  and a write whose data only clears bits of the store keeps it so (`PhotonCache.PhotonCache.Write`). `PhotonCache`
  keeps the set of the pages lost, and the refinement holds for all others. Writing 0x00, syncing, writing 0xff and
  syncing again loses the 0xff (`PhotonStale.SpoiledPage`). A failed `erase` loses the unwritten data of the block, since the cached pages are dropped first.
* A page that another thread loads and writes inside the unlock window, and that is then evicted as the least recently
  used one, leaves the first thread with stale data in its slot (`PhotonStale.StaleRead`);
  `PhotonRuns.CoherentRunIff` gives the exact condition over whole runs.
* If an update is not pending, recovery after an interrupted swap can leave slot A with a half-written signature, and
  does so for good, exactly when such a signature verifies (`BootRuns.SignatureSureIff`). With the verifier
  that the repository ships none does (`BootRuns.DevSignatureSure`).
* A device whose last sequence number is within 32 of 2^32 is not accepted again until it has been inactive for 30000
  ticks, because the upper end of the window wraps (`ReplayTable.AcceptsIff`).
* A beacon of a device named `seq` (unless its number is 0) or `auth` does not read back, because the extractor finds
  the id before the key (`BeaconRoundTrip.BeaconRoundTrip`). Ids that devices give themselves are never of that form.

## Model

| member | source | states |
|---|---|---|
| `TlsfMapping.SearchIsExact` | runtime/lua_heap.hpp:97-119 | for sizes below 32 and 64..2^18-2^13 (or 32..63 when no block is below 32) every block filed at or above the search bin is large enough |
| `TlsfMapping.SearchIsNotExact` | runtime/lua_heap.hpp:97-119 | for every other size some smaller block size is filed at or above the search bin |
| `TlsfMapping.LeastIsFound` | runtime/lua_heap.hpp:97-119 | which size that is: a closed form for the least one, in every row of the table |
| `TlsfMapping.NoneLess` | runtime/lua_heap.hpp:97-119 | no smaller size that a block can have is filed there |
| `TlsfMapping.SearchIsLeast` | runtime/lua_heap.hpp:97-119 | from 33 to 2^18-2^13 bytes the search starts one bin above that of the largest smaller size: at the least bin that can be right |
| `TlsfMapping.FindsIff` | runtime/lua_heap.hpp:97-119 | below 2^18, for every block size asked for and every block size there is, whether the search finds it, by a condition on the two sizes alone |
| `TlsfMapping.FindsExact` | runtime/lua_heap.hpp:97-119 | from 64 bytes on the search finds exactly the blocks of the size rounded up to five significant bits |
| `TlsfMapping.RoundedBelow` | runtime/lua_heap.hpp:112-119 | which adds at most a sixteenth |
| `Bitmap.FindLowestBit` | kernel/core/arch_api.hpp:121-132 | the least set bit of a non-zero word |
| `Bitmap.SetBitBits` | runtime/lua_heap.hpp:161-162 | setting a bit changes that bit and no other |
| `Bitmap.ClearBitBits` | runtime/lua_heap.hpp:181-183 | clearing a bit changes that bit and no other |
| `Bitmap.FromBitBits` | runtime/lua_heap.hpp:125-132 | masking with ~0 << i keeps exactly the bits from i on |
| `FreeLists.SizeFlags` | runtime/lua_heap.hpp:57-71 | setting the size of a header word gives that size and keeps both flags |
| `FreeLists.FreeFlags` | runtime/lua_heap.hpp:61-79 | the free flag is set and cleared without touching the size or the other flag |
| `FreeLists.PrevFreeFlags` | runtime/lua_heap.hpp:65-87 | the same for the previous-free flag |
| `FreeLists.RemoveLinked` | runtime/lua_heap.hpp:165-189 | the link writes of a removal leave every list correctly doubly linked, without the block |
| `FreeLists.InsertLinked` | runtime/lua_heap.hpp:140-160 | the link writes of an insertion leave every list correctly doubly linked, with the block in front |
| `FreeLists.SetMapped` | runtime/lua_heap.hpp:161-162 | after an insertion a bitmap bit is set exactly when its list or row is non-empty |
| `FreeLists.ClearMapped` | runtime/lua_heap.hpp:180-185 | the same after a removal that empties a list |
| `HeapModel.TilesCover` | runtime/lua_heap.hpp:89-95 | blocks that tile the pool cover each of its bytes exactly once |
| `HeapModel.TakeKeeps` | runtime/lua_heap.hpp:165-189 | taking a free block out of its list keeps the heap well formed |
| `HeapModel.ReleaseKeeps` | runtime/lua_heap.hpp:140-163 | giving a block between live neighbours back keeps the heap well formed |
| `HeapModel.FuseKeeps` | runtime/lua_heap.hpp:294-306 | joining a block with its physical successor keeps the heap well formed |
| `HeapModel.SplitKeeps` | runtime/lua_heap.hpp:242-251 | cutting the tail off a block keeps the heap well formed |
| `HeapOps.CarveKeeps` | runtime/lua_heap.hpp:239-260 | an allocation keeps the heap well formed, makes exactly the chosen block live, and wastes less than a minimal block |
| `HeapOps.DeallocateKeeps` | runtime/lua_heap.hpp:277-309 | a deallocation keeps the heap well formed, with no two free neighbours, and removes exactly that block from the live ones |
| `HeapOps.GrowKeeps` | runtime/lua_heap.hpp:331-364 | growing in place keeps the heap well formed, changes only that live block and gives it the size asked for |
| `HeapAccounting.UsedBound` | runtime/lua_heap.hpp:262-268 | live payload never exceeds the pool less a header, so no subtraction saturates |
| `HeapAccounting.CarveUsed` | runtime/lua_heap.hpp:262-263 | an allocation adds the payload of its block to the live payload |
| `HeapAccounting.DeallocateUsed` | runtime/lua_heap.hpp:289-291 | a deallocation takes the payload of its block off it |
| `HeapAccounting.GrowUsed` | runtime/lua_heap.hpp:360 | growing in place adds the difference of the payloads |
| `HeapAccounting.AllFreed` | runtime/lua_heap.hpp:277-309 | a well-formed heap with nothing live is one free block of the pool's size |
| `HeapTags.FuseTags` | runtime/lua_heap.hpp:294-306 | writing the joint size leaves every other boundary tag right |
| `HeapTags.SplitTags` | runtime/lua_heap.hpp:244-250 | the header writes of a split leave the tags of both parts right |
| `HeapTags.InsertTags` | runtime/lua_heap.hpp:141-149 | insertion sets the block's flag and its successor's previous-size and previous-free fields |
| `HeapTags.NotifyTags` | runtime/lua_heap.hpp:255-260 | telling the successor of an allocated block makes its tags right |
| `HeapTheorems.ChosenFits` | runtime/lua_heap.hpp:225-242 | allocation chooses a large enough block whenever the search is exact for the size |
| `HeapTheorems.ChosenTooSmall` | runtime/lua_heap.hpp:225-242 | for every other size, in every pool with room for two blocks, there is a well-formed heap in which the chosen block is too small |
| `HeapTheorems.OneBlockFits` | runtime/lua_heap.hpp:219-242 | in a pool with no room for two blocks the chosen block always fits |
| `HeapTheorems.TooSmallIff` | runtime/lua_heap.hpp:219-242 | in some well-formed heap allocate chooses too small a block, exactly for these sizes and pools |
| `HeapTheorems.GrantedIff` | runtime/lua_heap.hpp:219-237 | in any well-formed heap of a pool below 2^18 bytes a request is granted exactly when some free block has a size that the search finds |
| `HeapTheorems.EnoughIsGranted` | runtime/lua_heap.hpp:219-237 | so from 64 bytes on it is granted whenever some free block has a sixteenth more than the request needs |
| `HeapTheorems.FreshGrants` | runtime/lua_heap.hpp:196-237 | and a fresh heap grants every such request from its one block |
| `HeapTheorems.ShortBlockRun` | runtime/lua_heap.hpp:219-309 | three calls on a fresh heap after which allocate(24) chooses a 24-byte block |
| `HeapTheorems.StepKeeps` | runtime/lua_heap.hpp:219-375 | every operation on live pointers keeps the heap well formed, unless it is a reallocation whose copy overruns |
| `HeapTheorems.ResizeKeeps` | runtime/lua_heap.hpp:311-375 | reallocate without an overrun replaces one live block by one, in place or elsewhere with room for what is copied, and keeps the others |
| `HeapTheorems.RunKeeps` | runtime/lua_heap.hpp:196-375 | the heap is well formed after any run of operations without an overrunning copy |
| `HeapTheorems.Drained` | runtime/lua_heap.hpp:196-309 | whenever nothing is live in such a run, the heap is as after reset |
| `HeapOverruns.OverrunNeeds` | runtime/lua_heap.hpp:366-373 | a copy overruns only for a size outside the exact ones and a pool with room for a free block that the search finds and a larger one to be moved; for one below 64 only beside a free block below 32 bytes, and never for 32 with 8-byte links |
| `HeapOverruns.OverrunExists` | runtime/lua_heap.hpp:366-373 | for every such size and pool some heap overruns |
| `HeapOverruns.OverrunIff` | runtime/lua_heap.hpp:366-373 | the exact sizes and pools, all of them, for which moving a block can overrun |
| `HeapOverruns.OverrunsAreSmall` | runtime/lua_heap.hpp:366-373 | in a pool of up to 2^18 bytes these are block sizes of 32 to 56 |
| `HeapOverruns.OverrunRun` | runtime/lua_heap.hpp:219-375 | four calls on a fresh heap after which a reallocation copies 40 bytes into a payload of 16 |
| `HeapReach.Reached` | runtime/lua_heap.hpp:196-375 | six calls from reset make any two neighbouring block sizes, the first one free |
| `HeapReach.TooSmallReached` | runtime/lua_heap.hpp:196-309 | in some run from reset allocate comes to choose too small a block, exactly for the sizes outside the exact ones |
| `HeapReach.OverrunReached` | runtime/lua_heap.hpp:196-375 | every size that may overrun does so in some run from reset |
| `LuaHeap.LuaHeap.RemoveFreeBlock` | runtime/lua_heap.hpp:165-189 | on the bytes: lists, heads and bitmaps without the block, all headers and live payloads unchanged |
| `LuaHeap.LuaHeap.InsertFreeBlock` | runtime/lua_heap.hpp:140-163 | on the bytes: lists, heads, bitmaps and boundary tags with the block free, all live payloads unchanged |
| `LuaHeap.LuaHeap.SplitBlock` | runtime/lua_heap.hpp:244-250 | on the bytes: the block is cut in two and its tail is listed |
| `LuaHeap.LuaHeap.constructor` | runtime/lua_heap.hpp:192-194 | a new heap is a reset one |
| `LuaHeap.LuaHeap.Reset` | runtime/lua_heap.hpp:196-217 | one free block of the whole pool, counters at their start values |
| `LuaHeap.LuaHeap.SearchSuitableBlock` | runtime/lua_heap.hpp:121-138 | the first non-empty bin at or after the given one, or none exactly when there is none |
| `LuaHeap.LuaHeap.CarveBlock` | runtime/lua_heap.hpp:239-260 | the bytes follow the abstract allocation, live payloads unchanged |
| `LuaHeap.LuaHeap.GrantBlock` | runtime/lua_heap.hpp:239-275 | the same with the counters: used, free, peak and the number of allocations |
| `LuaHeap.LuaHeap.Allocate` | runtime/lua_heap.hpp:219-275 | null exactly when nothing suitable is found (`HeapTheorems.GrantedIff` says when that is) and then nothing changes; else the abstract allocation, every counter, every live payload unchanged |
| `LuaHeap.LuaHeap.FuseBlocks` | runtime/lua_heap.hpp:297-304 | adding a neighbour's size joins the two blocks |
| `LuaHeap.LuaHeap.AbsorbNext` | runtime/lua_heap.hpp:294-298 | the free successor is taken from its list and joined |
| `LuaHeap.LuaHeap.AbsorbIntoPrev` | runtime/lua_heap.hpp:301-306 | the free predecessor is taken from its list and the block joined to it |
| `LuaHeap.LuaHeap.ReleaseBlock` | runtime/lua_heap.hpp:293-308 | the bytes follow the abstract deallocation, other live payloads unchanged |
| `LuaHeap.LuaHeap.Deallocate` | runtime/lua_heap.hpp:277-309 | a live pointer is given back as the abstract operation says, with every counter; null, foreign and already free pointers, and any in front of which a free header is read, change nothing |
| `LuaHeap.LuaHeap.GrowBlock` | runtime/lua_heap.hpp:337-358 | the bytes follow growing in place, every live payload unchanged |
| `LuaHeap.LuaHeap.GrowInPlace` | runtime/lua_heap.hpp:334-363 | the same with the counters: used and peak grow, free does not, so that the excess is what was grown |
| `LuaHeap.LuaHeap.CopyPayload` | runtime/lua_heap.hpp:369-371 | memcpy between two live blocks that hold it, touching nothing else |
| `LuaHeap.LuaHeap.CopyAndFree` | runtime/lua_heap.hpp:368-373 | the bytes are in the new block, the old one is free, other live payloads unchanged |
| `LuaHeap.LuaHeap.Move` | runtime/lua_heap.hpp:366-374 | the move path: null; stopped before the copy, with the new block allocated, exactly when the copy would overrun it; or a moved block with its bytes kept; the counters in each case |
| `LuaHeap.LuaHeap.Resize` | runtime/lua_heap.hpp:323-374 | reallocation of a live pointer, over its four paths, with the counters, up to an overrunning copy |
| `LuaHeap.LuaHeap.Reallocate` | runtime/lua_heap.hpp:311-375 | reallocation of a null or live pointer to any size, and of any freeable one to none: which path is taken, the heap and the counters after it, and the first min(osize, nsize, payload) bytes kept; an overrunning copy is reported with the heap as it is before it |
| `FlashDevice.ProgramExact` | drivers/storage/flash_device.hpp:79-94 | programming stores the data given exactly when it sets no bit that was cleared |
| `FlashDevice.ProgramGreatest` | drivers/storage/flash_device.hpp:79-94 | otherwise it stores the greatest value that sets no bit lacking in the old content or in the data |
| `FlashDevice.ErasedIsProgrammable` | drivers/storage/flash_device.hpp:72-98 | erased cells take any data |
| `FlashDevice.FlashDevice.ReadPage` | drivers/storage/flash_device.hpp:59-67 | the page asked for, or an error and the buffer as it was when there is no such page |
| `FlashDevice.FlashDevice.WritePage` | drivers/storage/flash_device.hpp:72-98 | the page is ANDed with the data and the write logged, or it has failed and nothing changes |
| `FlashDevice.FlashDevice.EraseBlock` | drivers/storage/flash_device.hpp:103-112 | the block is erased, or nothing changes |
| `CacheModel.VictimIs` | vfs/photon_cache.hpp:56-69 | a miss takes the last slot that is neither valid nor reserved, else the first of the oldest ones that are not reserved |
| `CacheModel.VictimNone` | vfs/photon_cache.hpp:56-75 | it takes none exactly when every slot is reserved or at the end of the tick range |
| `CacheModel.FlushKeeps` | vfs/photon_cache.hpp:30-48 | flushing a slot leaves what readers see as it was, except where the flash could not store it |
| `CacheModel.GivenUpIff` | drivers/storage/flash_device.hpp:72-98 | no further page is given up exactly when every write stored its data or was to a page given up before; writes onto erased pages store theirs |
| `CacheModel.LoadKeeps` | vfs/photon_cache.hpp:122-129 | filling a clean slot from flash leaves what readers see as it was |
| `CacheModel.WriteKeeps` | vfs/photon_cache.hpp:202-205 | writing into a slot overlays exactly those bytes on what readers see |
| `CacheModel.EraseKeeps` | vfs/photon_cache.hpp:211-223 | dropping the slots of a block and erasing it makes the block erased and nothing else |
| `CacheModel.OverlayJoin` | vfs/photon_cache.hpp:189-207 | writes in page chunks add up to one write |
| `CacheFlushes.AccessKeepsDirty` | vfs/photon_cache.hpp:77-91 | along any sequence of accesses, a page dirty since the start keeps its data and the flash under it, and every write back is of a page dirty at the start onto the flash as it was then |
| `CacheFlushes.DirtyAllTaken` | vfs/photon_cache.hpp:30-48 | if the flash can take every dirty page, writing any of them back gives none up |
| `CacheFlushes.AccessTaken` | vfs/photon_cache.hpp:77-91 | while the flash can take every dirty page, an access writes back exactly and this stays so |
| `CacheFlushes.PatchProgrammable` | vfs/photon_cache.hpp:202-206 | a page of flash that can take some data can take it with bits cleared |
| `CacheFlushes.StillClears` | vfs/photon_cache.hpp:202-206 | writing a chunk leaves what the rest of the data asks of the store as it was |
| `CacheFlushes.SyncedOne` | vfs/photon_cache.hpp:228-240 | writing one more dirty slot back keeps the exact account of a sync: the slots, the flash page by page and the pages given up |
| `CacheFlushes.SyncedAll` | vfs/photon_cache.hpp:228-240 | a sync that leaves nothing dirty gives up exactly the dirty pages that the flash could not take |
| `CacheFlushes.UntakeableIff` | vfs/photon_cache.hpp:228-240 | there are none of those exactly when the flash can take every dirty page, as it can where it is erased |
| `Recency.OldestIsLast` | vfs/photon_cache.hpp:62-68 | with every slot in use, the slot with the oldest tick holds the last page of the list |
| `Recency.SlotToTake` | vfs/photon_cache.hpp:62-75 | as long as the ticks order the pages, the scan of a miss finds a slot |
| `Recency.VictimTakes` | vfs/photon_cache.hpp:56-75 | without reserved slots the scan takes an empty one or the oldest, or every tick is at the end of its range |
| `Recency.TouchOrdered` | vfs/photon_cache.hpp:57-61 | a hit acts on the list as move-to-front |
| `Recency.LoadOrdered` | vfs/photon_cache.hpp:62-69 | a miss acts on the list as insert-in-front, the least recently used page leaving |
| `Recency.EraseOrdered` | vfs/photon_cache.hpp:214-220 | an erase filters the list |
| `Recency.NextPage` | vfs/photon_cache.hpp:158-172 | the chunks of a range are its pages, each accessed once and in order |
| `PhotonCache.PhotonCache.constructor` | vfs/photon_cache.hpp:135-142 | an empty cache shows the flash |
| `PhotonCache.PhotonCache.FlushPage` | vfs/photon_cache.hpp:30-48 | after up to three tries the page is on flash and clean, given up exactly if the flash could not take it, or three writes have failed and nothing has changed |
| `PhotonCache.PhotonCache.Scan` | vfs/photon_cache.hpp:56-69 | the slot that holds the page, or the slot a miss takes |
| `PhotonCache.PhotonCache.GetOrAllocPage` | vfs/photon_cache.hpp:51-132 | the page is in the slot returned, which is the one the scan takes on a miss, and in front of the list; exactly the page replaced is written back, if dirty; or a flash write has failed (or no slot can be taken) and nothing has changed |
| `PhotonCache.PhotonCache.Replace` | vfs/photon_cache.hpp:77-131 | a victim is written back before its slot is filled, and given up exactly if the flash could not take it; a failed write back loses nothing |
| `PhotonCache.PhotonCache.Read` | vfs/photon_cache.hpp:151-177 | the bytes last written, across page boundaries; on an error, which needs a failed flash write or a wrapped tick counter, a proper prefix of them. The list after accessing each page of the range once. Each page written back was dirty before and goes onto the flash as it was; exactly the inexact ones are given up |
| `PhotonCache.PhotonCache.Write` | vfs/photon_cache.hpp:182-209 | the data overlaid on the store; on an error exactly a proper prefix of it, with errors and the list as for reading. Each page written back was dirty before or is written by the call; exactly the inexact ones are given up, and none if the flash can take every dirty page and the data clears bits of the store only: then the flash can take every dirty page afterwards |
| `PhotonCache.PhotonCache.Erase` | vfs/photon_cache.hpp:211-223 | the block erased; on an error, which needs a failed flash erase, the block back to what was on flash |
| `PhotonCache.PhotonCache.Sync` | vfs/photon_cache.hpp:228-240 | 0 exactly when no dirty page is left, and then flash equals the store on every page not given up; anything else needs a failed flash write. The flash, the slots and the pages given up are exact: after 0, those of the dirty pages that the flash could not take |
| `PhotonSteps.StepSafe` | vfs/photon_cache.hpp:51-132 | every step of every thread keeps: a page is valid in at most one slot, no slot is valid and reserved, dirty implies valid |
| `PhotonSteps.RunSafe` | vfs/photon_cache.hpp:51-240 | the same in every state of every interleaving |
| `PhotonSteps.DirtyAccounted` | vfs/photon_cache.hpp:77-91 | a step that ends a dirty page is a flush of its bytes or an erase of its block |
| `PhotonSteps.DirtyUntil` | vfs/photon_cache.hpp:77-240 | over whole runs a dirty page stays until such a step |
| `PhotonSteps.CoherentStep` | vfs/photon_cache.hpp:51-132 | a step keeps every page a reader sees equal to the flat store exactly when it is undisturbed: a fill is current but for the bytes it writes, a flush can be taken by the flash, nothing of an erased block is cached |
| `PhotonSteps.WindowCurrent` | vfs/photon_cache.hpp:95-103 | what a thread has read stays current while nobody writes back or erases the page |
| `PhotonRuns.CoherentRunIff` | vfs/photon_cache.hpp:51-240 | from a coherent start every state of an interleaving stands for the store if and only if every step is undisturbed |
| `PhotonRuns.FillUndisturbed` | vfs/photon_cache.hpp:93-131 | if nobody writes the page of a window back or erases its block between its read and its fill, every fill is undisturbed |
| `PhotonRuns.ErasingAt` | vfs/photon_cache.hpp:211-223 | nothing of a block is cached between its drop and its erase, if nothing of it is filled then |
| `PhotonRuns.CoherentRun` | vfs/photon_cache.hpp:51-240 | from a coherent start without open windows, every state of every interleaving stands for the store, if no window is disturbed, the flash takes what is flushed and no page is filled while its block is being erased |
| `PhotonStale.StaleRead` | vfs/photon_cache.hpp:51-132 | a run of 26 steps of the code after which the store and the flash hold a byte that the next reader does not see |
| `PhotonStale.SpoiledPage` | vfs/photon_cache.hpp:182-240 | one thread writes 0x00, flushes, writes 0xff and flushes: nothing is dirty, the store holds 0xff and the flash 0x00 |
| `FirmwareSwap.DefaultSlotsValid` | config/partition_table.hpp:25-29 | the default partitions are slots as the model wants them |
| `FirmwareSwap.MessageWord` | bootloader/boot_main.cpp:60-73 | every four bytes handed to the signature check, read little-endian, are the flash word at that place behind the header; of the last word the bytes that the size covers |
| `FirmwareSwap.MessageIff` | bootloader/boot_main.cpp:60-73 | two messages of one size are equal exactly when all their flash words are, the last one in the bytes covered |
| `FirmwareSwap.EraseStep` | bootloader/boot_main.cpp:102-110 | erasing the next page takes the flash one step on |
| `FirmwareSwap.BodyStep` | bootloader/boot_main.cpp:112-126 | each body word is written onto an erased word and takes the flash one step on |
| `FirmwareSwap.HeaderStep` | bootloader/boot_main.cpp:128-143 | the same for each header word, with the status made valid |
| `FirmwareSwap.BIntact` | bootloader/boot_main.cpp:102-143 | slot B is as it was throughout the copying |
| `FirmwareSwap.MidwayInvalid` | bootloader/boot_main.cpp:102-135 | from the first erase until its size field is written slot A does not verify |
| `FirmwareSwap.BodyBeforeHeader` | bootloader/boot_main.cpp:112-143 | once the size field is written slot A holds the whole body |
| `FirmwareSwap.NeverAMix` | bootloader/boot_main.cpp:60-143 | after any number of operations slot A verifies only if it is as before or holds B's size and whole body, word for word and as the bytes checked, for any signature predicate |
| `FirmwareSwap.SwapCompletes` | bootloader/boot_main.cpp:102-146 | after the last operation slot A is B's image, marked valid, and verifies because B did |
| `BootRuns.CrashSafe` | bootloader/boot_main.cpp:89-152 | wherever a boot stops, by power loss or fault, a slot verifies if one did before |
| `BootRuns.RunSafe` | bootloader/boot_main.cpp:89-152 | the same over any run of boots, and slot A never verifies with anything but one of the two images, in size, words and bytes, that there were at first |
| `BootRuns.UpdateArrives` | bootloader/boot_main.cpp:89-152 | after any number of interrupted boots of a pending update, an uninterrupted one ends with slot A holding it whole, every body word and the header included |
| `BootRuns.RecoveryArrives` | bootloader/boot_main.cpp:92-152 | the same when slot A does not verify at first: size and every body word always, the signature if no half-written one verifies |
| `BootRuns.SignatureLost` | bootloader/boot_main.cpp:92-152 | otherwise one interruption leaves slot A with a half-written signature for good |
| `BootRuns.SignatureSureIff` | bootloader/boot_main.cpp:92-152 | B's signature is sure to arrive exactly when an update is pending or no half-written signature verifies |
| `BootRuns.DevSignatureSure` | 3rdparty/ed25519/ed25519.c:36-44 | with the verifier as shipped, which accepts signatures of bytes 0xED, the signature always arrives |
| `Bootloader.Bootloader.ErasePage` | bootloader/boot_main.cpp:22-28 | the page is erased; on a timeout it may not be |
| `Bootloader.Bootloader.WriteWord` | bootloader/boot_main.cpp:30-37 | an erased word takes the value; on a timeout it may not have |
| `Bootloader.Bootloader.EraseA` | bootloader/boot_main.cpp:102-110 | slot A erased, header first, through crash points only |
| `Bootloader.Bootloader.CopyBody` | bootloader/boot_main.cpp:112-126 | the body copied, through crash points only |
| `Bootloader.Bootloader.CopyHeader` | bootloader/boot_main.cpp:128-143 | the header copied last, through crash points only |
| `Bootloader.Bootloader.Boot` | bootloader/boot_main.cpp:77-154 | slot A is booted exactly when the bytes of its body (`FirmwareSwap.MessageWord`) verify; every intermediate content is a crash point; without faults the boot ends as specified |
| `KeyedTable.Find` | net/distributed_bus.hpp:61-62 | the valid entry with the key, or that there is none |
| `KeyedTable.FindEmpty` | net/distributed_bus.hpp:79-80 | the first entry not in use, or that there is none |
| `KeyedTable.Inserted` | net/distributed_bus.hpp:78-88 | filling the first free entry adds a key to the table, which holds each key once |
| `ReplayTable.ReplayTable.constructor` | net/distributed_bus.hpp:58 | an empty table of 16 entries |
| `ReplayTable.ReplayTable.CheckAndUpdate` | net/distributed_bus.hpp:60-90 | the beacon is accepted and remembered exactly as the abstract map of devices says; each device has one entry |
| `ReplayTable.AcceptsIff` | net/distributed_bus.hpp:63-75 | a known device is accepted exactly after an inactivity gap or with a number 1 to 32 above, short of the 32-bit range's end |
| `ReplayTable.Remembers` | net/distributed_bus.hpp:60-90 | in any run the table holds the last accepted number and tick of a device |
| `ReplayTable.Spaced` | net/distributed_bus.hpp:60-90 | in any run consecutive accepted beacons of a device are over 30000 ticks apart or rise by 1 to 32 |
| `ReplayTable.RepeatNeedsGap` | net/distributed_bus.hpp:60-90 | a number that does not rise implies an inactivity gap between accepted beacons in between |
| `ReplayTable.Bounded` | net/distributed_bus.hpp:78-89 | the table holds at most 16 devices and forgets none |
| `ReplayTable.FirstSixteen` | net/distributed_bus.hpp:78-89 | in any run the table holds all devices heard of, until there are 16, and then is full |
| `ReplayTable.FirstAcceptedIff` | net/distributed_bus.hpp:78-89 | in any run the first beacon of a device is accepted exactly when fewer than 16 devices were heard of before |
| `RateLimiter.RateLimiter.constructor` | net/distributed_bus.hpp:104 | an empty table of 8 buckets |
| `RateLimiter.RateLimiter.Pass` | net/distributed_bus.hpp:106-134 | a packet passes and spends a token exactly as the abstract map of buckets says; no bucket overflows; what passes in a run is bounded from above by `WindowBound` and from below by the five rows after it |
| `RateLimiter.NeverOverfull` | net/distributed_bus.hpp:112-115 | in any run, ticks wrapping or not, a bucket holds at most 10 tokens |
| `RateLimiter.WindowBound` | net/distributed_bus.hpp:106-134 | for monotone ticks at most 10 + ceil((t-s)/1000) packets of an IP pass in any window [s,t] |
| `RateLimiter.RefusedAfterPass` | net/distributed_bus.hpp:106-134 | in any run a packet of an IP with a bucket is refused only if another one of that IP has passed less than 1000 ticks before |
| `RateLimiter.FirstTenPass` | net/distributed_bus.hpp:106-134 | in any run the first ten packets of an IP with a bucket pass |
| `RateLimiter.SilenceIsPaid` | net/distributed_bus.hpp:110-119 | an IP silent for k seconds, k up to ten, has its next k packets let through, whenever they come |
| `RateLimiter.FirstEight` | net/distributed_bus.hpp:124-133 | in any run the table holds all IPs heard of, until there are 8, and then is full |
| `RateLimiter.FirstPassIff` | net/distributed_bus.hpp:124-133 | in any run the first packet of an IP passes exactly when fewer than 8 IPs were heard of before |
| `Sha256Spec.ZeroBitsLeast` | utils/hmac_sha256.hpp:63-71 | the padding is that of section 5.1.1 of FIPS 180-4: the least number of zero bits to 448 modulo 512 |
| `Sha256Spec.LengthFieldValue` | utils/hmac_sha256.hpp:73-75 | the eight length bytes, most significant first, are the number of bits modulo 2^64 |
| `Sha256Facts.SomeBit` | utils/hmac_sha256.hpp:108-134 | words that differ do so in some bit, so that the next six rows say all about their functions |
| `Sha256Facts.ChBit` | utils/hmac_sha256.hpp:112-114 | each bit is that of y where x has one, of z elsewhere |
| `Sha256Facts.MajBit` | utils/hmac_sha256.hpp:116-118 | each bit is that of the majority |
| `Sha256Facts.BigSigma0Bit` | utils/hmac_sha256.hpp:120-122 | each bit is the parity of those 2, 13 and 22 places above, counted around the word |
| `Sha256Facts.BigSigma1Bit` | utils/hmac_sha256.hpp:124-126 | the same for 6, 11 and 25 |
| `Sha256Facts.SmallSigma0Bit` | utils/hmac_sha256.hpp:128-130 | the same for 7 and 18 and, while there is one, the bit 3 places above |
| `Sha256Facts.SmallSigma1Bit` | utils/hmac_sha256.hpp:132-134 | the same for 17 and 19, and 10 |
| `Sha256Facts.InitialRoots` | utils/hmac_sha256.hpp:34-41 | the initial words are the first 32 bits of the fractions of the square roots of the first 8 primes |
| `Sha256Facts.CubeRoots` | utils/hmac_sha256.hpp:98-106 | the constants are the first 32 bits of the fractions of the cube roots of the first 64 primes |
| `Sha256Facts.WordBytesBit` | utils/hmac_sha256.hpp:79-84 | a word is put out with its highest eight bits first |
| `Sha256Facts.WordReadBack` | utils/hmac_sha256.hpp:79-84 | and is read from a block the way it is put out |
| `Sha256.Sha256.Init` | utils/hmac_sha256.hpp:33-44 | nothing hashed yet |
| `Sha256.Sha256.Update` | utils/hmac_sha256.hpp:46-60 | the message hashed so far is extended by the data, whatever its length and the fill of the buffer |
| `Sha256.Sha256.ProcessBlock` | utils/hmac_sha256.hpp:136-172 | the compression of section 6.2.2 of FIPS 180-4 |
| `Sha256.Sha256.Expand` | utils/hmac_sha256.hpp:137-145 | the message schedule of section 6.2.2 |
| `Sha256.RoundStep` | utils/hmac_sha256.hpp:149-160 | the eight assignments of a round are the round of section 6.2.2 |
| `Sha256.AddStep` | utils/hmac_sha256.hpp:161-168 | the working variables are added word by word |
| `Sha256.NextWord` | utils/hmac_sha256.hpp:143-145 | the schedule word of section 6.2.2 |
| `Sha256.LoadWord` | utils/hmac_sha256.hpp:139-142 | four bytes are a big-endian word |
| `Sha256.Sha256.Pad` | utils/hmac_sha256.hpp:63-76 | the state after the padded message, in one or two blocks |
| `Sha256.Sha256.Finish` | utils/hmac_sha256.hpp:62-90 | the one-shot SHA-256 of everything since Init, however split; the context wiped |
| `Sha256.PadOne` | utils/hmac_sha256.hpp:71-76 | a tail below 56 bytes is padded within its block |
| `Sha256.PadTwo` | utils/hmac_sha256.hpp:65-76 | a longer tail takes a second block |
| `Hmac.HmacSha256.constructor` | utils/hmac_sha256.hpp:184-214 | a context for a key of any length |
| `Hmac.HmacSha256.Update` | utils/hmac_sha256.hpp:216-218 | the text extended by the data |
| `Hmac.HmacSha256.Finish` | utils/hmac_sha256.hpp:220-235 | the value of section 2 of RFC 2104 |
| `Hmac.Compute` | utils/hmac_sha256.hpp:238-244 | the same in one call |
| `Hmac.ConstantTimeEq` | utils/hmac_sha256.hpp:247-252 | equality, without an early exit |
| `JsonParser.JsonParser.FindCharAt` | utils/json_parser.hpp:11-22 | the first occurrence outside escape sequences, or that there is none |
| `JsonParser.JsonParser.FindSubAt` | utils/json_parser.hpp:25-40 | the first occurrence of a string, or that there is none |
| `JsonParser.JsonParser.GetStringValue` | utils/json_parser.hpp:48-99 | the string field as specified, unescaped and cut to the buffer |
| `JsonParser.JsonParser.CopyUnescaped` | utils/json_parser.hpp:87-97 | the copy loop unescapes and never overruns the buffer |
| `JsonParser.JsonParser.GetRaw` | utils/json_parser.hpp:104-149 | the raw text of a value as specified, cut to the buffer |
| `JsonPlain.SplitJoin` | utils/json_parser.hpp:48-99 | every text without a backslash is its chunks joined by quotes |
| `JsonPlain.FindKey` | utils/json_parser.hpp:52-64 | the quoted key is found at the first whole chunk equal to it |
| `JsonPlain.GetStringPlain` | utils/json_parser.hpp:48-99 | on every text without a backslash a string field is the chunk after the first colon after the key, or missing |
| `JsonPlain.FindCharPlain` | utils/json_parser.hpp:11-22 | without a backslash a character is found at its first place |
| `JsonPlain.GetRawPlain` | utils/json_parser.hpp:104-149 | on every text without a backslash a raw field is what follows the first colon after the key, up to the first place of its end and cut to the buffer, or missing |
| `JsonEscapes.EscapeRoundTrip` | utils/json_parser.hpp:87-97 | unescaping an escaped string gives the string back, whatever it is |
| `JsonEscapes.EndOfString` | utils/json_parser.hpp:11-22 | the quote that ends an escaped string is the first one found |
| `JsonEscapes.FieldRoundTrip` | utils/json_parser.hpp:48-99 | a string field reads back as it was before it was escaped, if it fits the buffer |
| `BeaconText.HexRoundTrip` | net/distributed_bus.hpp:162-179 | hexadecimal digits decode to the bytes they were printed from |
| `BeaconText.HexValue` | net/distributed_bus.hpp:162-179 | the digits, read in base 16, are the number that the bytes are |
| `BeaconText.DecimalRoundTrip` | net/distributed_bus.hpp:366-368 | a printed 32-bit number is read back by the wrapping digit loop |
| `BeaconText.DecimalIs` | net/distributed_bus.hpp:313-317 | what is printed for a number, read in base 10, is the number |
| `BeaconText.DigitsNumber` | net/distributed_bus.hpp:366-368 | the digit loop computes the number read in base 10, modulo 2^32 |
| `BeaconText.DeviceIdValid` | net/distributed_bus.hpp:198-209 | every id a device gives itself passes validation |
| `BeaconText.DeviceIdReads` | net/distributed_bus.hpp:240 | the id tells the 32-bit number it was made from, so different numbers give different ids |
| `BeaconText.TextJoin` | net/distributed_bus.hpp:313-317 | the printed text as chunks |
| `BeaconRoundTrip.CapValue` | net/distributed_bus.hpp:363 | the capability array is read back whole and passes validation |
| `BeaconRoundTrip.ParsedText` | net/distributed_bus.hpp:354-368 | what a receiver reads out of the beacon of any valid id |
| `BeaconRoundTrip.BeaconRoundTrip` | net/distributed_bus.hpp:313-368 | a beacon reads back as sent exactly when the id is not one of the keys behind it |
| `BeaconRoundTrip.PayloadFits` | net/distributed_bus.hpp:313-317 | no beacon is cut by the payload buffer |
| `SoftBus.BeaconAuthentic` | net/distributed_bus.hpp:143-183 | a beacon passes the HMAC check of a receiver with the same key |
| `SoftBus.DeviceBeacon` | net/distributed_bus.hpp:239-371 | the same for every device's own id, any number and any key |
| `SoftBus.ChallengeReads` | net/distributed_bus.hpp:143-158 | the bytes hashed are those of the id and then the number in four bytes, most significant first |
| `SoftBus.ChallengeInjective` | net/distributed_bus.hpp:143-158 | so different ids or numbers are hashed as different bytes |
| `SoftBus.AuthenticOnce` | net/distributed_bus.hpp:143-183 | digits that pass for two different ids or numbers are an HMAC collision |
| `SoftBus.SoftBus.SetKey` | net/distributed_bus.hpp:38-44 | the new key is active, the old one stays in the other slot |
| `SoftBus.SoftBus.VerifyHmac` | net/distributed_bus.hpp:143-183 | true exactly when there is a key and the digits are the HMAC under it of the bytes that `ChallengeReads` describes |
| `SoftBus.SoftBus.Broadcast` | net/distributed_bus.hpp:275-321 | the beacon of the next number, or none without a key |
| `SoftBus.SoftBus.Receive` | net/distributed_bus.hpp:335-377 | accepted exactly when the packet passes the rate limit, parses, is authentic and is no replay; the tables follow |
| `SoftBus.ParseDigits` | net/distributed_bus.hpp:366-368 | the number at the front of the field, in 32-bit arithmetic |
| `TriColor.AllReachableBlack` | 3rdparty/lua/lgc.c:1523-1563 | with nothing gray and the roots marked, all that is reachable is black |
| `TriColor.Flip` | 3rdparty/lua/lgc.c:1560 | flipping the white makes dead exactly what was left white |
| `TriColor.ReachableNotDead` | 3rdparty/lua/lgc.c:822-843 | while sweeping nothing reachable is dead |
| `TriColor.SweepDead` | 3rdparty/lua/lgc.c:831-834 | freeing a dead object keeps the sweeping invariant |
| `TriColor.SweepLive` | 3rdparty/lua/lgc.c:835-838 | whitening a live object keeps the sweeping invariant |
| `TriColor.StoreMarking` | 3rdparty/lua/lgc.c:208-225 | a store of a marked value keeps the marking invariant |
| `TriColor.BackMarking` | 3rdparty/lua/lgc.c:232-240 | turning a black object gray again keeps the marking invariant |
| `Collector.Collector.NoBlackToWhite` | 3rdparty/lua/lgc.h:54 | while the invariant is to be kept no black object refers to a white one |
| `Collector.Collector.AliveIsAllocated` | 3rdparty/lua/lgc.c:822-843 | whatever the roots reach is allocated and not dead |
| `Collector.Collector.ReallyMarkObject` | 3rdparty/lua/lgc.c:297-329 | the object is no longer white and the invariant holds, for leaves, objects marked on the spot and traversed ones |
| `Collector.Collector.PropagateMark` | 3rdparty/lua/lgc.c:658-679 | the object traversed is black, or gray again if it is a thread before the atomic phase, and progress is made |
| `Collector.Collector.MarkRoots` | 3rdparty/lua/lgc.c:403-409 | every root is marked |
| `Collector.Collector.Atomic` | 3rdparty/lua/lgc.c:1523-1563 | everything reachable is black, the rest dead, and nothing is gray |
| `Collector.Collector.SweepOne` | 3rdparty/lua/lgc.c:828-839 | a dead object is freed and was not reachable; any other becomes white |
| `Collector.Collector.SweepList` | 3rdparty/lua/lgc.c:822-843 | exactly the given number is swept, if there are that many, and everything reachable survives with its references |
| `Collector.Collector.EnterSweep` | 3rdparty/lua/lgc.c:1484-1489 | sweeping starts at the head of the list, passes the dead objects there and stops after the first other one |
| `Collector.Collector.SingleStep` | 3rdparty/lua/lgc.c:1583-1643 | every step in every state keeps the invariants, frees nothing reachable and brings the cycle nearer to its end |
| `Collector.Collector.RunUntilPause` | 3rdparty/lua/lgc.c:1650-1654 | the cycle ends, and everything reachable survives |
| `Collector.Collector.FullGc` | 3rdparty/lua/lgc.c:1708-1720 | a full collection keeps exactly the reachable objects, with their references |
| `Collector.Collector.BarrierForward` | 3rdparty/lua/lgc.c:208-225 | the pending store is made safe by marking the value, or while sweeping by whitening the owner |
| `Collector.Collector.BarrierBack` | 3rdparty/lua/lgc.c:232-240 | the pending store is made safe by making the owner gray again |
| `Collector.Collector.StoreRef` | 3rdparty/lua/lgc.c:208-240 | a store through either barrier keeps the invariants in every state |
| `Collector.Collector.DropRefs` | 3rdparty/lua/lgc.h:179-186 | overwriting references with values that are no objects needs no barrier |
| `Collector.Collector.StoreStack` | 3rdparty/lua/lgc.c:627-655 | a store into a thread needs no barrier |
| `Collector.Collector.NewObject` | 3rdparty/lua/lgc.c:258-268 | a new object has the current white and keeps the invariants |
| `Collector.Collector.SetRoots` | 3rdparty/lua/lgc.c:403-409 | roots may change to anything reachable at any time |
| `LineInfo.FuncState.SaveLineInfo` | 3rdparty/lua/lcode.c:329-344 | the line recorded is added to those the tables encode |
| `LineInfo.FuncState.RemoveLastLineInfo` | 3rdparty/lua/lcode.c:352-365 | the last line is taken back |
| `LineInfo.FuncState.Emit` | 3rdparty/lua/lcode.c:382-390 | an instruction and its line are added |
| `LineInfo.FuncState.FixLine` | 3rdparty/lua/lcode.c:1783-1786 | the last line is replaced |
| `LineInfo.AbsBound` | 3rdparty/lua/lcode.c:329-344 | the k-th absolute entry is at most 128 (k+1) instructions in |
| `LineInfo.EstimateIsLow` | 3rdparty/lua/ldebug.c:60-76 | the index estimate is within the table and not past the instruction |
| `LineInfo.GetBaseLine` | 3rdparty/lua/ldebug.c:60-76 | the last absolute entry at or before the instruction |
| `LineInfo.GetFuncLine` | 3rdparty/lua/ldebug.c:84-95 | the line recorded for the instruction |
| `LineInfo.ChangedLine` | 3rdparty/lua/ldebug.c:847-865 | whether the two recorded lines differ |
| `JumpThreading.FinalTarget` | 3rdparty/lua/lcode.c:1826-1836 | an instruction reached over jumps, the last one unless 100 hops were made |
| `JumpThreading.RedirectSameFlow` | 3rdparty/lua/lcode.c:1864-1868 | redirecting one jump along its own path preserves control flow in both directions |
| `JumpThreading.ThreadedTo` | 3rdparty/lua/lcode.c:1826-1836 | the target found in partly rewritten code is the end of the original chain, if that has at most 100 jumps |
| `JumpThreading.AdjustSameFlow` | 3rdparty/lua/lcode.c:1850-1863 | rewriting a return preserves control flow |
| `JumpThreading.AdjustedRight` | 3rdparty/lua/lcode.c:1850-1863 | a return or tail call then closes upvalues if it has to or did, drops a vararg frame of the right size exactly in a vararg function, keeps its values, and stays special only when it has neither to do; other instructions stay |
| `JumpThreading.OneRight` | 3rdparty/lua/lcode.c:1850-1863 | one instruction only meets that |
| `JumpThreading.Finish` | 3rdparty/lua/lcode.c:1843-1872 | the pass in place: from every instruction the same first non-jump is reached before and after and no later, endless jumps stay endless, a jump with at most 100 jumps ahead of it goes straight to their end, every return is as `AdjustedRight` says |

## Left out

- `LuaHeap.LuaHeap.Reallocate`: the bytes after a copy that leaves its block, and what deallocate then does with them, are not described; the call is described up to that copy.
- `LuaHeap.LuaHeap.Resize`: the same.
- `LuaHeap.LuaHeap.Move`: the same.
- `LuaHeap.LuaHeap.Deallocate`: pointers into the middle of a block in front of which no free header is read.
- `HeapReach.TooSmallReached`: pools below 136 bytes.
- `HeapReach.OverrunReached`: pools with less than 96 bytes beside twice the free block.
- `HeapTheorems.GrantedIff`: pools of 2^18 bytes or more, in which the last row of the table mixes sizes.
- `HeapTheorems.EnoughIsGranted`: the same.
- Heap: pools of 2^32 bytes or more and pools whose size is no multiple of 8; use from several threads.
- `PhotonCache.PhotonCache.Read`: offsets whose last page would cross 2^32, and page sizes that are no power of two, do not divide the block or exceed 256 bytes.
- `PhotonCache.PhotonCache.GetOrAllocPage`: the order of replacement is stated as a list until the 32-bit tick counter wraps, and as the slot the scan takes after that.
- Photon cache: the hit, miss and flush counters; the masks on offsets are written as division by the page size, a power of two.
- Bootloader: power loss in the middle of one erase or one word write; the jump into the image and its stack and entry checks; partition tables with overlapping or unaligned slots.
- `BootRuns.RecoveryArrives`: the reserved header words, which an interrupted recovery may leave erased.
- SoftBus: sockets, tasks, metrics and the route table behind an accepted beacon; loading the key from secure storage.
- `Sha256.Sha256.Finish`: messages of 2^64 bits or more have no FIPS 180-4 digest; the model gives the wrapped length field there.
- JSON: null pointers, and texts with a zero byte before their end; what fields mean in other texts with backslashes than an escaped string behind its key.
- Collector: open upvalues, weak tables, finalizers, fixed objects and generational mode; the lists of objects with finalizers are taken empty; the amount of work per step and its debt.
- Lua code generation beyond line information and the final pass: registers, constants and operand encodings.
- UART, Ethernet, drivers, scheduler, virtual file system, shell, user interface, packet capture, wireless and Bluetooth, firewall, intrusion detection and build scripts.
