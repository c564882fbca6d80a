# Owmice kernel: memory, tasks, ramdisk and text

A Dafny model of the parts of the Owmice i386 kernel whose correctness is a matter of data
structures and arithmetic: the kernel heap, the physical block map, page tables, the task ring,
the ramdisk format with its packer and its reader, number and string routines, and the calendar.

| files | source |
|---|---|
| `Machine` | 32-bit words in byte-addressed little-endian memory |
| `HeapModel`, `HeapTheorems`, `Heap`, `HeapAsWritten` | mem/heap.h |
| `Bitmap`, `Frames`, `FramesTheorems`, `FramesAsWritten` | standard/bitmap.h, mem/mem.h |
| `PagingModel`, `PagingTheorems`, `Paging` | mem/paging.h |
| `Schedule`, `TaskRing` | system/task.h |
| `RamdiskFormat`, `Packer`, `Initrd`, `RamdiskRoundTrip` | utils/put_to_ramdisk.c, io/initrd.h |
| `Numbers`, `NumberText`, `Printf`, `Strings` | standard/strings.h, standard/stdio.h |
| `Calendar` | io/cmos.h |

Code that updates memory is modelled by methods over arrays and objects: the heap keeps its block
records and chunk headers in the same byte array as the payloads, page tables live in physical
memory next to the directory, tasks are linked objects. Each such method is proved to reach the
state that a function on abstract states gives, and the theorems are about those functions.

## Lines that are repaired

Some lines do not do what the code around them relies on. The models use the repaired line; the
`AsWritten` modules take the line literally, give an input on which it fails, and state exactly
when it does no harm.

- mem/heap.h:97 finds the predecessor from the address of a local variable.
- mem/heap.h:105, 203 walk to hb+size, past the end of the last chunk that line 46 fixes; line 138
  compares with hb+20+size, which harms only a block that ends within 20 bytes of 4 GiB.
- mem/heap.h:214-227 leave the `prevsize` of the chunk after a split stale.
- mem/heap.h:230-237 charge the request for a chunk taken whole, while Free gives back its full size.
- mem/mem.h:49 takes block 0 without counting it; mem/mem.h:174 fills with 0x0f.
- mem/mem.h:81-91 search beyond the map, from the value of a bit instead of its position, and count
  one block too many.

Kept as they are, with their exact effect stated: the missing first `prevsize` of
mem/heap.h:33-57 (`Heap.KernelHeap.AddBlock`), the inverted test of mem/mem.h:122
(`Frames.NoRun`: it changes no outcome), the frame mask of mem/paging.h:25 that spares bit 31
(`PagingTheorems.MapPageTranslates`), the unset `task_main.prev` of system/task.h:145-163
(`TaskRing.Scheduler.PrevInvertsNextIff`), the wrapping sum of io/initrd.h:32
(`Initrd.ReadCountIff`), the loop of standard/strings.h:140-145, which erases the string for a
shift of 0 (`Strings.ShiftedIff`), and the request for 0 bytes that mem/heap.h:214-221 may split a chunk
for (`HeapTheorems.AllocInv`).

## Reading the model

- Heap: `Heap.KernelHeap.Valid` says that memory holds the abstract heap and that the abstract heap
  satisfies `HeapModel` invariants: chunks tile the arena, `prevsize` mirrors the previous size, no
  two free chunks touch, `size - used` is the free bytes plus 52, and `mem_in_use`, the block count
  and the size are right modulo 2^32. A block of 52 bytes is one empty chunk.
- What memory holds after the block map is a parameter (`beyond`) of the search as written.
- `die` stops the machine: it is the outcome `Halted`, or the flag `halted`.
- Page tables follow section 4.3 (32-bit paging) of the Intel 64 and IA-32 Architectures Software
  Developer's Manual, Volume 3A. Masks and shifts by constants on page-table entries and addresses
  are written as the arithmetic they perform on 32-bit words; the block map uses bit vectors.
- The global heap of mem/heap.h starts zeroed, so its `size`, which `k_heapLCABInit` does not set, starts at 0.
- `int` is 32-bit two's complement with wrap-around, which ISO C leaves undefined on overflow.

## Model

| member | source | states |
|---|---|---|
| `Heap.KernelHeap.constructor` | mem/heap.h:27-31 | an initialised heap is valid and has no blocks |
| `Heap.KernelHeap.AddBlock` | mem/heap.h:33-57 | the new block goes first in the list as one free chunk of size-52 bytes, no live payload is written, and the heap is well-formed afterwards if and only if the word left unset (the first `prevsize`) already held 0 |
| `Heap.AddedBlock` | mem/heap.h:45-46 | the stores of AddBlock make a well-formed block exactly when that word is 0 |
| `Heap.KernelHeap.Alloc` | mem/heap.h:173-251 | memory afterwards stores exactly the heap that the first-fit specification gives, with its pointer; the heap is well-formed if and only if the request was not one for 0 bytes that split a chunk; every live payload keeps its bytes; nothing outside the blocks is written |
| `Heap.KernelHeap.Grant` | mem/heap.h:214-239 | the same, from the chunk found: memory and the abstract heap stay in step |
| `Heap.FindChunk` | mem/heap.h:196-244 | the header walk returns the first free chunk in address order that is large enough, or 0 |
| `Heap.StoreRemainder` | mem/heap.h:220-221 | the header of the remainder, and the `prevsize` that follows it, hold the right words |
| `Heap.SplitChunk` | mem/heap.h:214-227 | after a split, memory holds the block with the chunk replaced by the used part and the free remainder, and only that chunk, the following `prevsize` and `used` were written |
| `Heap.TakeWhole` | mem/heap.h:229-233 | taking the chunk whole sets its flag and charges its full size, and writes nothing else |
| `Heap.CarveChunk` | mem/heap.h:211-239 | either way, memory holds the carved block and the bytes charged are what `Free` will give back |
| `Heap.KernelHeap.Free` | mem/heap.h:62-152 | freeing a live pointer leaves the heap that the coalescing specification gives; every other live payload keeps its bytes; nothing outside the blocks is written |
| `Heap.FindBlock` | mem/heap.h:79-82 | the search by address stops at the block that contains the pointer |
| `Heap.BlockTestIff` | mem/heap.h:82 | the 32-bit sum hb+size accepts the pointers of a block if and only if the block ends below 4 GiB |
| `Heap.Unflag` | mem/heap.h:72-74 | clearing the flag first leaves a well-formed block with that chunk free |
| `Heap.GiveBack` | mem/heap.h:88-92 | `used` drops by the payload of the freed chunk |
| `Heap.AbsorbNext` | mem/heap.h:113-123 | merging forward leaves one well-formed chunk; when the absorbed chunk was the last, the unguarded store goes to the slack and harms nothing |
| `Heap.AbsorbPrev` | mem/heap.h:127-142 | merging backward leaves one well-formed chunk and a correct `prevsize` after it |
| `Heap.JoinNext` | mem/heap.h:103-123 | merges forward exactly when the next chunk exists and is free |
| `Heap.JoinPrev` | mem/heap.h:94-100 | finds the predecessor through `prevsize` and merges exactly when it exists and is free |
| `Heap.JoinChunk` | mem/heap.h:85-142 | both merges together give the coalesced block, and write only to the chunks joined and the `prevsize` after them |
| `Heap.FreeChunk` | mem/heap.h:62-152 | all stores of Free, from clearing the flag to the second merge |
| `Heap.HeadersSplice` | mem/heap.h:7-10 | rewriting a stretch of chunks keeps all other headers, and the mirror of each size in the next `prevsize` |
| `Heap.ConfinedKeeps` | mem/heap.h:114-139 | writes confined to chunks i..j of one block touch no other live payload in any block |
| `HeapModel.FirstFit` | mem/heap.h:203-244 | the first chunk of a block that fits: none before it does |
| `HeapModel.FirstBlock` | mem/heap.h:186-187 | the first block in list order with a chunk that fits: none before it has one |
| `HeapModel.CarveOk` | mem/heap.h:214-237 | allocation keeps the tiling of the arena, keeps free neighbours apart and keeps `used` exact; only a split for 0 bytes leaves an empty chunk, whose successor would name no predecessor |
| `HeapModel.CoalesceOk` | mem/heap.h:94-142 | one merge step each way is enough: no two free neighbours remain, and exactly the freed chunk stops being live |
| `HeapModel.FreeOk` | mem/heap.h:91-142 | freeing keeps the block invariant, `used` included |
| `HeapModel.UsedBound` | mem/heap.h:92 | `used` is always between 0 and size-52, so it never wraps |
| `HeapModel.TiledBelow` | mem/heap.h:203-243 | list order is address order: chunks never overlap |
| `HeapTheorems.RunInv` | mem/heap.h:33-251 | every run of AddBlock, Alloc and Free keeps the invariant: tiling, no free neighbours, exact `used`, `mem_in_use`, block count and size, disjoint blocks |
| `HeapTheorems.LiveDisjoint` | mem/heap.h:173-251 | two live allocations never overlap, within a block or across blocks |
| `HeapTheorems.LivePointerIff` | mem/heap.h:80-82 | a pointer can be freed exactly when it is the payload address of a live chunk |
| `HeapTheorems.AddLive` | mem/heap.h:33-57 | a new block adds no live allocation |
| `HeapTheorems.AllocInv` | mem/heap.h:173-251 | Alloc keeps the heap invariant if and only if it does not split a chunk for 0 bytes |
| `HeapTheorems.AllocZeroFails` | mem/heap.h:214-237 | concrete failure: the first allocation of 0 bytes from a block of 200 |
| `HeapTheorems.AllocComplete` | mem/heap.h:186-250 | Alloc returns 0 exactly when no free chunk of any block is large enough, and then changes nothing |
| `HeapTheorems.AllocTakes` | mem/heap.h:186-239 | what a successful Alloc does, word for word: the chunk at the pointer was the first free one with room; with more than n+24 bytes it is split into n live bytes and a free rest, otherwise taken whole; block, counters and everything else as stated |
| `HeapTheorems.AddTakes` | mem/heap.h:33-57 | what AddBlock does, word for word: one free chunk of size-52 bytes at base+20, the block first in the list |
| `HeapTheorems.AllocLive` | mem/heap.h:209-239 | a successful Alloc adds exactly one live chunk, of n to n+24 bytes, that was not live before |
| `HeapTheorems.FreeLive` | mem/heap.h:62-150 | Free removes exactly one live chunk |
| `HeapTheorems.QuickReject` | mem/heap.h:187 | the `size - used` shortcut, with its 32-bit wrap, never skips a block with a chunk that fits |
| `HeapTheorems.Canonical` | mem/heap.h:94-142 | a tiling without free neighbours is determined by its live chunks |
| `HeapTheorems.HistoryIndependence` | mem/heap.h:33-251 | two heaps with the same blocks and the same live allocations are equal in every header and counter, whatever their histories |
| `HeapTheorems.FreeUndoesAlloc` | mem/heap.h:62-251 | freeing what was just allocated restores the exact previous heap |
| `HeapTheorems.NothingLive` | mem/heap.h:45-46 | a heap with nothing live consists of untouched blocks with nothing in use |
| `HeapTheorems.FullRecovery` | mem/heap.h:33-251 | after any history, freeing the live allocations in any order gives back every block as one free chunk of size-52 bytes, `used` 0 and `mem_in_use` 0 |
| `HeapAsWritten.ChargeExactIff` | mem/heap.h:230-237 | with line 233 as written, `used` stays exact if and only if the chunk is split or fits exactly |
| `HeapAsWritten.RunTrails` | mem/heap.h:230-237 | with the charge as written exactly the same runs of the three operations are possible as with the repair, and they leave the same chunks; each `used` falls behind, by at most 24 a call, and `mem_in_use` is still their sum |
| `HeapAsWritten.AllocTrails` | mem/heap.h:187-237 | with those counters Alloc still tries the same block and returns the same pointer |
| `HeapAsWritten.UnderstatedRun` | mem/heap.h:230-237 | so in every reachable state `size - used` is at least the free bytes plus 52, and at most 24 a call more |
| `HeapAsWritten.UnderstatedQuickReject` | mem/heap.h:187 | so in every reachable state the shortcut skips no block with a chunk that fits |
| `HeapAsWritten.WordSubtraction` | mem/heap.h:187 | for the first 2^26 calls the subtraction on 32-bit words gives that difference exactly |
| `HeapAsWritten.ChargeFails` | mem/heap.h:230-237 | concrete failure: 30 bytes from a 40-byte chunk, freed, leave `used` at -10 |
| `HeapAsWritten.HoledReached` | mem/heap.h:33-251 | the heap of the failures below is met: allocate 100 and 40 bytes of a 200-byte block and free the first |
| `HeapAsWritten.StoreHoled` | mem/heap.h:7-18 | bytes that hold it, with any slack word |
| `HeapAsWritten.SplitStaleIff` | mem/heap.h:214-227 | a split that does not refresh the following `prevsize` keeps memory well-formed if and only if the chunk was the last |
| `HeapAsWritten.SplitStaleFails` | mem/heap.h:214-227 | concrete failure: after 30 bytes from the hole, the live chunk still names a 100-byte predecessor, which leads past the free remainder |
| `HeapAsWritten.PredecessorIff` | mem/heap.h:94-130 | seeking the predecessor from `&hdr`, Free grows the header it should (or none) if and only if the variable lies at the chunk itself, or the predecessor is live and the word found below the variable reads as live too |
| `HeapAsWritten.PredecessorFails` | mem/heap.h:97 | concrete failure: freeing the live chunk after a free one never merges the two, wherever the variable lies |
| `HeapAsWritten.ForwardBoundIff` | mem/heap.h:104-107 | with bound hb+size, Free decides to merge as it should if and only if the chunk is not the last or the slack reads as a used header |
| `HeapAsWritten.ForwardBoundFails` | mem/heap.h:105 | concrete failure: with a zero slack word the last chunk is merged with the slack |
| `HeapAsWritten.BackwardBoundIff` | mem/heap.h:137-140 | with the 32-bit bound hb+20+size the successor is refreshed if and only if that sum does not wrap; after the last chunk the store of line 139 stays in the slack of its own block and changes no block and no live payload |
| `HeapAsWritten.BackwardBoundFails` | mem/heap.h:138 | concrete failure: a block that ends 10 bytes below 4 GiB |
| `HeapAsWritten.WalkArena` | mem/heap.h:203-244 | up to the end of the arena the walk with bound hb+size finds what it should |
| `HeapAsWritten.WalkSlack` | mem/heap.h:203-243 | from the end of the arena the walk meets at most three headers and finds nothing if and only if each of them has bit 31 set or is too small |
| `HeapAsWritten.WalkBoundIff` | mem/heap.h:203 | with bound hb+size, Alloc finds what it should if and only if some chunk fits or the size words the walk meets in the 24 bytes of slack are all used or too small |
| `HeapAsWritten.WalkFails` | mem/heap.h:203 | concrete failure: a slack word of 64 makes Alloc hand out memory past the arena |
| `HeapAsWritten.WalkFailsHoled` | mem/heap.h:203 | and so on the heap above, with 128 in the slack and a request that nothing fits |
| `Bitmap.BitSet` | standard/bitmap.h:4-6 | the packed set gains exactly that member |
| `Bitmap.BitUnset` | standard/bitmap.h:8-10 | the packed set loses exactly that member |
| `Bitmap.WordUpdated` | standard/bitmap.h:4-14 | setting or clearing bit j of a 32-bit word changes the test of bit j only |
| `Bitmap.SameMembers` | standard/bitmap.h:4-14 | the words are determined by the set they pack |
| `Frames.FrameMap.constructor` | mem/mem.h:170-175 | the initial map: every block taken, and the counter says so |
| `Frames.FrameMap.InitRegion` | mem/mem.h:38-50 | the region becomes free, block 0 taken, and the counter is the number of taken blocks |
| `Frames.FrameMap.DeinitRegion` | mem/mem.h:52-63 | the region becomes taken, and the counter is the number of taken blocks |
| `Frames.FrameMap.FindFree` | mem/mem.h:65-74 | returns the least block not taken, or -1 exactly when all are |
| `Frames.FullIff` | mem/mem.h:102-106 | the counter reaches blocks_max exactly when no block is free |
| `Frames.FrameMap.AllocBlock` | mem/mem.h:101-111 | takes the lowest free block; halts exactly when the map is full, always at line 102; never returns null while block 0 is taken |
| `Frames.FrameMap.FreeBlock` | mem/mem.h:113-118 | the block becomes free and the counter follows |
| `Frames.FrameMap.TestRun` | mem/mem.h:88-94 | the innermost loop accepts exactly the runs that are wholly free |
| `Frames.FrameMap.FindRun` | mem/mem.h:76-99 | returns the lowest start of `size` consecutive free blocks inside the map, or -1 when there is none |
| `Frames.NoRun` | mem/mem.h:122-123 | whatever the inverted test of line 122 rejects has no run anyway |
| `Frames.FrameMap.AllocBlocks` | mem/mem.h:120-135 | takes the lowest run of free blocks; halts exactly when there is none |
| `Frames.FrameMap.FreeBlocks` | mem/mem.h:137-143 | the run becomes free and the counter follows |
| `FramesTheorems.FreeUndoesAlloc` | mem/mem.h:120-143 | taking a free run and giving it back restores every word of the map |
| `FramesTheorems.AllocThenFree` | mem/mem.h:120-143 | calling alloc_blocks and then free_blocks restores every word of the map and the counter |
| `FramesTheorems.NullNeverGiven` | mem/mem.h:38-143 | over any run of the allocator, once block 0 is taken it is never handed out |
| `FramesAsWritten.InitCountIff` | mem/mem.h:38-50 | with line 49 as written, the counter stays right if and only if block 0 was taken and is not in the region |
| `FramesAsWritten.InitCountFails` | mem/mem.h:38-50 | concrete failure: a region whose base is below 4096 leaves one block uncounted |
| `FramesAsWritten.FillCountIff` | mem/mem.h:174-175 | with the 0x0f fill, counter and map agree if and only if the map is empty |
| `FramesAsWritten.Probe` | mem/mem.h:88-94 | the inner loop accepts exactly the windows of size+1 blocks with at most one taken |
| `FramesAsWritten.FirstFreeAsWritten` | mem/mem.h:76-99 | the whole search as written returns the lowest free block whose window is accepted, or -1; the window starts at 32i+2^j, the block returned is 32i+j |
| `FramesAsWritten.SearchRightIff` | mem/mem.h:86-94 | on any map, for any request, that answer is the lowest free run (or -1 where there is none) if and only if the window of the lowest free run has room and that of every lower free block has none |
| `FramesAsWritten.OpenStretchRight` | mem/mem.h:86-94 | it is right whenever all blocks from the lowest free one to the end of its window are in the map and free |
| `FramesAsWritten.OneStretchIff` | mem/mem.h:86-94 | when the free blocks are one stretch lo..hi, it is right if and only if the window at lo ends inside the stretch or the stretch is shorter than the request |
| `FramesAsWritten.ExtraWordsIff` | mem/mem.h:81 | the loop bound alone changes the answer if and only if the map holds no accepted block and the memory after it does, and the answer is then no block of the map |
| `FramesAsWritten.ExtraWordsFails` | mem/mem.h:81 | concrete failure: with only block 30 of 32 free and free bits after the map, a request for two blocks, which line 122 lets through, is answered with block 32 |
| `FramesAsWritten.SearchFails` | mem/mem.h:86-94 | concrete failure: with blocks 0 and 2 taken, a request for two blocks is answered with 1, whose second block is taken |
| `FramesAsWritten.SearchFailsReached` | mem/mem.h:38-118 | that map is met: describe a region, allocate two blocks, free the first |
| `PagingModel.MappedEntry` | mem/paging.h:42-52 | an entry set for a page-aligned frame is present and names that frame, plus bit 31 if the old entry carried it |
| `PagingModel.NewTableSound` | mem/paging.h:183-192 | a new table is zeroed, owned by one directory slot, in a block taken from the map |
| `PagingModel.NewTableLookup` | mem/paging.h:183-192 | a new table changes no translation |
| `PagingModel.SetEntry` | mem/paging.h:193-197 | writing one page-table entry changes the translation of its own page only, over all 2^20 pages |
| `PagingTheorems.MapPageTranslates` | mem/paging.h:180-198 | every address of the page translates to the frame plus its offset, 2 GiB higher if and only if the old entry left a stale bit 31; every other address of the 32-bit space translates as before |
| `PagingTheorems.RemapFails` | mem/paging.h:25-39 | concrete failure: a page mapped to a frame of the upper 2 GiB and then to one of the lower still reads the upper |
| `PagingTheorems.MapPageHalts` | mem/paging.h:183-186 | map_page halts exactly when it needs a table and memory is full, and then nothing else changes |
| `PagingTheorems.FreePageUnmaps` | mem/paging.h:272-278 | free_page unmaps its own page only; when the page has no table, it only clears a bit in block 0 |
| `PagingTheorems.FreePageWords` | mem/paging.h:272-278 | free_page clears bit 0 of the page's entry (of a word of block 0 when there is no table), and changes no other bit of memory and no block |
| `PagingTheorems.MapAfterFree` | mem/paging.h:180-198 | a page freed and mapped again translates to its new frame, 2 GiB higher if and only if the entry before the free had a bit 31 that the frame lacks |
| `PagingTheorems.MapPageWords` | mem/paging.h:180-198 | what map_page does to every word of memory: the entry gets frame and two flags and keeps the others; a missing table is the lowest free block, zeroed, named in the directory with flags 3 |
| `PagingTheorems.MapPagesLinear` | mem/paging.h:200-209 | n consecutive pages map to n consecutive frames, both going round at 4 GiB, each frame 2 GiB higher where a stale bit 31 was left; no other page changes |
| `PagingTheorems.SizeToPagesCovers` | mem/paging.h:211-217 | the pages cover the size if and only if rounding up does not wrap |
| `PagingTheorems.MapSizeLinear` | mem/paging.h:200-217 | map_pages over size_to_pages(sz) sends a byte of [v, v+sz) to the same byte of [p, p+sz) if and only if its page held no bit 31 that the new frame lacks |
| `PagingTheorems.MapTableIsMapPages` | mem/paging.h:219-240 | map_table on a 4 MiB boundary with an empty slot reaches exactly the state of 1024 calls of map_page, running out of memory included |
| `PagingTheorems.MapTablePresent` | mem/paging.h:219-222 | map_table on a slot in use changes nothing |
| `PagingTheorems.MapTableLookup` | mem/paging.h:219-240 | from any address of an empty slot, the page of the address gets the first frame and the others follow round the slot; every other page translates as before |
| `PagingTheorems.MapTablesIsMapPages` | mem/paging.h:242-251 | map_tables over n empty slots is map_pages over their 1024 n pages |
| `PagingTheorems.MapTablesLookup` | mem/paging.h:242-251 | over any n slots, used and empty: each empty one is filled with the frames of its place, used ones and all other slots are left alone |
| `PagingTheorems.MapPagesSplit` | mem/paging.h:200-209 | mapping a+b pages is mapping a, then b |
| `PagingTheorems.MapPagesOne` | mem/paging.h:200-209 | mapping one page is map_page, mapping none does nothing |
| `PagingTheorems.StepSound` | mem/paging.h:180-278 | no call, of the mapping functions or of the allocator by others, breaks the invariant shared by tables and block map; foreign allocations change no translation |
| `PagingTheorems.TablesOwned` | mem/paging.h:180-278 | in every reachable state present slots name distinct, non-null blocks that the allocator cannot hand out again |
| `Paging.AddressSpace.constructor` | mem/paging.h:168-173 | a zeroed directory in a taken block maps nothing |
| `Paging.AddressSpace.AddTable` | mem/paging.h:184-191 | in place: alloc_block, memset and the directory entry give the specified state |
| `Paging.AddressSpace.MapOne` | mem/paging.h:180-198 | in place map_page reaches the specified state and keeps the invariant |
| `Paging.AddressSpace.TableEntry` | mem/paging.h:152-166 | get_pagetable and get_page reach the entry the translation reads |
| `Paging.AddressSpace.FreeOne` | mem/paging.h:272-278 | in place free_page reaches the specified state |
| `Paging.AddressSpace.MapMany` | mem/paging.h:200-209 | the loop is the specified iteration, stopping at a halt |
| `Paging.AddressSpace.MapWhole` | mem/paging.h:219-240 | in place map_table reaches the specified state, for any virtual address |
| `Paging.AddressSpace.MapWholes` | mem/paging.h:242-251 | the loop is the specified iteration |
| `Paging.FillTable` | mem/paging.h:227-233 | the fill loop leaves 1024 consecutive frames, starting at the entry of the given address and going round |
| `TaskRing.Scheduler.constructor` | system/task.h:145-163 | the main task alone in its ring |
| `TaskRing.Scheduler.Spawn` | system/task.h:32-54 | the task joins at the end with the next identifier, and the caller yields; the ring stays linked both ways |
| `TaskRing.Scheduler.Kill` | system/task.h:64-73 | the ring loses that task alone, in order, and main runs |
| `TaskRing.Scheduler.KillPid` | system/task.h:80-93 | terminates; true exactly when some live task has the identifier, and then that task alone is removed |
| `TaskRing.Scheduler.Yield` | system/task.h:191-204 | one step of the round robin; ring and links unchanged |
| `TaskRing.Scheduler.Sleep` | system/task.h:56-58 | only the counter of that task changes |
| `TaskRing.Scheduler.Attach` | system/task.h:35-51 | the pointer updates of spawn link one more task |
| `TaskRing.Scheduler.Detach` | system/task.h:66-69 | the pointer updates of kill unlink one task, the last included |
| `TaskRing.Scheduler.Follow` | system/task.h:145-204 | `next` from the main task visits every live task once, in ring order, and then comes home |
| `TaskRing.Scheduler.PrevInvertsNextIff` | system/task.h:145-163 | `prev` inverts `next` all round exactly once a task has been spawned |
| `Schedule.RunSound` | system/task.h:32-204 | over any run, identifiers strictly increase round the ring from the same main task, and the running task is in it |
| `Schedule.YieldApproaches` | system/task.h:191-204 | each yield lowers the waiting time of a task that does not run by exactly one |
| `Schedule.YieldEffect` | system/task.h:191-204 | what one yield does: the next task runs, or loses one tick if it sleeps; every other counter, the own one included, stays |
| `Schedule.ExactWait` | system/task.h:191-204 | a task first runs after exactly (distance) + (sleep counters from the next task up to it) yields |
| `Schedule.ReturnWait` | system/task.h:191-204 | the running task stays while its successor sleeps, and runs again after exactly (number of tasks) + (sum of all counters, its own included) yields, not before |
| `Schedule.SpawnEffect` | system/task.h:32-54 | the new task is last with the next identifier, and the caller has yielded once: who runs and every counter |
| `Schedule.KillEffect` | system/task.h:64-73 | the task's columns go, the rest keep their order, and the main task runs |
| `Schedule.SleepEffect` | system/task.h:56-58 | that counter alone is set |
| `Packer.HeaderCountIff` | utils/put_to_ramdisk.c:12-13 | the file count read through a char `argc` is right exactly below 64 files, and what it is for any other number of words |
| `Packer.WriteHeader` | utils/put_to_ramdisk.c:20-31 | the header fields land at their offsets, whatever the stack held, and no other header changes |
| `Packer.Assembled` | utils/put_to_ramdisk.c:36-46 | count, headers and contents in sequence are an image |
| `Packer.Pack` | utils/put_to_ramdisk.c:12-49 | the image holds the count, a header per file and each file's bytes at the offset its header names |
| `RamdiskFormat.ImageBytes` | utils/put_to_ramdisk.c:4-46 | an image byte by byte: the count, each header's magic byte, name, offset and length at 0, 1, 68 and 72, and the contents from 4868 on, words least significant byte first |
| `Initrd.Ramdisk.constructor` | io/initrd.h:65-115 | mounting turns file offsets into addresses, copies names and lengths to nodes, and changes no file byte |
| `Initrd.Ramdisk.Mount` | io/initrd.h:98-112 | one round of the mount loop patches one offset |
| `Initrd.Ramdisk.FindDir` | io/initrd.h:55-63 | "mtp" first from the root, else the first file of that name, else null |
| `Initrd.Ramdisk.ReadDir` | io/initrd.h:40-53 | "mtp" first from the root, then every file in order, then null |
| `Initrd.ReadCountIff` | io/initrd.h:28-38 | the count copied is the clipped slice's length if and only if offset+size does not wrap (or the read buffer makes it 0 anyway) |
| `Initrd.ReadCountPlain` | io/initrd.h:28-38 | without the wrap: nothing past the end or above 1 MiB, else what was asked for and is there |
| `Initrd.ReadCountFails` | io/initrd.h:32-35 | concrete failure: the rest of a 100-byte file from byte 1 on, asked for with size 2^32-1, comes back empty |
| `Initrd.ClipLength` | io/initrd.h:30-35 | the count that the clipping means is the length of the slice a caller means |
| `Initrd.Ramdisk.Read` | io/initrd.h:28-38 | without that wrap the buffer receives exactly the clipped slice of the file, and nothing more is written |
| `Initrd.ChunksReassemble` | io/initrd.h:28-38 | successive slices of k bytes reassemble the file |
| `Initrd.Ramdisk.ReadAll` | io/initrd.h:28-38 | calling initrd_read k bytes at a time until it returns 0 gathers exactly the file |
| `RamdiskRoundTrip.ImageMoved` | io/initrd.h:65-69 | an image is an image wherever it is loaded |
| `RamdiskRoundTrip.PackMountRead` | io/initrd.h:28-115 | pack, load anywhere, mount, look up by name, read: the caller gets exactly the clipped slice of the packed file, empty past its end |
| `Numbers.RoundTrip` | standard/strings.h:20-66 | atoi undoes itoa in base 10 for every 32-bit int, INT_MIN included, under wrapping arithmetic |
| `Numbers.DigitsUpNumeral` | standard/strings.h:49-65 | itoa's digits, turned round, are the positional numeral that ft_putnum prints |
| `Numbers.ItoaMeaning` | standard/strings.h:46-66 | in every base from 2 to 32 and for every int above INT_MIN, a numeral of the magnitude, after a minus sign for a negative number in base 10 only |
| `Numbers.ItoaIntMin` | standard/strings.h:46-66 | the exact text for INT_MIN |
| `Numbers.NumeralIs` | standard/stdio.h:62-68 | what ft_putnum prints is a numeral: right value, only digits, no leading zero |
| `Numbers.NumeralValue` | standard/stdio.h:62-68 | a numeral denotes its number, so numerals of different numbers differ |
| `Numbers.NumeralLeading` | standard/stdio.h:62-68 | no leading zero, except for zero itself |
| `NumberText.Reverse` | standard/strings.h:39-44 | in place reversal |
| `NumberText.EmitDigits` | standard/strings.h:51-59 | the digit loop leaves the digits, least significant first |
| `NumberText.ItoaInto` | standard/strings.h:46-66 | the buffer holds the text and its terminator, and nothing after it changes; other bases leave the buffer alone |
| `NumberText.AtoiFrom` | standard/strings.h:20-31 | the parse loop computes the wrapped decimal sum with its sign |
| `NumberText.AtoiReads` | standard/strings.h:20-31 | what atoi reads, character by character and for any characters, digits or not |
| `Printf.Console.PutNum` | standard/stdio.h:62-68 | prints the numeral and returns its number of digits |
| `Printf.Console.PrintDecimal` | standard/stdio.h:71-83 | prints the sign and the magnitude, INT_MIN included |
| `Printf.Console.Scan` | standard/stdio.h:137-157 | terminates, emits the literal and converted pieces of the format in order, and returns exactly the number of characters emitted |
| `Printf.Console.Handle` | standard/stdio.h:56-122 | each handler prints its conversion and the rest of the format |
| `Printf.PrintConcat` | standard/stdio.h:137-157 | printing one format after another is printing the joined format with the joined arguments, when the first does not break off inside a conversion |
| `Printf.FormatLiteral` | standard/stdio.h:137-157 | a literal character, a percent sign before a character that is no specifier, and one at the end |
| `Printf.FormatDecimal` | standard/stdio.h:71-83 | %d and %i print the decimal numeral of the signed word, after a minus sign when it is negative |
| `Printf.FormatUnsigned` | standard/stdio.h:85-110 | %u, %o, %x and %X print the numeral of the word in base 10, 8, 16 and 16, with these digits |
| `Printf.FormatText` | standard/stdio.h:56-122 | %c prints the low byte, %s the string or "(null)" |
| `Printf.DecimalIsItoa` | standard/stdio.h:71-83 | %d prints what itoa writes in base 10, for every int but INT_MIN |
| `Printf.DecimalIntMin` | standard/strings.h:46-66 | for INT_MIN they differ |
| `Printf.HexIsItoaIff` | standard/stdio.h:106-110 | %X prints what itoa writes in base 16 if and only if v >= 0, for every int |
| `Strings.StrLen` | standard/strings.h:68-73 | the length of the C string |
| `Strings.ShlLoop` | standard/strings.h:140-145 | what the copy loop leaves in every byte |
| `Strings.StrShl` | standard/strings.h:134-149 | leaves the string without its first k characters, also when more than half is dropped; for k = 0 it leaves the empty string |
| `Strings.ShiftedIff` | standard/strings.h:134-149 | so strshl(s, k) leaves s+k if and only if k > 0 or s is empty |
| `Strings.ClearChar` | standard/strings.h:86-89 | a zero-padded buffer becomes all zero |
| `Strings.ClearedBuffer` | standard/strings.h:86-89 | a cleared buffer is a zero-padded empty string |
| `Strings.StrTok` | standard/strings.h:151-165 | the token moves to the buffer, which stays zero-padded, and the rest stays in the source string; null exactly when the token is empty |
| `Strings.TokenLossless` | standard/strings.h:151-165 | the string is token, delimiter and rest |
| `Strings.SplitAll` | standard/strings.h:151-165 | calling strtok until the string is used up delivers all its tokens, the empty ones included |
| `Strings.TokensJoin` | standard/strings.h:151-165 | those tokens are the complete split: joining them gives the string back, but for a delimiter at its end |
| `Calendar.DaysClosedForm` | io/cmos.h:61-78 | counting years down agrees with the closed form of the standard, century rules included |
| `Calendar.SecsOfYears` | io/cmos.h:61-78 | the loop computes the seconds of the years since 1970, modulo 2^32 |
| `Calendar.SecsOfMonth` | io/cmos.h:95-128 | the fall-through switch computes the seconds of the first months of the year |
| `Calendar.MonthsMakeYear` | io/cmos.h:95-128 | the cumulative day numbers of the twelve months, leap years included, and that they make the year |
| `Calendar.DayByDay` | io/cmos.h:130-145 | from each valid date to the next, across month and year ends, is 86400 seconds |
| `Calendar.EpochFormula` | io/cmos.h:130-145 | the value is the standard's formula in tm_year and tm_yday, and 0 at the Epoch |
| `Calendar.GetTimeOfDay` | io/cmos.h:130-145 | the value is the standard's seconds since the Epoch modulo 2^32, and exactly that for 2000 to 2099 |

## Left out

- Heap.KernelHeap.AddBlock: does not cover blocks under 52 bytes, over 2^31+51 bytes, at address 0, ending at 4 GiB or overlapping an older block, which the source accepts unchecked (in a block that ends at 4 GiB Free would find no pointer, `Heap.BlockTestIff`); the write-only fields `lastdsize` and `lastdhdr` are not stored.
- Heap.KernelHeap.Free: does not cover pointers that are not live. One inside no block makes the source print a diagnostic and loop forever; one inside a block, such as a pointer freed twice, passes line 82 and corrupts the counters.
- HeapTheorems.RunInv: runs stop at a request for 0 bytes that splits a chunk, after which the heap is not well-formed (`HeapTheorems.AllocInv`).
- HeapAsWritten.UnderstatedRun: is over unbounded integers, while the source's `used` is a 32-bit word; `HeapAsWritten.WordSubtraction` covers the first 2^26 calls on words.
- HeapAsWritten.WalkBoundIff: addresses are unbounded, so a slack word that sends the walk past 4 GiB ends it, while the source would go on from low memory.
- FramesAsWritten.FirstFreeAsWritten: bit numbers are unbounded, while the source's wrap at 2^32, which only a request of more than 2^30 blocks (4 TiB) reaches.
- Frames.FrameMap.InitRegion: does not cover regions that reach past the map; the source's map routine checks nothing.
- Frames.FrameMap.DeinitRegion: does not cover regions that reach past the map either.
- Frames.FrameMap.FreeBlock: does not cover blocks that are not taken, for which the source's counter would drift.
- Frames.FrameMap.FreeBlocks: does not cover runs with a block that is not taken, for the same reason.
- Paging.AddressSpace.MapOne: does not cover physical addresses that are not page-aligned, whose low bits the source would mix into the flags.
- PagingTheorems.MapPagesLinear: is for at most 2^20 pages, after which the source maps the same pages again.
- PagingTheorems.MapSizeLinear: is for ranges that do not wrap.
- TaskRing.Scheduler.Spawn: does not cover the wrap of the identifier counter `lid`, after which identifiers repeat.
- TaskRing.Scheduler.Kill: does not cover the main task, the anchor of the ring, whose removal every other operation would trip over.
- TaskRing.Scheduler.KillPid: does not cover the identifier of the main task, whose removal leaves the scheduler without its anchor.
- Initrd.Ramdisk.Read: models the caller's buffer as separate from the memory of the ramdisk.
- Strings.StrTok: is for one delimiter character and a zero-padded destination; with several, the source overwrites the first token without clearing it.
- Registers: `task_switch`, `save_task_state`, the rest of `tasking_init` and the stack given to a spawned task are abstracted away.
- `pmem_init` beyond the initial map (mem/mem.h:166-206): the walk over the multiboot memory map; its two region operations are modelled.
- `amalloc`, `alloc`, `malloc` and `free` of mem/mem.h: thin wrappers; `amalloc` rounds a heap pointer down below its chunk.
- `paging_init`, `size_to_tables`, `pagefault`, `alloc_page` of mem/paging.h: dead, rounding down, hardware, or one call of the block map.
- `read_initrd`, `cat_initrd`, `ls_initrd`, `exec_initrd` of io/initrd.h: they print or jump into loaded code around the reads modelled here.
- File access in utils/put_to_ramdisk.c: the files are a parameter, and a missing file (which ends the program) is not modelled.
- Clock access in io/cmos.h, `get_today` and its rough month rule: dates come in decoded.
- `substr`, `strcat`, `strcpy`, `cmp`, `trim`, `memmove`, `rand`: would only add easy members.
- Drivers, interrupts, screen, keyboard, file-system dispatch and the system-call table: hardware plumbing and thin dispatch.
