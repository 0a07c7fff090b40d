# Thunix in Dafny

A model of the stateful core of Thunix, a small teaching kernel in C, with proofs. Five parts, each in
the form the C code has: objects whose fields the code updates are classes, loops are loops, and every
method is proved against a specification whose own properties are lemmas.

- **Heap** (`HeapBlocks`, `HeapPool`, `HeapAllocator`, `HeapRuns`): the boundary-tag allocator. Its words are an array;
  the partition that the headers spell is the specification. `next_start` may point at an old header inside
  a merged block; the proofs say when a walk from there is harmless and when it is not. `HeapRuns.Execute`
  carries out whole programs of requests.
- **Block cache** (`Lru`, `Ring`, `BlockCache`, `HeldEntry`): the circular list with its pointers, its
  refinement to a move-to-back sequence, and write-through coherence. `BlockCache.Cache.Execute` is why the
  file system can be modelled on the disk itself: it covers the stores that `rmdir` and `unlink` make in a
  slot they found earlier, which need three slots, or two when both inodes are in one block.
- **Pages** (`Pages`, `EagerCopying`, `KernelFrames`, `TableCopying`, `CopyTracking`, `PageManager`,
  `CallRuns`):
  reference counts and two-level page tables. The programs' view is what each address space reads; lazy
  sharing is proved equal to eager copying over every run. The directory and the kernel's tables lie in
  frames that count as free; `KernelFrames` says when they are safe.
- **Console** (`Screen`, `Console`) and **numbers** (`Numerals`, `Vsprintf`): the 4000-byte window in video
  memory against a plain grid, and `number` against a reader that knows only the base.
- **File system** (`Bitmap`, `Ownership`, `Directory`, `DirEntries`, `Contents`, `DirStore`, `TfsState`,
  `Tree`, `Namespace`, `FreshVolume`, `Tfs`, `FileState`, `FreeBlocks`, `FileData`, `Copying`, `Namei`):
  bitmaps, inodes and directories in bytes, the data path, `cp`, program loading and path lookup.
  `Good` is what every operation keeps: each block has at most one owner and its bit set, each directory has
  distinct names and a size of 32 for each. `Tight` says that no block is lost, `TreeOf` that the namespace
  is a tree: every directory that anything lists hangs from the root, and no inode has two names.

`dafny verify dfyconfig.toml` checks everything.

Where the code does not do what it is meant to do, the model keeps the code and says exactly when it does:
`MallocSafe` and `Strands` (heap), `CopySafe`, `EmptyPageSafe` and `TakesKernelFrame` (pages), `Escapes` (console),
`MkNodOutcome`, `MkDirOutcome` and `LeadsToItself` (directories), `Prefix` (release), `InBlocks`, with
`DeliveredRight` (unaligned reads), `Limit` (writes), `NoneLost` (`cp`). Three comments in
the source disagree with the code: the merge functions are said to return the first block, which `free` then
drops (mm/malloc.c:45-50, 183, 187); names are said to be no longer than the limit by guarantee of the caller
(fs/tfs/dir.c:13), which nobody checks before `tfs_find_entry`; and `namei` is said to return NULL for a
missing file (fs/namei.c:11), where it returns the error pointer. With LOOKUP_CREATE it makes a file of the
first missing component of the path, even where a directory is missing.

A volume is held by role: the two bitmap blocks as bytes, the inode table as its records, the other blocks
as bytes. `Open(f)` says that the volume is good and inode `f` is allocated and is in memory as in the table;
`Ready(f)` is the same with the inode as it is in memory. In the console, `vmem[a - START]` is the byte at
address `a`; in the heap, cell `a - MEMORY` is the word at `a`.

## Model
| member | source | states |
|---|---|---|
| HeapBlocks.InitialIsSound | mm/malloc.c:227-237 | the single block that malloc_init makes tiles the pool |
| HeapBlocks.TakenKeepsSound | mm/malloc.c:123-165 | taking a fitting free block, with or without a split, keeps the blocks tiling the pool, 4-aligned and without two free neighbours |
| HeapBlocks.FreedKeepsSound | mm/malloc.c:176-189 | so does freeing any live block, whichever neighbours are free |
| HeapBlocks.FreedIsCoalescing | mm/malloc.c:176-189 | the five branches of free together compute the canonical form of the partition in which the block is only marked free |
| HeapBlocks.FreedUndoesTaken | mm/malloc.c:123-193 | on partitions, freeing the block just taken gives back the partition there was, in the exact-fit, split and tiny-remainder cases; the code's stores spell that partition when the remainder is not four bytes, as CarvedIsTaken and CarvedOverlaps say |
| HeapBlocks.LiveBlocksAreDisjoint | mm/malloc.c:110-168 | the extents of two different allocations do not meet, lie in the pool and are 4-aligned |
| HeapBlocks.TakenAddsOneExtent | mm/malloc.c:110-168 | malloc makes one new live extent, at least as large as needed, and changes no other |
| HeapBlocks.FreedRemovesOneExtent | mm/malloc.c:170-193 | free takes away one live extent and changes no other |
| HeapBlocks.EveryRunIsSound | mm/malloc.c:110-193 | after any run of partition steps from the initial block, none of which leaves four bytes over, the blocks tile the pool, their sizes sum to MEM_SIZE and no two neighbours are free |
| HeapBlocks.AllFreedIsInitial | mm/malloc.c:110-193 | any such run that ends with everything freed, in any order, ends with the one initial block |
| HeapPool.SizeNeededBounds | mm/malloc.c:114 | the rounded size is a multiple of 4 that holds the header and the request, exactly until the 32-bit sum overflows |
| HeapPool.LayoutIsUnique | mm/malloc.c:35-43 | the headers in memory, walked with get_next, spell one partition |
| HeapPool.CarvedIsTaken | mm/malloc.c:123-165 | the stores of malloc spell the partition in which the block is taken, unless exactly four bytes are left over |
| HeapPool.CarvedOverlaps | mm/malloc.c:146-154 | with four bytes left over the size store of line 148 has overwritten the next header, and no partition is spelled |
| HeapPool.RovingFallsThrough | mm/malloc.c:182-192 | after a front merge a next_start left inside the merged block is an old header from which the walk reaches the next block |
| HeapPool.RovingStranded | mm/malloc.c:186-192 | after a merge on both sides it is not, if it had passed the front block |
| HeapAllocator.Allocator.constructor | mm/malloc.c:227-237 | malloc_init: one free block, next_start at it |
| HeapAllocator.Allocator.MergeFront | mm/malloc.c:52-61 | the block and its free predecessor become one, and the next block points back to it |
| HeapAllocator.Allocator.MergeBack | mm/malloc.c:63-73 | the block and its successor become one free block |
| HeapAllocator.Allocator.MergeBoth | mm/malloc.c:75-85 | three blocks become one |
| HeapAllocator.Allocator.TryMergeFront | mm/malloc.c:87-93 | the last block is marked free and merged with a free predecessor |
| HeapAllocator.Allocator.TryMergeBack | mm/malloc.c:95-103 | the first block is marked free and merged with a free successor; with no successor the code follows a null pointer |
| HeapAllocator.Allocator.MergeAround | mm/malloc.c:178-189 | whichever branch of free is taken, the partition becomes the coalesced one |
| HeapAllocator.Allocator.Free | mm/malloc.c:170-193 | free coalesces with the free neighbours; it faults exactly on an allocation of the whole pool; next_start goes down to the block, or to the free one before it if it is the last, and stays usable if and only if the call does not strand it |
| HeapAllocator.Allocator.Search | mm/malloc.c:112-122 | the walk from next_start, also from an old header, ends at the first free block at or after it that is large enough: no such block comes before the answer |
| HeapAllocator.Allocator.Carve | mm/malloc.c:123-167 | the stores of malloc after the search, in order, and the next_start they leave |
| HeapAllocator.Allocator.CarveSome | mm/malloc.c:136-165 | the same for a block larger than needed |
| HeapAllocator.Allocator.Settle | mm/malloc.c:126-168 | what malloc does once the search has settled: a proper answer exactly in the safe calls |
| HeapAllocator.Allocator.Malloc | mm/malloc.c:110-168 | malloc faults exactly when next_start is null; a safe call takes the first free block at or after next_start with enough bytes, and null means that there is none and nothing has changed, both stated over starts and sizes; next_start is then behind what was taken; every other call goes wrong |
| HeapAllocator.ChoiceIs | mm/malloc.c:117-122 | the block malloc settles on is free, large enough and not before next_start, and no such block comes before it |
| HeapAllocator.SafeIs | mm/malloc.c:112-165 | when a call is safe, over starts, sizes and the word behind next_start: exactly if the first block that fits does not leave four bytes over, and, if none fits, the one under next_start is too small |
| HeapAllocator.Allocator.Store | mm/malloc.c:166-167 | a client may write any word of its payload: no header is touched |
| HeapAllocator.UnsafeCarve | mm/malloc.c:112-165 | outside the guard MallocSafe what malloc returns was not free, or the headers spell no partition, or this call has stored the size of a four-byte remainder behind the pool |
| HeapAllocator.RovingAfterMerge | mm/malloc.c:178-192 | next_start is usable after free if and only if free did not strand it |
| HeapAllocator.BlockGivenTwice | mm/malloc.c:123-139 | a run of four calls after which malloc returns a block that is already in use |
| HeapAllocator.WholePoolFaults | mm/malloc.c:95-125 | after one allocation of the whole pool both malloc and free follow a null pointer |
| HeapRuns.Execute | mm/malloc.c:110-193 | a program of requests to malloc and free and of stores into what it got is carried out from malloc_init on, up to the first request outside the guards; the partitions, next_start and the pointers held are those of the run, whose steps the five members below state over starts and sizes; the run is one of EveryRunIsSound, the pointers held are exactly those of the blocks in use, and with none held the heap is the initial block |
| HeapRuns.Serve | mm/malloc.c:110-193 | one request is carried out exactly if it is inside the guards, which CheckMalloc and CheckFree decide from the headers |
| HeapRuns.AllocateGood | mm/malloc.c:112-154 | asking goes well exactly if next_start is not null, the size does not overflow and the first block from there that is large enough does not leave four bytes over |
| HeapRuns.AllocateMeans | mm/malloc.c:112-168 | then that block is taken, cut off behind if more than a header is left, with next_start behind it; or nothing has changed, and no free block from next_start on is large enough |
| HeapRuns.ReleaseGood | mm/malloc.c:170-193 | giving back goes well exactly if that is not the whole pool and not between two free blocks with next_start past the first |
| HeapRuns.ReleaseMeans | mm/malloc.c:170-193 | then the block is coalesced with its neighbours and next_start lowered to it |
| HeapRuns.WriteGood | mm/malloc.c:166-167 | a store goes well exactly if it lies before the end of the block |
| HeapRuns.CheckMalloc | mm/malloc.c:112-148 | whether a call of malloc is safe can be told by walking the heap before it |
| HeapRuns.CheckFree | mm/malloc.c:170-192 | whether free strands next_start or follows null can be told from the headers around the block |
| HeapRuns.RunIsSound | mm/malloc.c:110-193 | every run of requests inside the guards is a run of partitions that EveryRunIsSound and AllFreedIsInitial speak of, and the program holds each block in use once |
| HeapRuns.ReleaseUndoesAllocate | mm/malloc.c:110-193 | a malloc inside the guards that found a block can be freed at once exactly if it did not take the whole pool, and that restores the partition and the pointers |
| Lru.RecentIsByLastUse | fs/cache.c:61-106 | the move-to-back sequence lists every block requested, once, in order of last use |
| Lru.CacheHoldsMostRecent | fs/cache.c:61-106 | after any run of successful requests the cache holds the last n distinct blocks requested, oldest first |
| Lru.LargerCacheHoldsMore | fs/cache.c:61-106 | a larger cache holds everything a smaller one holds |
| Lru.StaysUntilNOthers | fs/cache.c:79-103 | a block just returned stays in its slot until n other blocks have been requested, and no longer |
| HeldEntry.EntryInHand | fs/tfs/dir.c:190-226 | the entry that rmdir and unlink hold while they read and write inodes stays in its slot exactly with three slots, or with two and one block of inodes |
| HeldEntry.RemovalIsHeld | fs/tfs/dir.c:190-226 | the store that clears the entry after those requests is one that Execute admits, exactly with three slots, or with two and one block of inodes |
| Ring.UnlinkDrops | fs/cache.c:95-97 | unlinking a slot leaves a ring of the others |
| Ring.AppendLinks | fs/cache.c:99-103 | linking it before the head makes it the last |
| BlockCache.Cache.constructor | fs/cache.c:29-52 | cache_init: a ring of all the slots, disjoint data areas, no slot tagged |
| BlockCache.Cache.LinkSlots | fs/cache.c:39-51 | the loop of cache_init |
| BlockCache.Cache.Search | fs/cache.c:76-84 | the search from the freshest slot backwards finds the slot of the block, if there is one |
| BlockCache.Cache.GetCacheBlock | fs/cache.c:61-106 | a hit moves to the back, a miss replaces the oldest slot, a failed read changes no tag; one slot alone is destroyed by a miss |
| BlockCache.Cache.Relink | fs/cache.c:95-103 | the six pointer stores move one slot to the back of the ring |
| BlockCache.Cache.Load | fs/cache.c:87-93 | a miss reads the block into the oldest slot; a failed read leaves its tag but not its bytes |
| BlockCache.Cache.Request | fs/cache.c:61-106 | after a successful request every tagged slot holds its block; after a failed one exactly if the victim was untagged or kept its bytes |
| BlockCache.Cache.Update | fs/tfs/file.c:95-104 | a write-through client: request, change, write; coherence after a failed write holds exactly if the disk has the bytes all the same |
| BlockCache.Cache.Execute | fs/tfs/file.c:10-110 | any run of reads and write-through writes through the cache, also of slots still in hand from an earlier request, reads the same bytes and leaves the same disk as without the cache |
| BlockCache.LastStoreStays | fs/tfs/file.c:56-104 | on the disk without a cache each byte is what the last store that covers it made it, or what it was |
| BlockCache.ReadGives | fs/tfs/file.c:10-38 | and each read gives the block as it is then, in the order of the reads |
| BlockCache.TouchInHand | fs/cache.c:61-106 | a request leaves every slot in hand with its block until as many other blocks as there are slots have been requested since |
| BlockCache.LoadCoheres | fs/cache.c:87-93 | coherence after a read into a slot, both ways |
| BlockCache.StoreCoheres | fs/tfs/file.c:95-104 | coherence after a store into a slot, both ways |
| Pages.ShareStep | mm/mm.c:144-153 | sharing one page keeps the counts and keeps every writable page with one user |
| Pages.UpgradeStep | mm/mm.c:167-171 | so does making the sole user of a page writable |
| Pages.MoveStep | mm/mm.c:172-178 | so does moving a page to a free frame |
| Pages.MapStep | mm/mm.c:216 | so does mapping a new page |
| Pages.UnmapStep | mm/mm.c:102-104 | so does unmapping a page |
| Pages.NewTableStep | mm/mm.c:138-140 | so does a new page table in a clean frame |
| Pages.DropTableStep | mm/mm.c:108-109 | so does dropping an empty one |
| EagerCopying.StepRefines | mm/mm.c:117-219 | each step of the manager looks to every program as if sharing were copying |
| EagerCopying.LazyLooksEager | mm/mm.c:84-219 | in every state of every run of the manager's steps the programs see what they would see if every sharing had been a copy, the counts are the numbers of users, and writable pages have one user; CallRuns.Execute is the same for the calls themselves |
| KernelFrames.KernelStep | mm/mm.c:117-219 | a step leaves the frames of the directory and of the kernel's tables, which mem_init marks free, unused and unchanged exactly if get_free_page gave it none of them |
| KernelFrames.RunSparesKernel | mm/mm.c:84-219 | so does a run, exactly if none of its steps takes one; and then the programs see what eager copying shows them |
| KernelFrames.DirectoryExposed | mm/mm.c:53-67 | a program that is given the directory's frame can store any word of the directory |
| PageManager.Manager.MemInit | mm/mm.c:319-332 | after initialisation main memory is free and no program has a page; the invariant holds from there exactly if the byte behind mem_map is not zero; the kernel's entries refer to frames 0x801 to 0x808, which like the directory's own frame 0x800 count as free |
| PageManager.Manager.GetFreePage | mm/mm.c:53-67 | the highest frame with count zero, counted once; 0 exactly if there is none; while the kernel's frames count as free, one of them exactly if every frame above them is in use |
| PageManager.Manager.FreePage | mm/mm.c:69-80 | one user fewer; a panic exactly on a free or nonexistent frame |
| PageManager.Manager.FreePageTables | mm/mm.c:84-114 | no page is seen at any address of the range, and at every address that is not in the same 4 MB as one of the range what was seen before; every page that was mapped there has one user fewer, every other slot is as it was; a panic exactly on address 0 or a wrong alignment |
| PageManager.Manager.ClearTable | mm/mm.c:101-106 | the inner loop: every entry gone, every page of it released once |
| PageManager.Manager.CopyPageTables | mm/mm.c:117-159 | when it returns the state is sound if and only if no count of a copied page passes 255 and the frames that get_free_page gives out for the tables, the highest free ones, hold nothing that looks like a present entry where the copied table has none; then what is seen at to + (a - from) is what was seen at a, for each a of the range, at every address that is not in the same 4 MB as one of the target range it is what was seen before, and the target refers to the same frames; it panics on a wrong alignment, when no frame is free, or when an address of the target has a table, and, where the copy would be safe, exactly without a frame for each table or with one in the way |
| PageManager.Manager.CopyTable | mm/mm.c:143-154 | the inner loop: the words it stores in both tables and the counts, which wrap at 256, whatever was in the new table |
| PageManager.Manager.UnWpPage | mm/mm.c:162-179 | afterwards the entry is writable and no program sees a difference; the frame stays the same exactly if it had one user; memory runs out exactly if it had another and no frame is free |
| PageManager.Manager.DoWpPage | mm/mm.c:182-188 | the same, for the entry of a faulting address |
| PageManager.Manager.UserStore | mm/mm.c:182-188 | a store by a program, with the fault it may cause, changes the word at that address, at each of its four bytes, for that program alone; it is refused exactly where no page is seen, and for want of memory exactly on a write-protected page with another user when no frame is free |
| PageManager.Manager.PutPage | mm/mm.c:193-219 | a page that one user is counted for is in the table, which is new if there was none, in the next free frame; any other page is refused, and this one exactly if a table is needed and no frame is free |
| PageManager.Manager.GetEmptyPage | mm/mm.c:231-239 | a program gets a new page exactly if there is a frame for it, and a second one if there is no page table; the invariant holds afterwards if and only if it had no page at the address and that second frame held no present-looking word but the one overwritten; then the new page is seen at the 4096 addresses of the page and all others show what they showed |
| PageManager.AddressParts | mm/mm.c:182-219 | an address is its directory entry times 4 MB, its table entry times 4 KB, its word times 4 and its byte, each below 1024 |
| PageManager.SameParts | mm/mm.c:182-219 | addresses in one 4 MB, one page or one word are exactly those with the same parts |
| PageManager.TablesTouched | mm/mm.c:94-129 | the directory entries that a call works on are those of the addresses in its range, whole tables or not |
| PageManager.CopySeen | mm/mm.c:117-159 | what eager copying of directory entries does, address by address |
| PageManager.EagerCopyAt | mm/mm.c:129-158 | each target entry is the source entry, and no other has changed |
| TableCopying.SafeDir | mm/mm.c:132-155 | a directory entry copied within the guard: sound, and to every program as if each page had been copied, though words of the new table that the copy overwrites were not clean |
| CopyTracking.StepExactly | mm/mm.c:132-155 | a directory entry copied in any state: whatever was there keeps its links, and each new table is the frame get_free_page gives out, filled where the source has entries and else as it was, unless a page in use became a table |
| CopyTracking.SoundIsSafe | mm/mm.c:117-159 | a sound end comes only from a start inside the guard: an overflow, a stray word or a page that became a table leaves a count that is not the number of users, or a page with a second user |
| PageManager.CopyThenFree | mm/mm.c:84-159 | copying and then freeing the copy puts every count back and leaves every slot with its frame |
| CallRuns.Execute | mm/mm.c:84-239 | a run of calls to copy and free page tables, for new pages and of stores by programs is carried out up to the first that is outside CopySafe or EmptyPageSafe, or refused; the invariant holds then, and the programs see what they would see if every copy had been made at once, which CallSeen states address by address |
| CallRuns.CallSeen | mm/mm.c:84-239 | what each call of the run does to what is seen at an address: a copy shows what was seen at its original, a freed range nothing, a new page its contents, a store the value |
| CallRuns.RangeIs | mm/mm.c:84-129 | which calls the run takes: from 32 MB to 4 GB, page tables at multiples of 4 MB, source and target apart |
| CallRuns.Serve | mm/mm.c:84-239 | one call is carried out exactly if it is proper, which is told from the counts and tables before it |
| CallRuns.CheckTables | mm/mm.c:53-67 | whether the frames that get_free_page will give out for the new tables are there and fit to be tables |
| CallRuns.CheckCounts | mm/mm.c:149-152 | whether a count would pass 255 |
| CopyTracking.EndFits | mm/mm.c:117-159 | a copy within the guard that returns had a frame for each new table and no table in its way; BodyRunsOut and BodyFull say that it fails without |
| PageManager.NewTableNeedsCleanFrame | mm/mm.c:138-140 | a free frame can become a page table exactly if it holds no present-looking word |
| PageManager.SharingNeedsRoom | mm/mm.c:149-152 | sharing keeps the invariant exactly if the unsigned char count was below 255 |
| PageManager.OverwriteLeaks | mm/mm.c:216 | mapping over a present entry leaves the old page counted for ever |
| Screen.StepStaysOk | kernel/console.c:281-387 | the cursor stays on the grid exactly unless one of three cursor keys pushes it off |
| Screen.StepEffect | kernel/console.c:281-387 | what a byte does to cursor and cells: 10 to 13 go to column 0 of the next line or move the rows up; a character changes exactly the cursor cell, on the next line from column 80; a tab goes to the next multiple of 8; a backspace blanks exactly the cell it moves to; each cursor key has its displacement; the bell nothing |
| Screen.KeysUndo | kernel/console.c:321-367 | LEFT takes back RIGHT and UP takes back DOWN, wherever the cursor stays on the grid |
| Screen.WriteAppends | kernel/console.c:277-390 | text is written byte by byte, in order: a text in two parts is the first and then the second |
| Screen.ScreenfulOfSpaces | kernel/console.c:57-69 | 2000 spaces leave nothing but spaces, wherever the cursor was |
| Console.RowsUp | kernel/console.c:75-88 | one row on with a blank row behind shows as the grid scrolled up |
| Console.RowsDown | kernel/console.c:104-119 | a blank row in front and one row less shows as the grid scrolled down |
| Console.Display.GotoXY | kernel/console.c:37-45 | the cursor moves exactly if the position is on the grid or pending at column 80 |
| Console.Display.Slide | kernel/console.c:75-84 | the window moves a row on, or its last 24 rows are copied back to the start of video memory |
| Console.Display.EraseWords | kernel/console.c:87 | the row is blank |
| Console.Display.ScrUp | kernel/console.c:73-88 | the window scrolls like a plain grid, across the copy-back too |
| Console.Display.ShiftRows | kernel/console.c:106-117 | the backward string move shifts all rows but the last down |
| Console.Display.ScrDown | kernel/console.c:104-119 | the window scrolls down like a plain grid |
| Console.Display.Lf | kernel/console.c:121-129 | down a line, or scroll |
| Console.Display.Del | kernel/console.c:147-154 | back one cell, which becomes blank; nothing at column 0 |
| Console.Display.Tab | kernel/console.c:306-315 | to the next multiple of 8, on the next line past column 80 |
| Console.Display.Print | kernel/console.c:376-386 | one character and its attribute, after wrapping from column 80 |
| Console.Display.Key | kernel/console.c:321-367 | the cursor keys, and exactly which of them leave the grid |
| Console.Display.PutChar | kernel/console.c:281-387 | for every byte: the window follows the grid, every store lies in it, the cursor leaves exactly in the three cases, and the cursor and the cells are those that Effect names for the byte |
| Console.Display.ConWrite | kernel/console.c:277-390 | a whole string does to the window what it does to the plain grid, byte by byte as StepEffect and WriteAppends say |
| Console.Display.Cls | kernel/console.c:57-69 | every visible cell a space and the cursor at the top left, from every state |
| Console.Display.constructor | kernel/console.c:242-268 | con_init: the geometry, a cleared screen, the cursor at the top left |
| Console.LeftFromTheCorner | kernel/console.c:298-304 | LEFT at the top left leaves the column at 80, from where a backspace would store below video memory |
| Numerals.DigitsDenote | lib/vsprintf.c:69-73 | the generated digits are digits of the base and denote the number |
| Numerals.DigitsAreShort | lib/vsprintf.c:69-73 | they start with 0 only for 0 |
| Numerals.DigitsAreFew | lib/vsprintf.c:50-73 | a number below 2 to the k has at most k digits in any base |
| Vsprintf.WordDigits | lib/vsprintf.c:50 | 32 digits at most, so tmp is never too small |
| Vsprintf.FormatLength | lib/vsprintf.c:64-98 | the length is the maximum of the width and sign, prefix and the larger of precision and digit count |
| Vsprintf.FormatPrints | lib/vsprintf.c:47-99 | the text is blanks, sign, prefix, digits, blanks; which sign and prefix, from number and flags; digits of the base and the case asked for, with the value of the number, at least as many as the precision; blanks in front only without LEFT and ZEROPAD, behind only with LEFT, and more zeros only with ZEROPAD and not LEFT, each only to fill the width exactly |
| Vsprintf.PrintsOne | lib/vsprintf.c:47-99 | there is only one such text |
| Vsprintf.Edges | lib/vsprintf.c:76-97 | with LEFT or ZEROPAD the text starts with a blank exactly if that is the sign, and has none behind it without LEFT; without LEFT it ends with a digit; with LEFT it starts with the sign |
| Vsprintf.ReadBack | lib/vsprintf.c:47-99 | a reader that knows only the base gets the number back, under every width, precision and combination of flags, the most negative int included |
| Vsprintf.AtoiOfNumber | lib/vsprintf.c:17-24 | skip_atoi reads the digit field of a decimal print as its magnitude exactly when that is an int, and stops at its end |
| Vsprintf.SkipAtoi | lib/vsprintf.c:17-24 | the loop computes the value of the run of digits on 32 bits and moves behind it |
| Vsprintf.Generate | lib/vsprintf.c:69-73 | the digits in tmp, read backwards, are the number |
| Vsprintf.Fill | lib/vsprintf.c:76-97 | one padding loop stores as many characters as its count, and leaves the count negative |
| Vsprintf.PutDigits | lib/vsprintf.c:94-95 | the digits go out most significant first |
| Vsprintf.Emit | lib/vsprintf.c:76-98 | blanks, sign, prefix, zeros, digits, blanks, in that order |
| Vsprintf.Number | lib/vsprintf.c:47-99 | the text lies in the buffer from str on and nothing else has changed; it is the one text that Prints describes; a base outside 2 to 36 gives null |
| Bitmap.SetBit | lib/bitopts.c:13-23 | the bit is set, all others are as they were, and the result is the old bit |
| Bitmap.ClearBit | lib/bitopts.c:28-38 | the bit is clear, all others are as they were, and the result is the old bit |
| Bitmap.TestBit | lib/bitopts.c:40-48 | the mask or zero; 1 only for the lowest bit of a byte |
| Bitmap.FindFirstZero | lib/bitopts.c:50-69 | the least clear bit, or -1 if all are set |
| Ownership.TakeStep | fs/tfs/file.c:56-62 | a free block that becomes a pointer keeps every block with one owner, and leaks none |
| Ownership.LeakStep | fs/tfs/dir.c:107-111 | a block taken and given to nobody is lost |
| Ownership.AstrayStep | fs/tfs/dir.c:107-113 | a pointer outside the volume breaks ownership |
| Ownership.BornStep | fs/tfs/inode.c:47-82 | a fresh inode keeps ownership |
| Ownership.ReleaseStep | fs/tfs/inode.c:30-40 | releasing an inode keeps ownership, and leaks nothing exactly if its nonzero pointers form a prefix |
| Directory.SlotTaken | fs/tfs/dir.c:121-128 | a free slot taken under a new name adds that name to the map and nothing else |
| Directory.SlotFreed | fs/tfs/dir.c:221-222 | a freed slot takes its own name away and nothing else |
| Directory.EntriesCount | fs/tfs/dir.c:122 | as many names as taken slots |
| DirEntries.EntryReads | fs/tfs/dir.c:126-128 | an entry as it is stored reads back as its number and name |
| DirEntries.SlotStored | fs/tfs/dir.c:126-128 | storing 32 bytes changes one slot of the directory |
| DirEntries.SlotZeroed | fs/tfs/dir.c:221 | clearing d_inode frees that slot |
| DirEntries.MatchIsExact | fs/tfs/dir.c:15-23 | for names up to 28 bytes the match holds exactly for the slot of that name |
| DirEntries.LongNameMatches | fs/tfs/dir.c:15-23 | a 29-byte name matches another name whose next slot holds a small inode number |
| DirStore.SlotSeen | fs/tfs/dir.c:47-66 | what a scan sees in a block is the slot of the whole directory |
| DirStore.AddSlotLists | fs/tfs/dir.c:88-128 | the slot add_entry chooses, old or in a new block, adds the name to the map |
| DirStore.BlockAdded | fs/tfs/dir.c:113-128 | a cleared new block adds one entry and free slots at the end |
| TfsState.AddHere | fs/tfs/dir.c:88-131 | an entry in a free slot: ownership, all directories and their sizes stay good, and nothing but the directory changes |
| TfsState.AddThere | fs/tfs/dir.c:102-131 | the same for an entry in a new block |
| TfsState.RemoveHere | fs/tfs/dir.c:217-222 | the same for an entry that goes away |
| TfsState.OwnStore | fs/tfs/file.c:98-102 | a store into one of its own blocks changes no other file or directory |
| TfsState.SameContent | fs/tfs/file.c:98-102 | a file that was not touched has the same bytes |
| TfsState.EmptyDirIsExact | fs/tfs/dir.c:170-178 | i_size is 32 times the number of names, so is_empty_dir is exact |
| TfsState.RemovedDirTight | fs/tfs/dir.c:190-226 | removing a directory leaks no block |
| Tree.FileKeepsTree | fs/tfs/inode.c:200-238 | a new name for a new inode keeps a namespace a tree: no dangling entry, one name for each inode, right dots, every directory below the root |
| Tree.DirKeepsTree | fs/tfs/dir.c:138-165 | so does a new directory |
| Tree.PruneKeepsTree | fs/tfs/dir.c:190-275 | so does removing a file, or a directory that lists nothing of its own |
| Tree.TargetInTree | fs/tfs/dir.c:190-275 | in a tree every name leads to an allocated inode, and to the directory itself exactly if it is its dot or one of the root's two |
| Tree.FromTheRoot | fs/tfs/dir.c:138-275 | in a tree a finite chain of entries leads from the root to every directory |
| Tree.TidyFile | fs/tfs/inode.c:200-238 | and keeps it tidy: a tree, and beside it at most blank directories that nobody lists |
| Tree.TidyDir | fs/tfs/dir.c:138-165 | so does a new directory |
| Tree.TidyPrune | fs/tfs/dir.c:190-275 | so does removing a file or an empty directory |
| Tree.TidyBlank | fs/tfs/inode.c:200-238 | so does a blank directory that nobody lists, as a failed mkdir leaves it |
| Namespace.TreeEmpty | fs/tfs/dir.c:170-178 | in a tree the size test says exactly whether a directory lists anything of its own |
| FreshVolume.RootMade | fs/tfs/dir.c:71-135 | from a blank volume with a root directory all the invariants hold |
| Namespace.SelfRemovalBreaksTree | fs/tfs/dir.c:190-226 | a directory that has removed itself is still listed by its parent, or was the root: no tree is left |
| FreshVolume.RootRemovesItself | fs/tfs/dir.c:190-226 | rmdir of the dot of an empty root is such a removal, and reports success |
| Namespace.NotMadeTree | fs/tfs/inode.c:200-238 | a mknod that fails after it has taken the inode leaves a tree a tree |
| Namespace.OutcomeInTree | fs/tfs/dir.c:181-232 | in a tree every name leads to an allocated inode, and rmdir removes exactly a directory that lists only its dots |
| Namespace.BlankDirBreaksTree | fs/tfs/dir.c:138-165 | a directory without dots that some directory lists, as mkdir leaves it when the disk fills in between, is no tree |
| DirStore.SeekFinds | fs/tfs/dir.c:31-69 | the first match of the scan is an entry under the spelled name, and there is none exactly if the directory does not list that; only names longer than 28 bytes are spelled differently |
| Tfs.Volume.AllocBlock | fs/tfs/balloc.c:43-65 | the target if it is free, or else the least free block; its bit and no other is set; -ENOSPC exactly if none is free |
| Tfs.Volume.FreeBlock | fs/tfs/balloc.c:24-38 | the bit and no other is clear |
| Tfs.Volume.AllocInode | fs/tfs/ialloc.c:44-79 | the result was free exactly unless the target was in use and its bit is not the lowest of a byte |
| Tfs.Volume.FreeInode | fs/tfs/ialloc.c:26-42 | the bit and no other is clear |
| Tfs.Volume.NewInode | fs/tfs/inode.c:47-82 | a free number and an inode without blocks |
| Tfs.Volume.IWrite | fs/tfs/inode.c:172-189 | the table has the inode as it is in memory |
| Tfs.Volume.IGetByInr | fs/tfs/inode.c:115-138 | the inode in memory is the one in the table |
| Tfs.Volume.ReleaseInode | fs/tfs/inode.c:16-44 | the number is free, and exactly the blocks up to the first zero pointer are; nothing leaks if and only if the pointers form a prefix |
| Tfs.Volume.FindEntry | fs/tfs/dir.c:31-69 | an entry under the name as the directory spells it, or none exactly if it does not list that; up to 28 bytes the spelling is the name |
| Tfs.Volume.FindFree | fs/tfs/dir.c:82-100 | the first free slot, or the index after the last block |
| Tfs.Volume.StoreEntry | fs/tfs/dir.c:121-134 | one more name, in a slot the directory has |
| Tfs.Volume.StoreBlock | fs/tfs/dir.c:113-134 | one more name, in a new block |
| Tfs.Volume.AddEntry | fs/tfs/dir.c:71-135 | -ENAMETOOLONG exactly for more than 28 bytes; else done if a slot is free, or if not all eight pointers are used and a block is free; -EFBIG exactly if no slot is free and all pointers are used, with a free block lost; else -ENOSPC is stored as a pointer; the volume is given for each, and on success has one more name and the blocks it takes fewer |
| Tfs.Volume.AddBlock | fs/tfs/dir.c:102-135 | the rest of add_entry for a directory without a free slot |
| Namespace.AddEndsSo | fs/tfs/dir.c:71-135 | which of these ends it is, over slots, pointers and bits |
| Namespace.StrayedIs | fs/tfs/dir.c:107-113 | the pointer that goes astray is the first that was zero, and becomes -28 as an unsigned number |
| Tfs.Volume.StartInode | fs/tfs/inode.c:215-222 | a fresh inode, written to the table, which the directory does not feel |
| Tfs.Volume.EnterInode | fs/tfs/inode.c:223-234 | the entry for it, and the directory written to the table; or exactly what is left when there is none |
| Tfs.Volume.MkNod | fs/tfs/inode.c:200-238 | -EEXIST exactly if the name is found, -ENOSPC exactly if all inodes are in use, else one of add_entry's ends by the length of the name, the slots, the pointers and the block bitmap; on success the map has one more name, for an inode that was free; any later failure costs an inode number, and the volume is given for each; the namespace stays a tree exactly unless a directory, which has no dots yet, was made |
| Tfs.Volume.EnterDots | fs/tfs/dir.c:150-159 | the two entries of a new directory, done exactly if there is a free block; else the directory stays blank and its first pointer goes astray |
| Tfs.Volume.MkDir | fs/tfs/dir.c:138-165 | -EEXIST, -ENOSPC, -ENAMETOOLONG and -EFBIG exactly as for mknod; done exactly if none of them and there are blocks free for the dots and, without a free slot, for the parent's entry; then the parent has one more name, for a directory that lists exactly itself and its parent; for every other result the volume that is left; the namespace stays a tree exactly unless the blocks run out between the parent's entry and the dots |
| Tfs.Volume.Detach | fs/tfs/dir.c:217-225 | the entry and the inode are gone, and nothing else has changed; the inode may be the directory's own |
| Tfs.Volume.RmDir | fs/tfs/dir.c:181-232 | -ENOENT exactly if the name is not listed, else -ENOTDIR, -ENOTEMPTY, -EINVAL or done exactly by the mode and the i_size, above, below or at 64, of what it leads to; only that name goes; no block leaks; a tree stays a tree if and only if it is not the case that the name leads to the directory itself and that lists only its dots |
| Namespace.SizeDecidesSo | fs/tfs/dir.c:170-214 | counting the names and looking at i_size decide the same |
| Tfs.Volume.Unlink | fs/tfs/dir.c:235-275 | a file goes with its name only; anything else changes nothing; a tree stays a tree |
| Tfs.Volume.ReadDir | fs/tfs/dir.c:279-315 | the next entry in use, none skipped |
| FileState.Grow | fs/tfs/file.c:56-62 | a taken block becomes the end of the file |
| FileState.WriteOver | fs/tfs/file.c:68-77 | a store into a block replaces that stretch of the file |
| FileState.OlderRecord | fs/tfs/file.c:85-107 | with the record in the table, which has fewer blocks than the inode in memory, the volume is good, and tight exactly if it has them all |
| FileState.OlderWhole | fs/tfs/file.c:85-107 | and the record's bytes are the first of the file's |
| FreeBlocks.OneLess | fs/tfs/balloc.c:55-57 | taking a free block leaves one free block fewer |
| FileData.File.BlockFor | fs/tfs/file.c:54-67 | the block for an index, mapped or taken now; -EFBIG exactly past the eighth, -ENOSPC exactly if none is free |
| FileData.File.WriteBlock | fs/tfs/file.c:56-77 | one block of the file, and the size set to its end |
| FileData.File.WriteRest | fs/tfs/file.c:79-107 | the loop over the other blocks, and the inode written back, or where it stops |
| FileData.File.Write | fs/tfs/file.c:42-110 | the file becomes its bytes before the offset followed by the bytes written; it fails exactly if the write needs more blocks than there are or an inode can have, and then the blocks that there are have been written, in memory only the file ends with them, and the table is as it was; so a tight volume stays tight when the file is closed exactly if the write succeeds or took no block; nothing else on the volume changes |
| FileData.WriteCutsOff | fs/tfs/file.c:74 | what is left is the overwritten file exactly if the write reaches the old end |
| FileData.File.Read | fs/tfs/file.c:10-38 | whole blocks of the file from the offset on, as many as asked for or there are |
| FileData.File.ReadFrom | fs/tfs/file.c:25-37 | the loop of tfs_read |
| FileData.File.SysRead | fs/file.c:62-89 | as many bytes as asked for or left, and what is in the buffer in every case: the file's bytes from the offset on as far as the blocks that were asked for reach, and behind that what the buffer held; the rest of the blocks read stay behind them |
| FileData.File.AlignedInBlocks | fs/file.c:79 | at the start of a block the blocks asked for reach to the end of the bytes |
| FileData.DeliveredRight | fs/file.c:78-86 | the bytes read are the file's exactly if the blocks asked for reach to their end or the buffer happened to hold the rest |
| FileData.UnalignedRead | fs/file.c:78-86 | 512 bytes read from offset 1 of a file of two blocks of 512: the last one is not the file's |
| FileData.File.SysWrite | fs/file.c:91-111 | the file becomes its bytes before the offset followed by whole blocks from the buffer, and the offset moves by the count; or it fails as tfs_write does |
| Copying.TooFew | fs/tfs/tfs_cmd.c:109-116 | a write fails only when the target has all the blocks there are and they are too few for the source |
| Copying.ReadChunk | fs/tfs/tfs_cmd.c:109 | the next 1024 bytes of the source, or what is left |
| Copying.WriteChunk | fs/tfs/tfs_cmd.c:111 | the chunk is in the target and the target in the table, exactly if there are blocks for it; else the table is as it was; the source is as it was |
| Copying.Cp | fs/tfs/tfs_cmd.c:88-120 | cp ends; the source is unchanged; the target starts with its bytes, in the table too, if and only if the free blocks and its own were enough; otherwise its record is exactly that of CutShort; and blocks are lost when it is closed if and only if NoneLost does not hold |
| Copying.AfterChunk | fs/tfs/tfs_cmd.c:109-116 | once a chunk has not fitted none does, and the offset stays, but for a shorter last chunk that fits there |
| Copying.CopyLoses | fs/tfs/tfs_cmd.c:109-119 | a used block has no owner at the end exactly if the blocks were too few, some were free, they did not fill whole chunks, and the last chunk did not fit in their place |
| Copying.CutInBytes | fs/tfs/tfs_cmd.c:109-119 | NoneLost and what CutShort speaks of, in bytes: the largest multiple of 1024 that the blocks hold, the last chunk of (n - 1) % 1024 + 1 bytes, and when that fits behind it |
| Copying.CpLosesBlock | fs/tfs/tfs_cmd.c:109-119 | a source of two blocks, an empty target and one free block: the block is lost and the target is empty |
| Copying.LoadPage | fs/exec.c:51 | the next 4096 bytes, in place |
| Copying.Load | fs/exec.c:51-52 | the loop ends with the whole program in memory, in order |
| Namei.PathComponents | fs/namei.c:22-45 | the components of a path are its parts, however many slashes lead, separate and follow them |
| Namei.ParentThenLast | fs/namei.c:34-52 | the lookup of the parent followed by the last component is the whole lookup |
| Namei.ScanPart | fs/namei.c:34-43 | the next component, or an error exactly if it is longer than 255 |
| Namei.Namei | fs/namei.c:14-69 | the fold of iget over the components up to the first error, the parent on request; with LOOKUP_CREATE the first missing component is made, be it the last or not; and it is the one end that Reaches describes |
| Namei.ResolvedReaches | fs/namei.c:34-65 | there is a chain of directories, each found in the one before under the next component, and the walk ends in the last: with all components found, before the last on request, or at the first that is too long or not found |
| Namei.ReachesOne | fs/namei.c:34-65 | only one result ends such a chain |

## Left out
- HeapAllocator.Allocator.Malloc: sizes are 32-bit ints as in C, but the words of a payload are unbounded integers.
- HeapRuns.Execute: stops at the first request outside the guards; BlockGivenTwice and WholePoolFaults are two runs that go on.
- PageManager.Manager.CopyPageTables: ranges that overlap or lie below the program area are excluded.
- EagerCopying.LazyLooksEager: a new table is clean when it is made; CallRuns.Execute has no such condition.
- PageManager.Manager: the directory is one array apart from the frames. The functions of mm/mm.c reach it from address 0, where setup_page does not put it: it installs the one at PG_DIR, frame 0x800, which only KernelFrames takes into account.
- PageManager.Manager.UserStore: the processor's check of the entry is part of the model; translation caches and their invalidation are not.
- BlockCache.Cache.Execute: at least two slots and a disk that does not fail; Request and Update say what a failure does.
- Console.Display.PutChar: what a further character does once the cursor has left the grid is not modelled; the hardware cursor registers are not either.
- Console.Display.ConWrite: requires that the cursor stays on the grid.
- Console.Display.ScrUp: the branch for a scroll region other than the whole screen; nothing that con_write calls sets one.
- Vsprintf.Number: width and precision are unbounded, so the overflow of size - precision is not modelled.
- Vsprintf.SkipAtoi: overflow wraps on 32 bits, as the compiled code does.
- Bitmap.FindFirstZero: the source reads the word behind the buffer before it compares the pointers; here the comparison comes first, with the same result.
- DirEntries.MatchEntry: what follows a full-length name in the last slot of a block is taken to end the name, and a longer name not to match there.
- Tfs.Volume.MkNod: allocation of the in-memory inode does not fail; once a pointer has gone astray the model ends.
- Tfs.Volume: blocks are at least 512 bytes, as the shift by s_block_shift - 9 in fs/tfs/tfs_diskio.c demands.
- Tfs.Volume.RmDir: the name, if it is there, leads to an allocated inode; in a tree it always does.
- Tfs.Volume.Unlink: the same.
- Tfs.Volume.ReadDir: offsets that are multiples of the entry size.
- FileData.File.Write: offsets within the blocks of the file and no gaps between its pointers; a read or write of the device does not fail.
- FileData.File.SysRead: the buffer holds the whole blocks that the code reads into it, and the offset in the first block behind it.
- Copying.Cp: starts after both files are open, for a block size that divides 1024 and two different inodes; when no chunk fits, what the failed writes have stored in blocks that the target had already is not stated.
- Copying.Load: starts after the file is open, for a block size that divides 4096; the jump to the program is not modelled.
- Namei.Namei: iget is a function of name and directory; the panic for an unreadable root is not modelled.
- Time stamps, flags and owner of an inode, the place of its record in a block, and the free counts of the super block, which no operation updates.
- Device errors below the file system, and the geometry of sectors under a block.
- The lifetime of in-memory inodes, the table of file descriptors, lseek, and the error paths of sys_open.
- tfs_mount and the image that mkfs writes: Reserved states what is assumed of the bitmaps, and FreshVolume that the rest can be met.
- Scan indexes past the eighth pointer, which the source reads from behind the array: taken to be zero, as tfs_bmap does.
- vsprintf's format parsing and %s, do_no_page, setp, check_mem, the kernel's own identity mapping.
- Timers, keyboard buffer, shell, ext2, floppy and DMA drivers, boot code: hardware, user interface, or not built.
