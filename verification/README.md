# The kernel memory manager of 64b-OperatingSystem, verified

This project models the memory manager of the 64b-OperatingSystem kernel, from the bits of its
allocation bitmaps up to `kmalloc` and `kfree`, and the number formatting of its string library.
Code that changes state is a class with methods that follow the C statement by statement; each method
is proved against a specification, and the lemmas say what the specifications mean over whole calls and
whole runs.

## How the layers fit

| file | what it models |
|---|---|
| `Bitmaps.dfy` | `bitmap.c` on an array of bytes, and `bitmap_alloc`; the meaning is a sequence of bools, bit k being the digit of weight 2^(k % 8) of byte k / 8 |
| `Words.dfy` | C's bit operators on 64-bit words, defined bit by bit, and the arithmetic value of every mask used |
| `Layout.dfy` | the constants of `memory.h` and the pool arithmetic of `init_memory` |
| `PoolRuns.dfy` | the contracts of `palloc` and `pfree`, and every run of them on the three physical pools |
| `PageTables.dfy` | the MMU's translation and access rights (sections 4.5 and 4.6 of the Intel 64 and IA-32 Architectures Software Developer's Manual, Volume 3A) over 512-entry frames, and the macros that reach the tables through PML4 slot 511 |
| `TableEdits.dfy` | the page-table invariant, and what one edit does to every translation |
| `PagerModel.dfy` | the page allocator's invariant on values, and each step of its loops |
| `Boot.dfy` | the page tables that the loader leaves, as the starting state |
| `PageManager.dfy` | `palloc`/`pfree`, `valloc`/`vfree`, `page_table_add`/`page_table_remove`, `page_alloc`/`page_free` |
| `PagerTheorems.dfy` | alloc-then-free, conservation, what an exhausted pool does |
| `LinkedLists.dfy` | `linkedlist.c` and `memset` on byte-addressed memory cells |
| `SlabGeometry.dfy` | where items lie in a slab; recovering slab, item and class from an address |
| `HeapModel.dfy`, `HeapTheorems.dfy` | `kmalloc`/`kfree` as a state machine, and its theorems over every run |
| `HeapMemory.dfy`, `HeapQuiet.dfy` | how slabs and caches lie in memory, and that live blocks are never disturbed |
| `HeapTotals.dfy` | what `cache->total` counts, over every run |
| `KernelHeap.dfy` | `slab.c`, `kmalloc`, `kfree` and the slab part of `init_memory` |
| `ExhaustedHeap.dfy` | `kmalloc` when it needs a page and there is none |
| `Numerals.dfy`, `Strings.dfy`, `Formatting.dfy` | positional numerals; `reverse`, `itoa`, `ulltoa`; `vsprintf` |

The four bitmaps are kept as arrays of bytes. In the kernel they lie in physical memory from 0x8000 on,
where the boot page tables also lie; `AfterBitmaps` is what clearing them does to that memory, and the
pager starts from its result. Above 34515 pages that result is an idealisation, since the stores that follow
the loss of PML4 entry 0 are themselves translated through it; the model uses it there only to conclude that
the entry is gone and the invariant with it.

The pager keeps the page tables as `mem`, a map from frame and index to a 64-bit entry. Its ghost field
`role` names the table that a frame serves as, and `phys` the core page of each allocated virtual page.
The heap keeps its memory in `ram`, keyed by virtual address; `MappedAddressesDistinct` and
`MappedAddressIsData` show why that is sound for the virtual pool: distinct mapped addresses reach distinct
bytes, and none of them reaches a page table; `AllocKeepsData` and `FreeKeepsData` add that the page
allocator never changes what an allocated page holds. The sixteen caches lie in the kernel image, which the pager
never maps anew: `KernelImageApart` shows that its addresses keep translating by their offset, to bytes
below all pools and in no page table. A page from `page_alloc` holds arbitrary data.

## What the proofs found

- `bitmap_alloc` answers 0 both for success at index 0 and for failure, so the tests `if(!vaddr)` and
  `if(!paddr)` in `page_alloc` never see a failure (`AllocAnswersFreeBits`, `FullAndEmptyAlike`).
  The pages that `page_alloc` answers were free exactly when the virtual pool has a run of that length
  (`AnswerNamesFreePages`). Nothing else can then run out: conservation supplies the core pages and
  `EnoughForPageTables` the 4 KB frames. On a full pool it maps page 0, which is in use, to core page 0, and
  the invariant survives only if it was mapped there before (`PageAllocWhenFull`).
- `kmalloc` relies on the same tests. The page it gets is a new one, and meets no live block and no slab
  header, exactly when the virtual pool has a free page (`AnsweredPage`, `RunExact`). Otherwise it goes on with
  page 0, which is in use: a large block is a live block handed out a second time or a slab wiped out, and a
  small one lies behind a new slab header stored into that page (`KmallocWhenFull`). This can be the very
  first call: with 42 to 62 counted pages the sixteen caches take every page (`FewCorePages`), as on a machine
  with 128 MB (`SmallMachine`), so `InitHeap` leaves a free page exactly from 63 pages on.
- `init_memory` clears bitmaps that grow upwards from 0x8000 without regard to what lies there. They reach
  the boot page tables at 0x90000, and destroy PML4 entry 0, exactly from 34516 pages on
  (`BitmapsSpareTables`; `BitmapsOverTables` is a machine with 128 GB). The invariant of the page allocator
  then holds exactly up to 34515 pages. From 62936 pages on they reach the kernel image
  (`BitmapsBelowKernel`).
- `PDE_ITEM_MASK` keeps bits 59..21 of an entry, but a physical address has 52 bits. `V2P_2MB` is the MMU's
  translation exactly for entries with bits 59..52 clear (`V2PIsTranslation`; `V2PHighBit` is an entry where
  it is wrong). The page-table invariant shows that `page_table_add` only writes such entries.
- The bitmaps stay below the interrupt descriptor table, which `init_intr` fills later, exactly up to 2031
  pages (`BitmapsBelowIdt`), and the core pool has enough pages for the sixteen caches exactly from 42 pages on
  (`EnoughForCaches`); the code checks neither. With 21 to 41 pages the ninth cache is formatted over the slab
  of an earlier one (`CacheOnUsedPage`); with fewer the pool has no bit at all and answers its first address
  to every call (`NoPageAtAll`).
- A slab of the largest class has one item, and `slab_free` tests `total_free == 1` first, so the page of
  such a slab is never given back (`PageReleased`, `OneItemClass`).
- `pfree` compares the address with the number of pages and not of bits. It stays inside the bitmap for every
  address that it accepts exactly when the pool has no more pages than bits (`EveryAddressAllowed`);
  otherwise it clears a bit of the next bitmap (`TailPageFreed`).
- `kfree` takes a large block for a slab exactly when its client left the slab magic at the header's offset
  (`KfreeRoute`; `MisleadKfree` gets there with one `kmalloc` and one store); `kmalloc` returns no block with a
  stale magic word.
- `cache->total` is not lowered when a slab is released. Over every run it counts the items of the slabs
  present and of all slabs released before (`RunTally`), in 32 bits. The stored field is the number of carved
  items exactly if the items of the released slabs are a multiple of 2^32 (`StoredTotal`); after
  `init_memory` one `kmalloc` and one `kfree` make it wrong (`TotalOutlivesSlab`). `cache->total_free` is the
  sum over the cache's slabs at all times.

## Model

| member | source | states |
|---|---|---|
| Bitmaps.Bitmap.constructor | kernel/lib/bitmap.c:5-12 | every bit of the buffer is clear afterwards |
| Bitmaps.OneBitChanged | kernel/lib/bitmap.c:16-23 | rewriting one byte with a one-bit mask changes that bit of the bit sequence and no other |
| Bitmaps.BitOfValue | kernel/lib/bitmap.c:64 | the shift and mask read the binary digit of weight 2^bit |
| Bitmaps.PutBitValue | kernel/lib/bitmap.c:21-22 | the masks add or subtract the weight of that bit, or leave the number as it is |
| Bitmaps.Bitmap.Set | kernel/lib/bitmap.c:16-23 | one bit takes the value, all others stay: the number in its byte changes by the weight of the bit or not at all, and no other byte changes |
| Bitmaps.Bitmap.SetMany | kernel/lib/bitmap.c:25-38 | exactly the range takes the value, or nothing changes when the range does not fit |
| Bitmaps.SkipFullByte | kernel/lib/bitmap.c:53-57 | the 0xFF skip loses no run: none of the wanted length starts in or before the byte |
| Bitmaps.ScanBit | kernel/lib/bitmap.c:60-71 | one bit of the scan completes the first run, or keeps the fact that no earlier run exists |
| Bitmaps.Bitmap.ScanByte | kernel/lib/bitmap.c:60-71 | a run carried in from the byte before is completed at its first start or carried on |
| Bitmaps.Bitmap.Scan | kernel/lib/bitmap.c:43-76 | the least index that starts cnt clear bits, counted from the least significant bit of byte 0, and -1 exactly when there is none |
| Bitmaps.Bitmap.Alloc | kernel/memory/memory.c:134-143 | the first free run is taken, bit for bit; without one the bitmap is unchanged and the answer is 0 |
| Bitmaps.AllocAnswersFreeBits | kernel/memory/memory.c:138 | the answer names free bits if and only if a run of that length exists |
| Bitmaps.FullAndEmptyAlike | kernel/memory/memory.c:138-142 | a full and an empty bitmap give the same answer, so failure cannot be told from success |
| Bitmaps.ClearUndoesSet | kernel/memory/memory.c:134-143 | allocating a run and clearing that range is the identity on the bitmap |
| Bitmaps.SetRangeOnes | kernel/memory/memory.c:140 | an allocation adds exactly the chosen bits, and the population count grows by exactly cnt |
| Bitmaps.ClearRangeOnes | kernel/lib/bitmap.c:28-31 | clearing removes exactly the range from the set bits |
| Bitmaps.OnesBound | kernel/lib/bitmap.c:43-76 | a free bit exists if and only if fewer bits are set than there are |
| Layout.AlignUp2MBValue | kernel/memory/memory.h:25-26 | the mask expression rounds up to a multiple of 2 MB |
| Words.AlignUpLeast | kernel/memory/memory.h:25-26 | rounding up gives the least multiple that is not below the address |
| Layout.PoolSizes | kernel/memory/memory.c:48-65 | page counts as plain arithmetic on the counted pages, with no wrap-around; byte counts are those of the pages cut to 32 bits |
| Layout.BootSizes | kernel/memory/memory.c:63-65 | below 1 TB no byte count is cut |
| Layout.PoolsPartitionMemory | kernel/memory/memory.c:67-108 | user, core and 4 KB pools are contiguous, disjoint, 2 MB aligned and end inside the counted memory; the bitmaps follow each other and never have more bits than their pool has pages |
| Layout.BitmapsBelowIdt | kernel/memory/memory.c:74-105 | the bitmaps end at or below 0x10000, where the IDT starts, if and only if at most 2031 pages are counted |
| Layout.BitmapsBelowTables | kernel/memory/memory.c:74-105 | the bitmaps end at or below the boot page tables if and only if at most 34515 pages are counted |
| Layout.BitmapsOverTables | kernel/memory/memory.c:74-105 | a machine with 128 GB, where they do not |
| Layout.BitmapsBelowKernel | kernel/memory/memory.c:74-105 | the bitmaps end at or below the kernel image if and only if at most 62935 pages are counted |
| Layout.EnoughForCaches | kernel/memory/memory.c:113-118 | the core pool has a page for each of the sixteen caches if and only if at least 42 pages are counted |
| Layout.FewCorePages | kernel/memory/memory.c:53-65 | the core bitmap has no bit exactly up to 20 counted pages, 8 bits from 21 to 41, and 16, one for each cache, from 42 to 62 |
| Layout.SmallMachine | kernel/memory/memory.c:48-65 | a machine with 128 MB has 62 pages and 16 bits in the core bitmap |
| Layout.EnoughForPageTables | kernel/memory/memory.c:214-235 | the 4 KB pool has a frame for every page directory that the whole virtual pool can need |
| PageTables.MacroAddresses | kernel/memory/memory.h:38-40 | the three macros give the linear addresses of the entries for the address's own indices |
| PageTables.RecursiveWalk | kernel/memory/memory.h:38-40 | walking these addresses through slot 511 reaches exactly PML4[i4], PDPT[i3] and PD[i2] of the address |
| PageTables.ExistsIsPresent | kernel/memory/memory.c:221 | the PG_EXIST test is the MMU's present bit |
| PageTables.TableEntryValue | kernel/memory/memory.c:223 | the entry written for a new table is the frame address plus 7: present, no page, and with both access rights |
| PageTables.PageEntryValue | kernel/memory/memory.c:232 | the entry written for a page is paddr plus 0x87: a present 2 MB page based at paddr with both access rights and bits 59..52 clear |
| PageTables.ClearedValue | kernel/memory/memory.c:240 | masking with ~PG_EXIST takes away the present bit and nothing else |
| PageTables.V2PValue | kernel/memory/memory.h:42-43 | V2P_2MB is the page base plus the offset plus what bits 59..52 of the entry contribute |
| PageTables.V2PIsTranslation | kernel/memory/memory.h:35-43 | V2P_2MB is the MMU's translation if and only if bits 59..52 of the entry are clear |
| PageTables.V2PHighBit | kernel/memory/memory.h:35-43 | an entry with bit 52 set for which V2P_2MB gives a wrong address |
| TableEdits.PathsMeet | boot/loader.asm:190-192 | two paths use the same table exactly when their indices agree, slots 0 and 256 counted as one |
| TableEdits.TranslateData | kernel/memory/memory.c:214-235 | outside the recursive slot an address translates by its page-directory entry alone, with the access rights of that entry |
| TableEdits.DataEntryClean | kernel/memory/memory.c:232 | the entries that map data never have the bits set that V2P_2MB would take for address bits |
| TableEdits.StorePdeTranslation | kernel/memory/memory.c:232-240 | writing one page-directory entry changes the translation and access rights of that page and of no other |
| TableEdits.LinkPdpt | kernel/memory/memory.c:221-225 | linking and zeroing a fresh PDPT keeps the page-table invariant |
| TableEdits.LinkPdptTranslation | kernel/memory/memory.c:221-225 | ... and changes no translation and no access right |
| TableEdits.LinkPd | kernel/memory/memory.c:226-230 | linking and zeroing a fresh page directory keeps the page-table invariant |
| TableEdits.LinkPdTranslation | kernel/memory/memory.c:226-230 | ... and changes no translation and no access right |
| Boot.BootWellFormed | boot/loader.asm:190-216 | the loader's tables satisfy the page-table invariant |
| Boot.BitmapsSpareTables | kernel/memory/memory.c:84-105 | clearing the bitmaps leaves the loader's tables as they were up to 34515 pages, and from there on makes PML4 entry 0 not present |
| Boot.BootGeoOk | kernel/memory/memory.c:48-108 | the pools that init_memory computes have the geometry that the page allocator needs |
| Boot.BootInv | boot/loader.asm:190-216 | empty pools on intact tables of the loader satisfy the page allocator's invariant |
| Boot.NoTablesNoInv | boot/loader.asm:190-191 | without PML4 entry 0 the invariant does not hold |
| Boot.BootKernelMapped | boot/loader.asm:190-202 | the loader's tables translate every address of the kernel image by its offset, writable and for the kernel only |
| Boot.KernelStaysMapped | kernel/memory/memory.c:247-292 | page_alloc and page_free leave these translations as they are |
| Boot.KernelImageApart | kernel/memory/memory.c:29-30 | an address of the kernel image, where the caches lie, translates by its offset to a byte below all pools and in no page table |
| PageManager.Pager.constructor | kernel/memory/memory.c:48-108 | after the pools are set up every bitmap is empty, memory is the loader's with the bitmaps cleared in it (above 34515 pages an idealisation), and the invariant holds if and only if at most 34515 pages are counted |
| PageManager.Pager.Palloc | kernel/memory/memory.c:148-162 | the first free page of the pool is taken; a full pool answers its first page and changes nothing |
| PageManager.Pager.Pfree | kernel/memory/memory.c:165-183 | accepted exactly inside the pool's range, and then exactly that page's bit is cleared |
| PageManager.Pager.PallocIsTake | kernel/memory/memory.c:148-162 | a palloc with a free page is a step of the run theorem, on every pool |
| PageManager.Pager.PfreeIsGive | kernel/memory/memory.c:165-183 | a pfree of an outstanding page is allowed, is accepted and is a step of the run theorem, on every pool |
| PageManager.Pager.Valloc | kernel/memory/memory.c:187-197 | the first run of pg_cnt virtual pages is taken |
| PageManager.Pager.Vfree | kernel/memory/memory.c:200-211 | exactly the bits of the given pages are cleared |
| PageManager.Pager.ZeroTable | kernel/memory/memory.c:224-229 | writing through the recursive window zeroes exactly the new table frame |
| PageManager.Pager.LinkMissingPdpt | kernel/memory/memory.c:221-225 | a missing PDPT is the first free frame of the 4 KB pool, linked by its address plus 7; the invariant holds, no translation or access right has changed and no word outside the tables; nothing happens when it existed |
| PageManager.Pager.LinkMissingPd | kernel/memory/memory.c:226-230 | the same for the page directory |
| PageManager.Pager.PageTableAdd | kernel/memory/memory.c:214-235 | every offset of the 2 MB page translates to paddr plus the offset, writable and from every mode, by the entry paddr plus 0x87; every other data address translates as before, and no word outside the tables is written |
| PageManager.Pager.PageTableRemove | kernel/memory/memory.c:237-244 | exactly that page is unmapped, by taking just the present bit from its entry; no word outside the tables is written |
| PagerModel.RoomForCore | kernel/memory/memory.c:256-261 | while the virtual run is not fully mapped the core pool has a free page |
| PagerModel.RoomForTable | kernel/memory/memory.c:222-227 | the 4 KB pool has a free frame whenever a table of the virtual pool is missing |
| PagerModel.MapPage | kernel/memory/memory.c:257-262 | taking a core page and mapping it extends the bijection between virtual and core pages |
| PagerModel.UnmapPage | kernel/memory/memory.c:280-284 | freeing a core page and unmapping it shrinks that bijection |
| PagerModel.AllocStep | kernel/memory/memory.c:256-268 | one round of page_alloc's loop keeps its invariant |
| PagerModel.FreeStep | kernel/memory/memory.c:279-290 | one round of page_free's loop keeps its invariant |
| PagerModel.LoadedPage | kernel/memory/memory.c:280 | V2P_2MB on a mapped address recovers the physical address that was mapped |
| PageManager.Pager.PageAlloc | kernel/memory/memory.c:247-271 | given a free run, the first one is mapped page by page, with every access right, to the first free core pages in order; no other translation changes, no word outside the tables is written, and the invariant is kept |
| PageManager.Pager.PageFree | kernel/memory/memory.c:274-292 | exactly the given pages are unmapped and their virtual and core pages freed; no word outside the tables is written and the invariant is kept |
| PagerTheorems.AllocThenFree | kernel/memory/memory.c:247-292 | page_alloc then page_free restores both bitmaps exactly, unmaps exactly those pages and changes no other translation |
| PagerTheorems.Conservation | kernel/memory/memory.c:247-292 | as many virtual as core pages are in use, paired one to one |
| PagerTheorems.MappedAddressesDistinct | kernel/memory/memory.c:247-292 | allocated addresses are mapped, writable and accessible from every mode, and two of them reach the same byte if and only if they are equal |
| PagerTheorems.MappedAddressIsData | kernel/memory/memory.c:214-235 | an allocated address reaches the core pool and never a frame that serves as a table |
| PagerTheorems.AllocKeepsData | kernel/memory/memory.c:247-271 | page_alloc changes neither the place nor the contents of an allocated page |
| PagerTheorems.FreeKeepsData | kernel/memory/memory.c:274-292 | page_free changes neither the place nor the contents of a page that stays allocated |
| PagerTheorems.CorePagesFirstFit | kernel/memory/memory.c:256-261 | page_alloc passes over no free core page: one below a page it took went to an earlier page of the same call |
| PagerTheorems.AnswerNamesFreePages | kernel/memory/memory.c:247-253 | the pages that page_alloc answers were free if and only if the virtual pool has a run of that length |
| PagerTheorems.FullPools | kernel/memory/memory.c:247-261 | a full virtual pool has a full core pool, and the page it answers is in use |
| PagerTheorems.FirstPageRemapped | kernel/memory/memory.c:256-262 | mapping page 0 to core page 0 once more keeps the invariant if and only if it was mapped there; otherwise two pages share a core page |
| PageManager.Pager.PageAllocWhenFull | kernel/memory/memory.c:247-271 | page_alloc(1) on a full pool passes both tests for failure, changes no bitmap and does just that |
| PoolRuns.TakeGood | kernel/memory/memory.c:148-162 | palloc answers a page that was not outstanding, and the outstanding pages stay exactly those of the set bits |
| PoolRuns.GiveGood | kernel/memory/memory.c:165-183 | pfree of an outstanding page is allowed and accepted, and clears its bit and no other |
| PoolRuns.FullPoolAnswersHeldPage | kernel/memory/memory.c:138-161 | palloc on a full pool answers a page that is outstanding |
| PoolRuns.EveryAddressAllowed | kernel/memory/memory.c:175-179 | pfree stays inside the bitmap for every address it accepts if and only if the pool has no more pages than bits |
| PoolRuns.TailPageFreed | kernel/memory/memory.c:175-179 | with 25 pages of memory, freeing the last user page clears a bit of the core bitmap |
| PoolRuns.InitialGood | kernel/memory/memory.c:67-99 | the pools of init_memory follow each other, start empty and have no more bits than pages |
| PoolRuns.StepGood | kernel/memory/memory.c:148-183 | one call on one of the three pools keeps the record of outstanding addresses exact |
| PoolRuns.PoolRunSafe | kernel/memory/memory.c:148-183 | over every run from the pools of init_memory outstanding pages never overlap, within and across pools, each lies in its pool's range and may be freed; palloc answers new pages, and pfree clears exactly its page's bit |
| PoolRuns.PoolsDisjoint | kernel/memory/memory.c:67-108 | no two pages of the three pools overlap |
| LinkedLists.InsertKeepsList | kernel/lib/linkedlist.c:13-23 | the four stores insert the node at that place of the sequence, with prev and next inverse to each other |
| LinkedLists.RemoveKeepsList | kernel/lib/linkedlist.c:25-33 | the two stores remove exactly that node from the sequence |
| LinkedLists.ListFrame | kernel/lib/linkedlist.h:8-17 | a list survives every change of memory outside its own nodes |
| LinkedLists.ListUnique | kernel/lib/linkedlist.h:8-17 | memory determines the sequence that a list stands for |
| LinkedLists.ListWords | kernel/lib/linkedlist.h:8-17 | where the links of a list lie: prev at offset 0 and next at offset 8 of each node, the tail 16 bytes behind the head, NULL at both outer ends |
| LinkedLists.Ram.ListInit | kernel/lib/linkedlist.c:5-10 | an empty list; only the two sentinels are written |
| LinkedLists.Ram.InsertBefore | kernel/lib/linkedlist.c:13-23 | the node is inserted before the given one; only three nodes are written |
| LinkedLists.Ram.ListRemove | kernel/lib/linkedlist.c:25-33 | the node is removed; only its two neighbours are written |
| LinkedLists.Ram.ListPush | kernel/lib/linkedlist.c:35-37 | the node becomes the first element |
| LinkedLists.Ram.ListAppend | kernel/lib/linkedlist.c:40-42 | the node becomes the last element |
| LinkedLists.Ram.ListPop | kernel/lib/linkedlist.c:45-57 | the first element is removed and answered; NULL and no change on an empty list |
| LinkedLists.Ram.ListFind | kernel/lib/linkedlist.c:60-69 | terminates, and answers the node exactly when it is in the sequence |
| LinkedLists.Ram.ListMatch | kernel/lib/linkedlist.c:72-79 | terminates, and answers the first element that satisfies the condition, or NULL when none does |
| LinkedLists.Ram.ListLen | kernel/lib/linkedlist.c:82-92 | terminates, and answers the length of the sequence, counted in 32 bits |
| LinkedLists.Ram.ListEmpty | kernel/lib/linkedlist.c:95-97 | true exactly for the empty sequence |
| LinkedLists.Ram.Memset | kernel/memory/memory.c:123-126 | the range reads as zero and everything else is unchanged |
| SlabGeometry.HeaderFits | kernel/memory/slab.c:16-22 | for every power of two up to half a page the header's slots leave room for an item and waste less than one |
| SlabGeometry.ItemsTile | kernel/memory/slab.c:16-33 | the items are size-aligned, start right after the header and tile the page up to its end |
| SlabGeometry.SlabFields | kernel/memory/slab.c:18-22 | the computed start and count are those of the tiling: PAGE_SIZE/size minus the slots of the header |
| SlabGeometry.ItemsTight | kernel/memory/slab.c:16-22 | the first item lies at the least multiple of the item size behind the header, 88 bytes into the page, and the items fill the rest of the page exactly |
| SlabGeometry.ItemSizes | kernel/memory/memory.c:115-118 | the sixteen item sizes in numbers, 32 bytes to 1 MB |
| SlabGeometry.SlabTable | kernel/memory/slab.c:16-22 | the place of the first item and the number of items of each class in numbers: 96 and 65533 for 32 bytes, 128 and 32766 for 64 bytes, and so on |
| SlabGeometry.ItemsApart | kernel/memory/slab.c:29-33 | different items do not overlap |
| SlabGeometry.ItemInside | kernel/memory/slab.c:29-33 | every item lies wholly after the header and inside the page |
| SlabGeometry.MasksRecover | kernel/memory/slab.c:93-94 | from any address inside an item the two masks recover the slab and the start of the item |
| SlabGeometry.PageOfAddress | kernel/memory/memory.c:332 | from any address inside a page SLAB_MASK recovers its start |
| SlabGeometry.ClassFromSize | kernel/memory/memory.c:335-336 | the difference of the two ctz values names the cache that the slab came from |
| SlabGeometry.OneItemClass | kernel/memory/slab.c:22 | exactly the largest class has slabs of a single item |
| HeapModel.AddSlabInv | kernel/memory/slab.c:64-69 | a new slab keeps the invariant: on the list iff it has a free item, free and live items partition the carved ones |
| HeapModel.TakeItemInv | kernel/memory/slab.c:75-83 | taking an item keeps that invariant |
| HeapModel.GiveItemInv | kernel/memory/slab.c:91-111 | freeing an item keeps that invariant, also when the page is released |
| HeapModel.AllFree | kernel/memory/slab.c:98-102 | free and live counts add up to the carved items |
| HeapTheorems.LiveBlocksDisjoint | kernel/memory/memory.c:297-343 | two different live blocks never overlap |
| HeapTheorems.LiveAvoidsHeaders | kernel/memory/slab.c:13-27 | no live block overlaps a slab header |
| HeapTheorems.LiveAvoidsFreeItems | kernel/memory/slab.c:29-33 | no live block overlaps an item on a free list |
| HeapTheorems.KmallocEffect | kernel/memory/memory.c:297-323 | exactly one new block becomes live, at least as large as asked, and no other block changes |
| HeapTheorems.KfreeEffect | kernel/memory/memory.c:326-343 | exactly that block stops being live |
| HeapTheorems.KmallocThenKfree | kernel/memory/memory.c:297-343 | kfree of what kmalloc returned leaves exactly the blocks that were live before |
| HeapTheorems.BlockSizeIs | kernel/memory/memory.c:306-316 | the block size is the least of 32, 64, ..., 0x10_0000 that is enough for a request up to 0x10_0000, and 0x20_0000 for a larger one |
| HeapTheorems.KmallocBlock | kernel/memory/memory.c:297-323 | the new live block has that size; a request up to 0x10_0000 takes a page if and only if the list of its class is empty, and otherwise gets the first free item of the first slab; a larger one gets the page it takes |
| HeapTheorems.KfreeThenKmalloc | kernel/memory/slab.c:91-101 | a freed item is the next one of its class to be handed out if and only if its slab was full or first on the list |
| HeapTheorems.PageReleased | kernel/memory/slab.c:101-111 | the page is released if and only if the last live item is freed and the class is not the largest |
| HeapTheorems.StepSafe | kernel/memory/memory.c:297-343 | one call keeps the client's record of held blocks exact |
| HeapTheorems.RunSafe | kernel/memory/memory.c:297-343 | over every run that frees only held blocks, held blocks are as large as asked, pairwise disjoint, and clear of slab headers and free-list nodes |
| HeapTheorems.CollidesIffUsed | kernel/memory/memory.c:247-253 | a page meets a live block or a slab header if and only if it is in use |
| HeapTheorems.RunExact | kernel/memory/memory.c:297-323 | after every safe run of calls, the page answered to the next request that needs one meets a live block or a slab header if and only if the pool is used up |
| HeapMemory.FreeSumUpdate | kernel/memory/slab.c:80-104 | changing one slab's free count changes the cache's sum by the same amount |
| HeapMemory.RepStep | kernel/memory/slab.c:61-113 | a step that writes one slab and its cache leaves all other slabs and caches as they were |
| HeapMemory.GrownCache | kernel/memory/slab.c:64-69 | the stores implement adding a slab: total_free stays the sum over the cache's slabs |
| HeapMemory.TakenRep | kernel/memory/slab.c:80-83 | the counters and the conditional list_pop implement taking an item |
| HeapMemory.GivenPush | kernel/memory/slab.c:96-101 | freeing into a full slab puts it back on its cache's list |
| HeapMemory.GivenPlain | kernel/memory/slab.c:96-99 | freeing into a partly used slab changes no list of the cache |
| HeapMemory.GivenDrop | kernel/memory/slab.c:102-104 | freeing the last live item takes the slab off the list and its items out of the sum |
| HeapTotals.KmallocTally | kernel/memory/slab.c:62-69 | kmalloc keeps the count equal to the items of the slabs present and released, and releases none |
| HeapTotals.KfreeTally | kernel/memory/slab.c:101-111 | kfree keeps that equation, with one slab more released when the page is given back |
| HeapTotals.RunTally | kernel/memory/slab.c:62-113 | over every run the count is the items of all slabs present and of all slabs released so far |
| HeapTotals.StoredTotal | kernel/memory/slab.c:66-68 | the 32-bit field equals the number of carved items if and only if the items of the released slabs are a multiple of 2^32 |
| HeapTotals.CountFits | kernel/memory/slab.c:66-68 | up to 2^16 pages the number of carved items itself fits 32 bits |
| HeapTotals.TotalOutlivesSlab | kernel/memory/slab.c:101-111 | one kmalloc and one kfree after init_memory leave a cache without slabs whose count is that of the slab that is gone |
| HeapQuiet.ClientStore | kernel/memory/memory.c:297-343 | a client's store into its own block disturbs no structure of the allocator |
| KernelHeap.Heap.SlabCreate | kernel/memory/slab.c:11-36 | the first free page becomes a slab: its items start at the least multiple of their size behind the header, fill the page, and are all on the free list in address order; memory outside the page is unchanged |
| KernelHeap.Heap.Carve | kernel/memory/slab.c:29-33 | the loop builds that free list inside the page |
| KernelHeap.Heap.SlabInit | kernel/memory/slab.c:38-59 | a cache with one slab, whose counters equal the slab's |
| KernelHeap.Heap.SlabAlloc | kernel/memory/slab.c:62-88 | the first free item of the first slab is taken and cleared, after a new slab if the list was empty; other live memory is unchanged |
| KernelHeap.Heap.SlabFree | kernel/memory/slab.c:91-113 | the item goes back to its own slab, found from any address inside it; the page is released when the state machine says so |
| KernelHeap.Heap.FindCache | kernel/memory/memory.c:313-316 | the loop over the sizes stored in the caches finds the least class that is at least as large as the request |
| KernelHeap.Heap.Kmalloc | kernel/memory/memory.c:297-323 | implements the state machine's kmalloc with the block size of `BlockSizeIs`: a page it needs is the first free one and meets no live block and no slab header, and without need the pools are untouched; the block is all zero, a large block carries no magic, and the contents of all live blocks are unchanged |
| KernelHeap.Heap.AnsweredPage | kernel/memory/memory.c:247-253 | the page that one-page requests get is not in use, and meets no live block and no slab header, if and only if the virtual pool has a free page |
| KernelHeap.PagesLeft | kernel/memory/memory.c:247-253 | the virtual pool has a free page if and only if the heap uses fewer pages than there are |
| ExhaustedHeap.FullPage | kernel/memory/memory.c:247-271 | page_alloc answers page 0, which is in use; memory below the pool is unchanged |
| ExhaustedHeap.LargeAllocWhenFull | kernel/memory/memory.c:306-311 | the cleared block is a live block once more, or the heap is not valid any more since a slab is gone |
| ExhaustedHeap.SlabCreateWhenFull | kernel/memory/slab.c:11-36 | a page in use is formatted as a new slab with all its items free |
| ExhaustedHeap.SlabAllocWhenFull | kernel/memory/slab.c:62-88 | the item answered is the first of a new slab whose header has been stored into a page in use |
| ExhaustedHeap.SmallAllocWhenFull | kernel/memory/memory.c:312-319 | the same for a small request, in the least class that fits it |
| ExhaustedHeap.KmallocWhenFull | kernel/memory/memory.c:297-323 | a request that needs a page when there is none is answered inside page 0, which meets a live block or a slab header; a large block is live already or wipes out a slab, a small one lies behind a new header |
| KernelHeap.Heap.Kfree | kernel/memory/memory.c:326-343 | from any address inside a live block, implements the state machine's kfree and changes no other live block |
| KernelHeap.KfreeRoute | kernel/memory/memory.c:332-341 | kfree takes the slab path if and only if the block came from a slab or the client left the magic word in a large block; class and slab are the right ones |
| KernelHeap.Heap.MisleadKfree | kernel/memory/memory.c:332-334 | one kmalloc of a page and one store by its client lead to a live large block that kfree takes for a slab |
| KernelHeap.Heap.ClientStore | kernel/memory/memory.c:297-343 | a client may store anything into a block it holds: the invariant and all other blocks survive |
| KernelHeap.Heap.InitCaches | kernel/memory/memory.c:113-119 | sixteen caches with one slab each, on the first sixteen pages in order; MAX_SLAB_SIZE ends as 0x10_0000 |
| KernelHeap.Heap.Init | kernel/memory/memory.c:113-119 | from empty pools the heap's invariant is established, no block is live and the slabs of the caches lie on the first sixteen pages, all items free and in address order |
| KernelHeap.InitHeap | kernel/memory/memory.c:36-121 | init_memory on the loader's tables, for 42 to 34515 pages, yields a valid heap on the geometry of the pools, with sixteen pages in use and one left if and only if at least 63 are counted |
| KernelHeap.CacheInNumbers | kernel/memory/memory.c:113-119 | the words of the sixteen caches after init_memory in numbers |
| KernelHeap.SlabInNumbers | kernel/memory/slab.c:11-27 | the words of a slab header in numbers, at any time |
| KernelHeap.FirstKmalloc | kernel/memory/memory.c:297-323 | the address that the first kmalloc of each class answers after init_memory, in numbers |
| KernelHeap.CacheOnUsedPage | kernel/memory/memory.c:115-118 | slab_init of a cache gets a new page if the pool has one, and otherwise the page of an earlier cache's slab |
| KernelHeap.NoPageAtAll | kernel/memory/memory.c:134-143 | a pool whose bitmap has no bit answers its first address to every request |
| Numerals.RoundTrip | kernel/lib/string.c:67-90 | parsing the numeral of n gives back n, its characters are digits of the base, and there is no leading zero unless n is 0 |
| Numerals.NumeralUnique | kernel/lib/string.c:67-90 | a digit string without leading zero is the numeral of its own value, so the answer is the only possible one |
| Numerals.NumeralLength | kernel/lib/string.c:119-130 | a number below base^k has at most k digits |
| Numerals.NumeralText | kernel/lib/string.c:67-90 | the numeral is the one text that reads as the number without leading zero and has only the digits 0 to 9 and small letters, or capitals for the second kind |
| Numerals.NegativeNumeral | kernel/lib/string.c:49-53 | the digits of a negative number in a base other than ten are the characters below '0', digit by digit |
| Strings.ReverseInPlace | kernel/lib/string.c:16-26 | the first len characters are reversed in place, the rest is unchanged |
| Strings.Itoa | kernel/lib/string.c:29-64 | the buffer starts with the text of the number and a NUL, the rest is unchanged, and the answer is the text's length; digits above 9 are small letters, and base ten has a minus sign |
| Strings.SignedRoundTrip | kernel/lib/string.c:29-64 | parsing what itoa(num, 10) stores gives back num, with no leading zero unless num is 0 |
| Strings.SignedNumeralText | kernel/lib/string.c:29-64 | what itoa stores, in every base and for both signs, without reference to its digit loop |
| Strings.Ulltoa | kernel/lib/string.c:67-90 | the buffer starts with the one text that reads as the number, with small letters and no leading zero, and a NUL; the rest is unchanged, and the answer is the text's length |
| Strings.ScratchSizes | kernel/lib/string.c:119-130 | every 32-bit decimal and every 64-bit hexadecimal numeral fits the 12- and 17-character arrays |
| Formatting.PutInt | kernel/lib/string.c:116-126 | the 'd' case appends the signed numeral and overruns no array |
| Formatting.HexDigits | kernel/lib/string.c:141-150 | the digit loop fills the array with the digits of the number, lowest first, inside its 17 characters |
| Formatting.PutHex | kernel/lib/string.c:127-158 | 'x' appends the base-16 text of the word with small letters, 'X' the one with capitals |
| Formatting.PutField | kernel/lib/string.c:101-163 | each conversion appends exactly what it stands for |
| Formatting.Vsprintf | kernel/lib/string.c:93-171 | the buffer holds exactly the rendering and a NUL, nothing behind it is touched, and the answer is the rendering's length |
| Formatting.RenderConcat | kernel/lib/string.c:93-171 | formatting a concatenation is formatting its parts one after the other, each with its own arguments |
| Formatting.Conversions | kernel/lib/string.c:101-163 | each of the five conversions writes the text of its argument and takes just that argument, every other character behind a '%' writes itself and takes none |
| Formatting.NumbersReadBack | kernel/lib/string.c:116-158 | what %d, %x and %X write reads back as the number given, %x with small letters and %X with capitals, and %x writes what ulltoa writes in base 16 |

## Left out

- PageManager.Pager.PageAlloc: requires a free virtual run, because the source cannot see a failed allocation; `AnswerNamesFreePages` gives the exact condition, and `PageAllocWhenFull` is the call on a full pool. Longer requests on a pool that is fragmented or nearly full are not followed further.
- PageManager.Pager.PageTableAdd: requires a free 4 KB frame for each missing table, which the source does not check; `RoomForTable` discharges it for the kernel's virtual pool.
- PageManager.Pager.Pfree: requires that an address inside the pool does not lie behind the last bit of the bitmap; the source checks the page count. `PfreeIsGive` shows it for every outstanding page, `EveryAddressAllowed` gives the exact condition.
- PageManager.Pager.Vfree: KERNEL_2M only, and for page indices that fit the 32-bit parameter of bitmap_con_set.
- PageManager.Pager.PageFree: for allocated pages only; the source does not check.
- PageManager.Pager.Valloc: the USER_2M branches of valloc and vfree leave the pool pointer null and are not modelled.
- PageManager.Pager.ZeroTable: memset of a page table is 512 stores of words instead of 4096 stores of bytes.
- LinkedLists.Ram.Memset: only the value 0, the only one that the allocator passes; memory is scalar cells keyed by the byte address they start at, so a scalar that a memset cuts in half is not modelled.
- KernelHeap.Heap.Kmalloc: requires room in the virtual pool when a page is needed; `AnsweredPage` shows that this is the exact condition, and `KmallocWhenFull` is the call without it.
- ExhaustedHeap.FullPage: the contents of the pool's pages are left open once page 0 is remapped, since another page may share its core page; runs are not followed beyond that call.
- KernelHeap.Heap.Kfree: requires a live block, and that a client has not left the slab magic at the header's offset of a large block; `KfreeRoute` shows that this is exactly when the route is wrong.
- KernelHeap.InitHeap: requires 42 to 34515 counted pages; with fewer, `CacheOnUsedPage` and `NoPageAtAll` say which page the first cache without one of its own gets, with more, the page tables are gone.
- Boot.BootGeoOk: for less than 1 TB of memory, so that the kernel pool stays in one PML4 slot, and a kernel image inside the 10 MB that the loader maps.
- Layout.BitmapsBelowTables: like the other page limits, for sizes that 52-bit physical addresses can have.
- Boot.BootInv: the loader's five tables hold zero where the loader writes nothing, and the upper halves of the entries it writes are zero.
- Strings.Itoa: bases 2 to 36; the least 32-bit number in base ten is excluded, since its negation overflows.
- Formatting.Vsprintf: a lone `%` at the end of the format is excluded, since the source then reads behind the terminator; argument types suit the conversions; format and string arguments do not overlap the buffer; the length fits an int.
- The heap's memory and the page tables are separate state: the heap's cells are keyed by virtual address, as explained above, and are not read through the MMU.
- The TLB and `invlpg`: translation is a walk of the current tables.
- Interrupt concurrency: one thread, as the lock lines of linkedlist.c are commented out.
- The E820 loop of init_memory: the summed memory size is an input, and memory above the kernel is taken as contiguous, as the source does. The print calls are not modelled.
- Slab constructors and destructors: stored as NULL, never called.
- memcpy and strlen: simple loops that nothing here needs.
- Console, keyboard, timer, APIC, TSS, IDT set-up and the assembly files: not part of this model, except the loader's initial page-table entries.
