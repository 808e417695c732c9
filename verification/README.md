# Verified model of the CreeperOS v2 kernel core

Dafny models of the parts of the kernel whose correctness depends on many functions keeping an
invariant together, and proofs of what they promise.

- **Memory.** A next-fit frame bitmap, four-level page tables built, walked, pruned and torn down on
  it, the copying of an address space at fork, the kernel address allocator over a pool of 512 nodes,
  and the byte heap over a table of 102 regions.
- **Terminal.** The deferred-drawing backend, proved against a plain screen on which every operation
  takes effect at once; the editing sequences as whole-region shifts and fills; the UTF-8 decoder; and
  the byte-driven parser above them, equal byte for byte to a function on that screen. What each
  sequence and control character does is then said place by place, in numbers.
- **Scheduling and logging.** The intrusive run list, round-robin selection and thread exit, the
  initial user stack image, and the ticket ring of the logger as a state machine over atomic steps.
- **Naming.** Path resolution and path printing over the tree of directory entries, and the resumable
  directory reader.

Code that works by changing things in place is modelled by classes, arrays and loops; each method is
tied to a function or predicate on values, and the laws are proved about those.

## Where the code does not do what one expects

- **Heap growth.** force_free keeps a pointer to a slot while the slots move down, so on tables with
  touching regions it can drop unrelated ones. `HeapStale.ForceFreeKeepsIff` says exactly when, and
  `HeapLoss.RegionLost` is a run from boot in which kmalloc loses five pages that way.
- **Heap sizes.** The rounding mask is 32 bits wide, so requests near and above 4 GiB get blocks that
  are too small (`HeapBlocks.BlockHoldsRequest`). The branch of kmalloc for an emptied region is never
  taken, because the search asks for eight bytes more than the block takes.
- **Heap requests of whole pages.** For the same reason a request whose block is a whole number of pages
  grows the heap and still fails, unless the new pages touch a free region (`Heap.WholePageFails`).
- **Map and unmap.** Unmapping prunes an empty table that was there before the mapping, so the frames
  in use are restored only under the condition in `Pruning.MapUnmapRoundTrip` (`Pruning.EmptyTableLost`).
- **Frame bitmap.** A set bit means a used frame, against the comment in the source. Frame 0 is handed
  out without being zeroed.
- **Redraw.** full_refresh breaks the drawing cache when the cursor cell is pending
  (`Terminal.Backend.FullRefresh`), and the display can then stay wrong (`Terminal.RefreshLosesTrack`).
- **Private sequences.** CAN and SUB do not clear the private marker, so the next control sequence is
  swallowed (`TermLaws.Swallowed`, `TermLaws.ColumnSwallowed`). An escape inside a sequence starts a new one only
  if the sequence is not private (`SequenceLaws.RestartsIff`, `SequenceLaws.BracketPrinted`).
- **UTF-8.** F4 followed by 90 to BF is drained without a replacement glyph (`Utf8.BadByPrefix`).
- **Parameters.** Digits after an overflow are dropped instead of saturating
  (`CsiParams.SaturatesIff`, `CsiParams.DigitDropped`).
- **Log ring.** The slot count 508 does not divide 2^32, so after 2^32 messages the printing thread does
  not see the next one (`LogRing.WrapStalls`), and prints a later one before it (`LogWrap.WrapMisorders`).
  A ticket a whole ring ahead of an unpublished one shares its slot (`LogRing.LappedWritersCollide`).
- **Names.** Entries may be created with empty, dotted or slashed names; their printed paths do not lead
  back to them (`Paths.SlashedName`).
- **User stack.** The AT_RANDOM entry points at the last sixteen bytes of the strings.

## Files

| part | files |
|---|---|
| memory | FrameBitmap, PageTables, Growth, Rights, Pruning, Teardown, Vmm, ForkCopy, Fork, FreeRegions, Kvma, HeapTable, HeapGrowth, HeapStale, HeapBlocks, HeapSeeds, Heap, HeapPages, HeapLoss, HeapRuns |
| terminal | Cells, ScreenOps, Terminal, Editing, CsiParams, CsiSpec, CsiOps, Utf8, TermSpec, TermLaws, CursorLaws, ScreenLaws, SequenceLaws, TextLaws, Parser |
| scheduling and logging | HList, RoundRobin, Scheduler, LittleEndian, UserStack, LogRing, LogWrap |
| naming | CStrings, DentryTree, Paths, Getdents |

`dafny verify dfyconfig.toml` checks everything.

## Model

| member | source | states |
|---|---|---|
| `FrameBitmap.Pmm.FindClear` | kernel/src/memory/pmm.c:46-59 | Finds a clear bit, the first one in next-fit order; fails exactly when every bit is set; leaves the hint after the bit found. |
| `FrameBitmap.Pmm.FindClearRange` | kernel/src/memory/pmm.c:61-78 | Finds count consecutive clear bits that do not straddle the hint; fails exactly when every clear run of that length straddles it. |
| `FrameBitmap.Pmm.Alloc` | kernel/src/memory/pmm.c:132-143 | Takes one frame that was free, fails exactly when all are used, and the free count stays the number of clear bits. |
| `FrameBitmap.Pmm.Free` | kernel/src/memory/pmm.c:153-164 | Exactly the frame leaves the used set; the count grows only if the frame was used, so a second free is harmless. |
| `FrameBitmap.Pmm.AllocPages` | kernel/src/memory/pmm.c:166-182 | Takes a free run of count frames, or changes nothing; one frame fails exactly when all are used, more exactly when every run straddles the hint; zero frames give address zero. |
| `FrameBitmap.Pmm.FreePages` | kernel/src/memory/pmm.c:190-200 | The frames leave the used set; the free count stays right if and only if the caller held all of them, and otherwise drifts by the number it did not hold. |
| `PageTables.PathBijection` | kernel/src/arch/x86_64/mm/vmm.c:386-430 | An index path is the path of its address, which is a page address in the 48-bit space. |
| `PageTables.AddressOfPath` | kernel/src/arch/x86_64/mm/vmm.c:386-430 | The other way round: the address of the path of an address is the start of its page. |
| `PageTables.WalkIsLeafLookup` | kernel/src/arch/x86_64/mm/vmm.c:386-430 | The four-level walk returns the leaf on the path of the address, at whichever level a huge or plain page sits, with the right offset. |
| `PageTables.SameLeavesSameWalk` | kernel/src/arch/x86_64/mm/vmm.c:386-430 | Two memories with the same leaves on the path of an address translate it alike. |
| `PageTables.LinkAddsOneTable` | kernel/src/arch/x86_64/mm/vmm.c:83-95 | Hanging a zeroed frame below an absent entry adds exactly that table to the tree and no leaf. |
| `PageTables.WidenKeepsTree` | kernel/src/arch/x86_64/mm/vmm.c:83-95 | Adding permissions to a present entry changes neither tables nor leaves below it. |
| `PageTables.LeafWriteIsLocal` | kernel/src/arch/x86_64/mm/vmm.c:97-103 | Writing a last-level entry changes that leaf and nothing else in the whole tree. |
| `PageTables.UnlinkRemovesOneTable` | kernel/src/arch/x86_64/mm/vmm.c:448-498 | Clearing the entry of an empty table removes exactly that table and no leaf. |
| `Rights.MappedRights` | kernel/src/arch/x86_64/mm/vmm.c:83-109 | What all four entries of a walk grant together, after a page was mapped: at that page exactly the rights of its flags, elsewhere no less than before and no more than the leaf. |
| `Rights.GrantedByPage` | kernel/src/arch/x86_64/mm/vmm.c:83-109 | No walk grants more than its leaf entry says. |
| `Vmm.VirtualMemory.TableGetOrCreate` | kernel/src/arch/x86_64/mm/vmm.c:83-95 | Returns the table of a present entry, made to grant what was asked, or a newly used frame linked as a zeroed table, except that frame 0 is handed out as it is. The entry is then present, small, user and writable where asked or where it was before. Fails only with no frame left. |
| `Vmm.VirtualMemory.MapPage` | kernel/src/arch/x86_64/mm/vmm.c:97-109 | The page translates to the frame with the flags given, no other leaf moves, only tables on its path are created, and the tables stay a tree. Counting all four levels, the page grants user access and writing exactly as its flags say; every other page grants no less than before and no more than its own leaf says. |
| `Vmm.VirtualMemory.MapPages` | kernel/src/arch/x86_64/mm/vmm.c:111-120 | For every address: inside the range the walk gives frame plus offset and grants exactly the rights of the flags, outside it the answer is the old one and grants no less than before and no more than its leaf; only table frames were taken. |
| `Growth.RangeMappedWalk` | kernel/src/arch/x86_64/mm/vmm.c:111-120 | The translation of every address after a range was mapped, with address arithmetic modulo the 48-bit space. |
| `Vmm.VirtualMemory.TableIsEmpty` | kernel/src/arch/x86_64/mm/vmm.c:442-446 | True exactly when every word of the table is zero. |
| `Vmm.VirtualMemory.UnmapPage` | kernel/src/arch/x86_64/mm/vmm.c:448-498 | Removes the leaf and exactly the tables on its path that became empty, deepest first, and frees those frames; an unmapped page changes nothing. |
| `Pruning.MapUnmapRoundTrip` | kernel/src/arch/x86_64/mm/vmm.c:448-498 | Mapping an unmapped page and unmapping it restores every leaf; the frames in use are the old ones if and only if the deepest table that was there before still has another entry. |
| `Pruning.EmptyTableLost` | kernel/src/arch/x86_64/mm/vmm.c:448-498 | An input: a page under an empty last-level table. Mapping and unmapping it frees three tables that were there before. |
| `Vmm.VirtualMemory.MapThenUnmap` | kernel/src/arch/x86_64/mm/vmm.c:97-109 | The same, run: translation of every address is restored and all frames come back, and the free count with them, exactly under that condition. |
| `Teardown.ReleasedIsUserHeld` | kernel/src/arch/x86_64/mm/vmm.c:714-732 | What the recursion releases is exactly the tables and owned leaf frames reachable by a user-half path. |
| `Teardown.UserHalf` | kernel/src/arch/x86_64/mm/vmm.c:714-746 | The walk of an address starts in the first 256 entries exactly if the address is below 0x800000000000. |
| `Vmm.VirtualMemory.FreeUserTables` | kernel/src/arch/x86_64/mm/vmm.c:714-732 | Tearing down a table frees exactly what is below its entries, the first 256 of the root or all 512, each frame once, and clears these and no others; it terminates on the level. |
| `Vmm.VirtualMemory.PagetableFreeOwned` | kernel/src/arch/x86_64/mm/vmm.c:734-746 | Frees exactly the user-half table frames, the owned leaf frames and the root, each once; unowned leaves and the tables of the kernel half stay allocated. By address: below 0x800000000000 every table walked and every owned page is freed, from there to 2^48 every table other than the root that was in use stays so. The free count grows by the number of calls; the kernel and current tables are refused. |
| `Fork.CopyPage` | kernel/src/executable/elf/fork.c:75-89 | One page: the copy or the shared frame is mapped in the child, and everything copied before, and the parent, stay as they were. |
| `Fork.CopyUserPages` | kernel/src/executable/elf/fork.c:51-94 | On success every present parent page outside the skipped range is in the child with equal flags, owned ones as equal copies in fresh frames shared with nobody, unowned ones in the parent's frame; every other child leaf, and the whole parent, is unchanged. By address: below 0x800000000000 and outside the skipped range every mapped address gives the same byte, by a copy or the same frame, with the same rights to user access and writing. |
| `ForkCopy.CopyComplete` | kernel/src/executable/elf/fork.c:51-94 | The invariant of the four nested loops, carried to the end of the user half, is that statement. |
| `ForkCopy.ForkedAt` | kernel/src/executable/elf/fork.c:51-94 | That statement, said by virtual address and by what a process may do there. |
| `FreeRegions.CanonicalUnique` | kernel/src/arch/x86_64/mm/vmm.c:530-598 | A sorted, disjoint, coalesced list is determined by its free pages. |
| `FreeRegions.FitsIffRunExists` | kernel/src/arch/x86_64/mm/vmm.c:530-554 | In such a list some region is long enough exactly when a run of that many free pages exists. |
| `FreeRegions.TakeFrontIsExact` | kernel/src/arch/x86_64/mm/vmm.c:536-548 | Taking pages from the front of a region removes exactly them and keeps the form. |
| `FreeRegions.GiveBackIsExact` | kernel/src/arch/x86_64/mm/vmm.c:562-598 | Giving pages back adds exactly them, joined to the neighbours they touch, and keeps the form. |
| `FreeRegions.TakeThenGiveBack` | kernel/src/arch/x86_64/mm/vmm.c:530-598 | Giving back what was just taken restores the same list. |
| `FreeRegions.FewRegions` | kernel/src/arch/x86_64/mm/vmm.c:505-513 | There is at most one region more than blocks in use. |
| `Kvma.Allocator.constructor` | kernel/src/arch/x86_64/mm/vmm.c:516-527 | One region over the whole kernel range, nothing in use. |
| `Kvma.Allocator.NodeAlloc` | kernel/src/arch/x86_64/mm/vmm.c:508-513 | Finds an unused pool node; fails exactly when all 512 are used. |
| `Kvma.Allocator.Alloc` | kernel/src/arch/x86_64/mm/vmm.c:530-554 | First fit: fails exactly when no run of count free pages exists; pool nodes with pages stay exactly the list nodes, in address order and coalesced. |
| `Kvma.Allocator.Free` | kernel/src/arch/x86_64/mm/vmm.c:556-598 | The region list becomes the old one with the block given back; it cannot run out of nodes with at most 512 blocks in use. |
| `Kvma.AllocThenFree` | kernel/src/arch/x86_64/mm/vmm.c:530-598 | Allocating and freeing restores the region sequence; the allocation succeeds exactly when a run exists. |
| `HeapBlocks.BlockHoldsRequest` | kernel/src/memory/memory.c:289 | A block has room for its header and the bytes asked for if and only if the rounded size fits 32 bits. |
| `HeapBlocks.TameSizes` | kernel/src/memory/memory.c:208-212 | The sizes for which the header lies inside the block and the search asks for eight bytes more than the block takes, so that a region is never used up; these are all sizes up to 4 GiB less 24 bytes, and exactly the residues given. |
| `Heap.KernelHeap.constructor` | kernel/src/memory/memory.c:169-204 | The four seed pages, a slot each: a sound table with exactly those bytes free and no block in use. |
| `Heap.KernelHeap.FindRun` | kernel/src/memory/memory.c:213-236 | The run of touching regions from a region on is complete and made of whole regions; the loop terminates. |
| `Heap.KernelHeap.FirstFit` | kernel/src/memory/memory.c:208-249 | Fails exactly when no run of that many free bytes exists in the table, however it is cut up; the collapse keeps the free bytes; a coalesced table is left as it is. |
| `HeapTable.CollapseKeeps` | kernel/src/memory/memory.c:238-245 | Collapsing a run into one slot keeps the free bytes and disjointness. |
| `HeapGrowth.WholePages` | kernel/src/memory/memory.c:103-110 | Whole pages above the lowest address are freed without rounding. |
| `HeapGrowth.ForceFreeExact` | kernel/src/memory/memory.c:112-157 | On a table without touching regions exactly the range is added, joined to all it meets, unless a full table meets none of it; the table stays coalesced. |
| `HeapStale.AbsorbingSafe` | kernel/src/memory/memory.c:123-147 | On every sound table, from any state of the joining loop: the table stays sound and gains no byte. |
| `HeapStale.EarlierIff` | kernel/src/memory/memory.c:123-147 | The loop takes in slots before its own exactly if one of them touches or overlaps the first region met, widened over the range. |
| `HeapStale.ForceFreeKeepsIff` | kernel/src/memory/memory.c:103-157 | On every sound table, whatever touches what, and every new range: the table stays sound, no byte becomes free that was neither free nor in the range, and the range becomes free if the table takes it; nothing else is lost if and only if the loop takes in no slot before its own, or no region lies further on than these slots reach. |
| `HeapSeeds.SeedsLoseIff` | kernel/src/memory/memory.c:103-157 | On the seed pages together with regions that touch nothing, bytes are lost if and only if the range is directly behind the seeds and there is such a region. |
| `HeapSeeds.GrowsOver` | kernel/src/memory/memory.c:123-147 | The table then: the two regions the pointer passed, the joined one, and the other region gone. |
| `HeapLoss.RegionLost` | kernel/src/memory/memory.c:278-353 | A run from the start, for every range of addresses, with the pages as the address allocator hands them out: pages for another use, a request for five whole pages that fails and leaves them free, the other pages back, and a request that grows the heap directly behind the seeds. The heap then owns the five pages, but they are neither free nor in a block. |
| `Heap.KernelHeap.Absorb` | kernel/src/memory/memory.c:123-147 | The joining loop, with its pointer kept while slots move, computes `Absorbing` on every table. |
| `Heap.KernelHeap.ForceFree` | kernel/src/memory/memory.c:103-157 | force_free computes `ForceFreed` on every table; ranges below the lowest address are ignored. |
| `Heap.KernelHeap.Grow` | kernel/src/memory/memory.c:293-323 | On every table: granted pages become free exactly if the table takes them, no other byte does, no block in use is touched, and free bytes are lost exactly under the condition of force_free. |
| `Heap.KernelHeap.CutBlock` | kernel/src/memory/memory.c:331-349 | The block is cut from free bytes, its header holds the size, and blocks and free bytes stay disjoint and aligned. |
| `Heap.KernelHeap.Kmalloc` | kernel/src/memory/memory.c:278-353 | On every table: blocks in use and free bytes stay pairwise disjoint and 8-aligned, and the new block was free. Free bytes and block come from the old free bytes and the granted pages, and all of these are there unless the growing lost some, which it never does on a table without touching regions or with only its seed pages. A null result means that no run of the needed length is left. After growing, a request that is not whole pages succeeds, and one that is succeeds, with nothing lost, exactly if the granted pages touch a free byte. |
| `Heap.KernelHeap.FindRoom` | kernel/src/memory/memory.c:278-330 | The search, again after growing: it grows exactly if no run is long enough and the table takes the granted pages, and without growing it finds a region exactly if there is a run. |
| `HeapSeeds.GrantUse` | kernel/src/memory/memory.c:293-324 | With no run long enough before, the granted pages give one unless the block is whole pages; then they do exactly if they touch a free region. |
| `Heap.WholePageFails` | kernel/src/memory/memory.c:278-353 | An input: a request of 4088 bytes on a nearly used-up heap is refused although a page was granted for it. |
| `HeapPages.PagedHeap.constructor` | kernel/src/memory/memory.c:169-204 | The seed pages come from the kernel address allocator and are the first four of its range; the rest of it is free in one piece. |
| `HeapPages.PagedHeap.Kmalloc` | kernel/src/memory/memory.c:278-353 | With the pages taken from the kernel address allocator, by first fit, and no assumption about the table or the grant: pages are taken exactly if there is no long enough run, frames are there and the allocator has a run of pages; they hold no block and no free byte, are no pages the heap owned, and are used exactly if the table takes them; after growing, success is exactly as above; the free bytes are accounted for as above; tables without touching regions stay so, and the first block from the seed pages makes them so. |
| `HeapPages.PagedHeap.Kfree` | kernel/src/memory/memory.c:357-444 | Exactly the bytes of the block become free and no two regions touch, unless all slots are taken, when nothing changes but that the block is no longer in use. |
| `HeapPages.PagedHeap.PageAlloc` | kernel/src/memory/memory.c:492-503 | Pages for other uses share no byte with any block or free byte of the heap. |
| `HeapPages.PagedHeap.PageFree` | kernel/src/memory/memory.c:505-512 | Giving them back keeps heap and allocator sound. |
| `HeapRuns.RunBalances` | kernel/src/memory/memory.c:278-444 | For every run of allocations and frees, in any order, each doing what the code does to the table it finds: the bytes free, held and dropped by a full table are pairwise apart; all come from the bytes free at first and the pages grown by; and they are all of these if and only if no growing of the run lost bytes. |
| `HeapRuns.Serve` | kernel/src/memory/memory.c:278-444 | The code answers any requests by such a run, from the table it finds to the table it leaves and with exactly the regions it comes to own, so its bytes balance; from a table without touching regions no growing loses any. |
| `Heap.KernelHeap.Sort` | kernel/src/memory/memory.c:396-409 | The in-place sort brings regions to the front by address and keeps the free bytes. |
| `Heap.KernelHeap.Merge` | kernel/src/memory/memory.c:411-433 | The in-place merge leaves a sorted table with no touching regions and the same free bytes. |
| `Heap.KernelHeap.Tidy` | kernel/src/memory/memory.c:395-441 | After sort, merge and recount the table is packed, coalesced and its count right. |
| `Heap.KernelHeap.Kfree` | kernel/src/memory/memory.c:357-444 | Exactly the bytes of the block become free, and the table coalesced; the block is lost if and only if all 102 slots are taken. |
| `Heap.KernelHeap.AllocateThenFree` | kernel/src/memory/memory.c:278-444 | On every table, a block given straight back leaves the free bytes as they were, apart from pages the heap grew by and bytes lost in growing. |
| `Cells.QueueHasRoom` | kernel/src/Flanterm/src/flanterm_backends/fb.c:825-842 | With a cell not pending the queue cannot be full (pigeonhole), so no update is dropped. |
| `Cells.QueueCountsPending` | kernel/src/Flanterm/src/flanterm_backends/fb.c:825-842 | The queue length is the number of pending cells. |
| `Cells.AlikeIff` | kernel/src/Flanterm/src/flanterm_backends/fb.c:755-817 | Two cells are taken for the same by the cache if and only if they are drawn in the same glyph and colours over every background. |
| `Cells.InvertedPaints` | kernel/src/Flanterm/src/flanterm_backends/fb.c:1038-1065 | The cursor cell is drawn in its own glyph with ink and paper exchanged. |
| `Terminal.Backend.Push` | kernel/src/Flanterm/src/flanterm_backends/fb.c:818-843 | The plain screen gets the cell and the cache keeps representing it. |
| `Terminal.Backend.RevScroll` | kernel/src/Flanterm/src/flanterm_backends/fb.c:845-872 | The region moves down one row on the plain screen. |
| `Terminal.Backend.Scroll` | kernel/src/Flanterm/src/flanterm_backends/fb.c:874-899 | The region moves up one row on the plain screen, though cells are copied from places already overwritten in the queue. |
| `Terminal.Backend.Clear` | kernel/src/Flanterm/src/flanterm_backends/fb.c:901-918 | The whole plain screen is blank. |
| `Terminal.Backend.SetCursorPos` | kernel/src/Flanterm/src/flanterm_backends/fb.c:920-939 | The cursor is clamped into the screen, large unsigned values to zero. |
| `Terminal.Backend.GetCursorPos` | kernel/src/Flanterm/src/flanterm_backends/fb.c:941-946 | A pending-wrap cursor is reported in the last column. |
| `Terminal.Backend.MoveCharacter` | kernel/src/Flanterm/src/flanterm_backends/fb.c:948-967 | One cell of the plain screen is copied. |
| `Terminal.Backend.RawPutchar` | kernel/src/Flanterm/src/flanterm_backends/fb.c:1101-1127 | The character lands where wrapping and scrolling modes say, scrolling first where needed. |
| `Terminal.Backend.DrawCursor` | kernel/src/Flanterm/src/flanterm_backends/fb.c:1038-1065 | The cell under the cursor is shown inverted and its pending entry settled. |
| `Terminal.Backend.Flush` | kernel/src/Flanterm/src/flanterm_backends/fb.c:1067-1099 | After every flush each cell is drawn, over every background, in the glyph and colours of the plain screen, ink and paper exchanged exactly in the enabled in-range cursor cell. |
| `Terminal.Backend.FullRefresh` | kernel/src/Flanterm/src/flanterm_backends/fb.c:1129-1175 | A redraw keeps the bookkeeping if and only if the cursor cell is not pending and is the old cursor's or its own inverse. |
| `Terminal.Backend.PushToQueue` | kernel/src/Flanterm/src/flanterm_backends/fb.c:818-843 | What queueing a cell does to queue and map, in any state. |
| `Terminal.Backend.DoubleBufferFlush` | kernel/src/Flanterm/src/flanterm_backends/fb.c:1067-1099 | What a flush draws, in any state: the cursor, then the queued items whose position has an entry, then the cell the old cursor was on. |
| `Cells.FlushShows` | kernel/src/Flanterm/src/flanterm_backends/fb.c:1067-1099 | If the cache represents the plain screen, that draws the plain screen, leaves nothing pending, and can be out of date only where the old cursor was. |
| `Terminal.RefreshLosesTrack` | kernel/src/Flanterm/src/flanterm_backends/fb.c:1129-1175 | An input on a screen of any size: a new screen, a changed cell under the cursor, a redraw, another change of that cell, a flush. The display then shows the first change, not the second. |
| `Terminal.Backend.constructor` | kernel/src/Flanterm/src/flanterm_backends/fb.c:1498-1584 | The start: a blank screen, drawn, with the cache representing it. |
| `Editing.EraseDisplay` | kernel/src/Flanterm/src/flanterm.c:906-946 | ED: exactly the cells from the cursor on, up to it, or all are blank; the cursor goes to its reported column, except when all is erased. |
| `Editing.EraseLine` | kernel/src/Flanterm/src/flanterm.c:992-1016 | EL: the same within the row. |
| `Editing.InsertChars` | kernel/src/Flanterm/src/flanterm.c:947-964 | ICH: the rest of the row moves right by n and n blanks appear; no other cell changes. |
| `Editing.DeleteChars` | kernel/src/Flanterm/src/flanterm.c:965-982 | DCH: the rest of the row closes up by n and blanks fill its end; no other cell changes. |
| `Editing.EraseChars` | kernel/src/Flanterm/src/flanterm.c:972-982 | ECH: n cells, at most to the end of the row, are blank. |
| `Editing.InsertLines` | kernel/src/Flanterm/src/flanterm.c:871-884 | IL: rows from the cursor to the bottom margin move down by n; nothing outside the margins, and the margins, change. |
| `Editing.DeleteLines` | kernel/src/Flanterm/src/flanterm.c:857-870 | DL: rows from the cursor to the bottom margin move up by n; likewise. |
| `Editing.ScrollUp` | kernel/src/Flanterm/src/flanterm.c:1038-1045 | SU: the region moves up n rows in one shift. |
| `Editing.ScrollDown` | kernel/src/Flanterm/src/flanterm.c:1046-1053 | SD: the region moves down n rows in one shift. |
| `Editing.InsertShift` | kernel/src/Flanterm/src/flanterm.c:1955-1966 | The insert-mode shift, whose downward loop terminates, opens a gap of the given width. |
| `CsiParams.NumberRead` | kernel/src/Flanterm/src/flanterm.c:669-685 | The decimal digits of a number below 2^32 leave exactly that number. |
| `CsiParams.NumberKept` | kernel/src/Flanterm/src/flanterm.c:669-685 | The digits of any number leave its leading digits that fit, or the maximum where the next digit just does not. |
| `CsiParams.SaturatesIff` | kernel/src/Flanterm/src/flanterm.c:669-685 | A number is read as the maximum if and only if some of its leading digits are 4294967295 to 4294967299. |
| `CsiParams.DigitDropped` | kernel/src/Flanterm/src/flanterm.c:672-675 | An input: 5000000000 is read as 500000000. |
| `CsiParams.ListRead` | kernel/src/Flanterm/src/flanterm.c:669-699 | A printed list of at most sixteen numbers is read back as it is. |
| `CsiSpec.CursorAfter` | kernel/src/Flanterm/src/flanterm.c:765-856 | Every cursor movement ends on the screen; where, the laws of CursorLaws say in numbers. |
| `CsiSpec.OriginStaysInside` | kernel/src/Flanterm/src/flanterm.c:810-856 | In origin mode absolute rows stay between the margins. |
| `CsiSpec.MarginsAfter` | kernel/src/Flanterm/src/flanterm.c:1017-1033 | Whatever the parameters, the margins set are in order and on the screen. |
| `CsiSpec.DeleteUndoesInsert` | kernel/src/Flanterm/src/flanterm.c:947-982 | DCH after ICH only loses the cells pushed off the row. |
| `CsiSpec.DeleteLinesUndoesInsert` | kernel/src/Flanterm/src/flanterm.c:857-884 | DL after IL only loses the rows pushed out of the region. |
| `CsiOps.MoveCursor` | kernel/src/Flanterm/src/flanterm.c:765-856 | The cursor goes where `CursorAfter` says, from its reported column; the screen stays. `CursorLaws` says in numbers where that is. |
| `CsiOps.ExecuteC0` | kernel/src/Flanterm/src/flanterm.c:604-650 | Backspace, tab, line feed and carriage return: cursor and screen as the function says, a scroll exactly on the bottom margin. |
| `CsiOps.EditCells` | kernel/src/Flanterm/src/flanterm.c:906-982 | ED, EL, ECH, ICH and DCH, written as loops over single cells, turn the screen into `ScreenAfter`, which `ScreenLaws` describes cell by cell; the cursor stays, leaving the column past the last one where the code repositions it. |
| `CsiOps.EditRows` | kernel/src/Flanterm/src/flanterm.c:857-884 | IL, DL, SU and SD likewise; the cursor is not touched. |
| `CsiOps.SetMargins` | kernel/src/Flanterm/src/flanterm.c:1017-1033 | DECSTBM sets `MarginsAfter` and takes the cursor home. |
| `CsiOps.NextLine` | kernel/src/Flanterm/src/flanterm.c:1186-1195 | NEL: a line feed, and then the first column. |
| `CsiOps.ReverseLineFeed` | kernel/src/Flanterm/src/flanterm.c:1196-1204 | RI: up a row, scrolling down on the top margin. |
| `CsiOps.PrintGlyph` | kernel/src/Flanterm/src/flanterm.c:2104-2126 | The screen after a glyph: gap in insert mode, scroll if the cursor wraps off the region, one cell set. |
| `CsiOps.PutGlyph` | kernel/src/Flanterm/src/flanterm_backends/fb.c:1101-1127 | The same without the gap, as a function of screen, cursor and modes. |
| `CsiOps.LineFeed` | kernel/src/Flanterm/src/flanterm.c:626-635 | A line feed keeps the column and scrolls exactly on the bottom margin. |
| `Utf8.SettingIsAdding` | kernel/src/Flanterm/src/flanterm.c:1993-1994 | The or of the continuation bits is a sum, on 64-bit words. |
| `Utf8.StageStep` | kernel/src/Flanterm/src/flanterm.c:1993-2046 | Each byte of an encoding takes the decoder one stage on; only the last reports the scalar. |
| `Utf8.EncodedDecodes` | kernel/src/Flanterm/src/flanterm.c:1981-2062 | From the ground state the encoding of any scalar reaches the lookup with exactly that scalar and returns to ground. |
| `Utf8.TextDecodes` | kernel/src/Flanterm/src/flanterm.c:1981-2062 | A whole encoded text yields its scalars, each once, in order. |
| `Utf8.LookupEnds` | kernel/src/Flanterm/src/flanterm.c:1981-2062 | If the bytes sent end with those the decoder holds, a number is looked up only at the end of the encoding of that scalar. |
| `Utf8.WholeSequence` | kernel/src/Flanterm/src/flanterm.c:1981-2062 | A lead byte with as many continuation bytes as it announces reports nothing if it spells a number above 0x10FFFF, one replacement if it is overlong, its last byte if it is a surrogate, and otherwise the scalar. |
| `Utf8.BadByPrefix` | kernel/src/Flanterm/src/flanterm.c:1996-2016 | Silence exactly for F4 followed by 90 to BF, a replacement exactly for E0 followed by less than A0 and F0 followed by less than 90. |
| `TermSpec.Step` | kernel/src/Flanterm/src/flanterm.c:1968-2126 | What one byte does to parser state and plain screen. From every state it keeps: at most sixteen parameters, the one being read among them, command buffer, margins and cursors in range, scrolling enabled, no UTF-8 sequence pending inside an escape, no control sequence or command outside one. |
| `Parser.Context.PutChar` | kernel/src/Flanterm/src/flanterm.c:1968-2126 | For every state and byte, modes, attributes, sequence state and screen of the code, which draws late and edits by loops over cells, are exactly those of the function. |
| `Parser.Context.Write` | kernel/src/Flanterm/src/flanterm.c:132-140 | For every byte stream the state is that of its bytes one after the other, and afterwards the display shows its screen and cursor in glyphs and colours. |
| `Parser.Context.WriteText` | kernel/src/Flanterm/src/flanterm.c:132-140 | For every printable text, its encoding ends up on the display as the scalars printed in order. |
| `Parser.Context.DecPrivateParse` | kernel/src/Flanterm/src/flanterm.c:457-502 | The loop over the parameters sets or resets the modes they name, one after the other, the alternate screen included. |
| `Parser.Context.Repeat` | kernel/src/Flanterm/src/flanterm.c:1054-1072 | REP prints the last graphic character again, at most a row of it, under the modes in force. |
| `Parser.Context.ActUnscrolled` | kernel/src/Flanterm/src/flanterm.c:750-1087 | A sequence run with scrolling off and wrapping on leaves both as they were, and moves, edits, margins, saved cursor and insert mode as its function says. |
| `Parser.Context.PrintCodePoint` | kernel/src/Flanterm/src/flanterm.c:2026-2044 | A code point prints its glyph, or the replacement and blanks over its width, and REP remembers which. |
| `TermLaws.ScalarSteps` | kernel/src/Flanterm/src/flanterm.c:1968-2126 | The encoding of any printable scalar, sent byte by byte, prints exactly that scalar and leaves everything else as it was. |
| `TermLaws.TextSteps` | kernel/src/Flanterm/src/flanterm.c:1968-2126 | The encoding of any printable text prints its scalars in order and leaves the parser ready for text. |
| `TermLaws.ParamSteps` | kernel/src/Flanterm/src/flanterm.c:669-699 | Any printed parameter list is read as the reading function says. |
| `TermLaws.SequenceSteps` | kernel/src/Flanterm/src/flanterm.c:652-1092 | A whole control sequence, its marker, printed parameters and final byte, acts with exactly these parameters: as a private one if it has the marker or an earlier one was left set, and otherwise as an ordinary one. |
| `TermLaws.MarkerStays` | kernel/src/Flanterm/src/flanterm.c:1969-1979 | Cancelling a sequence right after its private marker ends it and leaves the marker set. |
| `TermLaws.Swallowed` | kernel/src/Flanterm/src/flanterm.c:1969-1979 | The next sequence then does nothing, whatever its parameters and final byte, unless that is h or l or a bare second bracket. |
| `TermLaws.ColumnSwallowed` | kernel/src/Flanterm/src/flanterm.c:1969-1979 | An input where that shows: CHA with the cursor not in the first column. |
| `TermLaws.SaveThenRestore` | kernel/src/Flanterm/src/flanterm.c:1094-1120 | DECRC brings back cursor, attributes, origin mode and character sets of the last DECSC, whatever came between, and leaves everything else. |
| `TermLaws.ResetForgets` | kernel/src/Flanterm/src/flanterm.c:1168-1177 | After RIS any two terminals of one kind look the same and have the same modes, whatever came before. |
| `TermLaws.CommandSteps` | kernel/src/Flanterm/src/flanterm.c:566-602 | A command ended by BEL touches neither screen nor modes, whatever its bytes other than ESC, BEL, CAN and SUB, and its first 256 are kept. |
| `TermLaws.LookupsAreWellFormed` | kernel/src/Flanterm/src/flanterm.c:1968-2126 | Over every byte stream from a decoder at rest, with escapes, commands, cancelled sequences and discarded bytes anywhere in it: a number is looked up only when the bytes just sent are the encoding of that scalar, never overlong, surrogate or above 0x10FFFF. |
| `CursorLaws.ParamsAre` | kernel/src/Flanterm/src/flanterm.c:669-712 | A list of up to sixteen 32-bit numbers is found by the final byte as it was printed; zero or nothing stands for one, or for zero in ED and EL. |
| `CursorLaws.GoesAcross` | kernel/src/Flanterm/src/flanterm.c:794-804 | CUF and HPR end min(column + n, last) to the right, CUB max(column - n, 0) to the left, in the same row with the same cells. |
| `CursorLaws.GoesUp` | kernel/src/Flanterm/src/flanterm.c:765-778 | CUU and CPL go up n rows, at most to row 0, or to the top margin in origin mode; CPL ends in column 0. |
| `CursorLaws.GoesDown` | kernel/src/Flanterm/src/flanterm.c:779-793 | CUD, VPR and CNL go down n rows, at most to the last row, or that of the margins in origin mode; CNL ends in column 0. |
| `CursorLaws.GoesTo` | kernel/src/Flanterm/src/flanterm.c:810-856 | CUP and HVP end at the row and column named, VPA at the row, CHA and HPA at the column; in origin mode rows count from the top margin; too large a number names the last one. |
| `CursorLaws.PlaceReached` | kernel/src/Flanterm/src/flanterm.c:834-856 | So every place on the screen is reached by its own numbers, outside origin mode. |
| `CursorLaws.ForwardThenBack` | kernel/src/Flanterm/src/flanterm.c:794-804 | Going right and as far back left returns exactly if the edge was not met or the column was the first. |
| `CursorLaws.SavedCursor` | kernel/src/Flanterm/src/flanterm.c:986-991 | SCOSC remembers column and row and SCORC goes there; nothing else changes. |
| `CursorLaws.SetsMargins` | kernel/src/Flanterm/src/flanterm.c:1017-1033 | Two rows in order and on the screen become the margins, anything else the whole screen; the cursor goes home. |
| `CursorLaws.SwitchesInsert` | kernel/src/Flanterm/src/flanterm.c:514-538 | SM and RM switch insert mode exactly if the first parameter is 4, and change nothing else. |
| `CursorLaws.ModesInTurn` | kernel/src/Flanterm/src/flanterm.c:475-498 | A sequence naming several private modes does what one sequence for each would do in turn. |
| `CursorLaws.SwitchesMode` | kernel/src/Flanterm/src/flanterm.c:475-498 | ?6 sets origin mode and takes the cursor home, ?7 changes only wrapping, ?25 only whether the cursor shows. |
| `CursorLaws.IgnoresMode` | kernel/src/Flanterm/src/flanterm.c:475-498 | Any other mode but 1049 changes nothing. |
| `CursorLaws.EntersAlternate` | kernel/src/Flanterm/src/flanterm.c:475-498 | ?1049 set saves cursor, attributes, origin mode and character sets and blanks the screen. |
| `CursorLaws.LeavesAlternate` | kernel/src/Flanterm/src/flanterm.c:475-498 | ?1049 reset blanks the screen again and brings all of these back. |
| `ScreenLaws.ScrollsRegion` | kernel/src/Flanterm/src/flanterm.c:1038-1053 | SU: row r of the region holds what row r + n held, SD: row r - n; rows from outside are blank; nothing else changes. |
| `ScreenLaws.MovesLines` | kernel/src/Flanterm/src/flanterm.c:857-884 | DL and IL do the same from the cursor's row to the bottom margin, and nothing at all outside the margins. |
| `ScreenLaws.ErasesCells` | kernel/src/Flanterm/src/flanterm.c:972-982 | ECH blanks n cells from the cursor on, and no others. |
| `ScreenLaws.MovesCells` | kernel/src/Flanterm/src/flanterm.c:947-982 | ICH and DCH move the rest of the row right or left by n; cells from outside the row are blank. |
| `ScreenLaws.ErasesLine` | kernel/src/Flanterm/src/flanterm.c:992-1016 | EL blanks from the cursor on, up to it, or the row, and no other cell. |
| `ScreenLaws.ErasesScreen` | kernel/src/Flanterm/src/flanterm.c:906-946 | ED blanks from the cursor on, up to it, or all, in reading order, and no other cell. |
| `ScreenLaws.ControlMoves` | kernel/src/Flanterm/src/flanterm.c:612-640 | Backspace goes back a column, carriage return to the first. |
| `ScreenLaws.TabStops` | kernel/src/Flanterm/src/flanterm.c:618-625 | A tab goes to the next multiple of eight, at most to the last column. |
| `ScreenLaws.LineFeeds` | kernel/src/Flanterm/src/flanterm.c:626-636 | LF, VT, FF and IND go down a row; on the bottom margin the region moves up a row instead, and below it the last row stays. |
| `ScreenLaws.EscapeMoves` | kernel/src/Flanterm/src/flanterm.c:1186-1204 | NEL goes down and to the first column; RI goes up, or moves the region down on the top margin. |
| `ScreenLaws.ControlSelects` | kernel/src/Flanterm/src/flanterm.c:641-646 | Shift out and shift in choose between the two character sets. |
| `ScreenLaws.ControlIgnored` | kernel/src/Flanterm/src/flanterm.c:2087-2106 | Every other control character only stops REP. |
| `ScreenLaws.SelectsSet` | kernel/src/Flanterm/src/flanterm.c:1210-1216 | ESC ( and ESC ) with 0 or B change exactly one of the two sets. |
| `ScreenLaws.Resets` | kernel/src/Flanterm/src/flanterm.c:1168-1177 | RIS, in full: a blank screen in default colours, cursor home, whole-screen margins, and every mode as at the start. |
| `ScreenLaws.PrintSteps` | kernel/src/Flanterm/src/flanterm.c:2108-2125 | A byte of seven bits prints itself, or its drawing in the special graphics set. |
| `ScreenLaws.PrintsHere` | kernel/src/Flanterm/src/flanterm.c:2108-2125 | The glyph stands at the cursor, which moves on a column; in insert mode the cells after it move right; no other cell changes. |
| `ScreenLaws.PrintsLast` | kernel/src/Flanterm/src/flanterm_backends/fb.c:1101-1127 | Past a full row without wrapping the last glyph is replaced. |
| `ScreenLaws.WrapsFirst` | kernel/src/Flanterm/src/flanterm_backends/fb.c:1101-1127 | Past a full row with wrapping, printing is carriage return, line feed and then printing, scrolling included. |
| `ScreenLaws.TypesText` | kernel/src/Flanterm/src/flanterm.c:132-140 | Any run of bytes that fits before the end of the region stands in reading order from the cursor on, over the ends of rows, with every other cell as it was and the cursor right after it. |
| `ScreenLaws.RepeatsByte` | kernel/src/Flanterm/src/flanterm.c:1054-1072 | A byte and REP with n is that byte sent 1 + min(n, columns) times. |
| `ScreenLaws.RepeatsNothing` | kernel/src/Flanterm/src/flanterm.c:1054-1072 | REP after anything but a printed character does nothing. |
| `SequenceLaws.EmptyIsZero` | kernel/src/Flanterm/src/flanterm.c:686-699 | A parameter left out before the last one counts as zero, wherever it stands and whatever the sequence. |
| `SequenceLaws.UnknownSkipped` | kernel/src/Flanterm/src/flanterm.c:720-747 | A sequence with an intermediate byte, private or not, is skipped to its final byte: nothing of it acts and nothing is taken for text. |
| `SequenceLaws.SecondBracket` | kernel/src/Flanterm/src/flanterm.c:653-657 | A second bracket ends the sequence and drops the one byte after it, whatever that is. |
| `SequenceLaws.ControlInside` | kernel/src/Flanterm/src/flanterm.c:664-667 | A control character before the final byte acts at once, and the sequence then acts as if it had come after it. |
| `SequenceLaws.EscapeRestarts` | kernel/src/Flanterm/src/flanterm.c:757-764 | An escape gives an ordinary sequence up and starts anew, whatever follows. |
| `SequenceLaws.EscapeUnskips` | kernel/src/Flanterm/src/flanterm.c:735-747 | So it does in a sequence that is being skipped. |
| `SequenceLaws.EscapeSwallowed` | kernel/src/Flanterm/src/flanterm.c:720-732 | In a private sequence it only ends the sequence, and whatever follows is text. |
| `SequenceLaws.RestartsIff` | kernel/src/Flanterm/src/flanterm.c:720-764 | Exactly: an escape inside a sequence starts a new one if and only if the sequence is not private. |
| `SequenceLaws.BracketPrinted` | kernel/src/Flanterm/src/flanterm.c:720-732 | An input where that shows: the bracket of the next sequence is printed. |
| `SequenceLaws.CommandClosed` | kernel/src/Flanterm/src/flanterm.c:566-602 | A command ended by ESC \ touches neither screen nor modes, and its first 256 bytes are kept. |
| `SequenceLaws.CommandLeft` | kernel/src/Flanterm/src/flanterm.c:1125-1143 | An escape with any other byte gives the command up, and the escape sequence acts as always. |
| `TextLaws.PrintsFound` | kernel/src/Flanterm/src/flanterm.c:2026-2044 | A code point in the code page prints its glyph at the cursor; in insert mode the row makes room by one. |
| `TextLaws.PrintsWide` | kernel/src/Flanterm/src/flanterm.c:2026-2044 | One that is not prints glyph 0xFE and blanks over the rest of its width, if that fits; the row makes room by the width. |
| `TextLaws.PrintsNothing` | kernel/src/Flanterm/src/flanterm.c:2026-2044 | One of no width changes nothing. |
| `TextLaws.Malformed` | kernel/src/Flanterm/src/flanterm.c:1981-2023 | Every overlong or surrogate sequence prints one glyph 0xFE, which REP repeats; every one above 0x10FFFF prints nothing. |
| `TextLaws.StrayByte` | kernel/src/Flanterm/src/flanterm.c:2119-2125 | A byte that begins nothing prints glyph 0xFE, which REP repeats. |
| `TextLaws.CutShort` | kernel/src/Flanterm/src/flanterm.c:1981-1991 | A lead byte followed by no continuation prints glyph 0xFE, which REP does not repeat, and the byte then acts as always. |
| `TextLaws.SelectionDropped` | kernel/src/Flanterm/src/flanterm.c:2048-2050 | A code point of several bytes after ESC ( or ESC ) is printed as always and changes no set. |
| `LogRing.StepInv` | kernel/src/arch/x86_64/debug/Logger.c:135-164 | Every atomic step of producers and consumer keeps the ring invariant. |
| `LogRing.RunInv` | kernel/src/arch/x86_64/debug/Logger.c:76-93 | So does every interleaving. |
| `LogRing.EveryRun` | kernel/src/arch/x86_64/debug/Logger.c:76-164 | For every interleaving in which tickets stay within a ring of the oldest unpublished one and no ticket number is issued twice: messages come out whole, once each, in ticket order; a slot has at most one writer, and none while it is printed. |
| `LogRing.NoDeadlock` | kernel/src/arch/x86_64/debug/Logger.c:76-164 | While a message is not printed some thread can go on. |
| `LogRing.LappedWritersCollide` | kernel/src/arch/x86_64/debug/Logger.c:135-146 | A ticket one ring ahead of a waiting one leads to two writers of one slot. |
| `LogRing.LapReachable` | kernel/src/arch/x86_64/debug/Logger.c:135-139 | That situation is reached from the start. |
| `LogRing.SlotsAgreeIff` | kernel/src/arch/x86_64/debug/Logger.c:135-139 | The slot a message is written to is the one it is looked for in exactly if the ticket counter has wrapped a multiple of 127 times. |
| `LogRing.WrapStalls` | kernel/src/arch/x86_64/debug/Logger.c:76-93 | After 2^32 messages the next one goes to slot 0 while the printing thread looks at slot 16: it is not seen, and the printing thread cannot go on as long as no other message is issued. |
| `LogRing.WrapReachable` | kernel/src/arch/x86_64/debug/Logger.c:76-164 | That state is reached from the start. |
| `LogWrap.WrapMisorders` | kernel/src/arch/x86_64/debug/Logger.c:76-164 | Going on from there, of the next seventeen messages the last is printed first: the output is not the messages in ticket order. |
| `CStrings.Strcmp` | kernel/src/string/string.c:15-21 | Zero exactly for equal strings. |
| `CStrings.Strlen` | kernel/src/string/string.c:5-13 | The length of the string at a position. |
| `CStrings.Strchr` | kernel/src/string/string.c:52-60 | Whether a character occurs in a string. |
| `CStrings.StrtokR` | kernel/src/string/string.c:81-103 | The next token is cut off in place; at the end the buffer and the saved position stay. |
| `CStrings.TokenIsComponent` | kernel/src/string/string.c:81-103 | Cutting a token off a path cuts its first component off. |
| `CStrings.PrintedSplits` | kernel/src/vfs/fs.c:384-412 | Splitting a printed path gives its components. |
| `Paths.Vfs.Lookup` | kernel/src/vfs/vfs.c:60-73 | The entry with the name in list order, if any. |
| `Paths.Vfs.Create` | kernel/src/vfs/vfs.c:75-109 | For every name: refused exactly if it is taken; otherwise the entry is added, sibling names stay unique, and every path that led somewhere leads to the same entry. |
| `Paths.Vfs.KpathLookup` | kernel/src/vfs/fs.c:12-50 | The result is the resolution of the components, dots included; exactly its reference count grows. |
| `Paths.Vfs.KpathReverse` | kernel/src/vfs/fs.c:367-413 | The buffer holds the printed path, and the backward fill ends exactly at its first byte. |
| `Paths.Vfs.ReverseThenLookup` | kernel/src/vfs/fs.c:367-413 | Looking up the printed path of an entry from the root finds that entry if and only if no name on its way is empty, dotted or slashed. |
| `DentryTree.PrintedResolves` | kernel/src/vfs/fs.c:367-413 | The printed path of an entry leads to it exactly under that condition. |
| `Paths.SlashedName` | kernel/src/vfs/vfs.c:75-109 | An input: an entry named a/b, which creation accepts, is not found by its printed path. |
| `DentryTree.RefsResolve` | kernel/src/vfs/fs.c:12-50 | Counting a reference on an entry changes where no path leads. |
| `DentryTree.ReverseOfLookup` | kernel/src/vfs/fs.c:12-50 | The path printed for what a path leads to is that path in normal form. |
| `Paths.Vfs.KpathCreateForce` | kernel/src/vfs/fs.c:163-260 | Afterwards the path resolves; nothing changes if it did before; paths that resolved still do; every new entry is on the path; new entries on the way are directories, and a new last one is of the kind asked for, if the path has no dots (one with dots can end at an entry it made on the way). |
| `Getdents.File.Read` | kernel/src/vfs/vfs.c:161-236 | Writes as many whole records as fit and nothing beyond them; fails exactly if the next record does not fit, leaving position and buffer; otherwise the position is where it stopped. |
| `Getdents.ReadBack` | kernel/src/vfs/vfs.c:161-236 | What a call wrote, read by its length fields, is the entries it went over with their positions. |
| `Getdents.HeadFields` | kernel/src/vfs/vfs.c:192-214 | The layout of a record: inode in bytes 0 to 7, position in 8 to 15, length in 16 and 17, type in 18, then the name and its zero. |
| `Getdents.LengthField` | kernel/src/vfs/vfs.c:198 | The 16-bit length field is right if and only if the record is shorter than 65536 bytes. |
| `Getdents.ReachesEnd` | kernel/src/vfs/vfs.c:161-236 | Enough calls with room for the next record reach the end. |
| `Getdents.Session` | kernel/src/vfs/vfs.c:161-236 | Any series of calls returns every entry up to the position reached, once, in order: first the directory and its parent as . and .., numbered 1 and 2, with their own inodes, then the children. |
| `HList.AddHeadLinked` | kernel/src/defines/lists.h:36-45 | The pointers then form the list with the node in front. |
| `HList.DelLinked` | kernel/src/defines/lists.h:47-56 | The pointers then form the list without the node, which points nowhere. |
| `RoundRobin.TurnNearer` | kernel/src/arch/x86_64/scheduler/scheduler.c:908-933 | A switch picks a given runnable thread or comes nearer to it. |
| `RoundRobin.EveryoneGetsATurn` | kernel/src/arch/x86_64/scheduler/scheduler.c:908-933 | On an unchanged list of n threads every runnable one runs within n switches, whichever thread is current, one that has just exited included. |
| `RoundRobin.NeverFound` | kernel/src/arch/x86_64/scheduler/scheduler.c:911-933 | With a list of which none is runnable and the current thread not on it, the loop never ends. |
| `Scheduler.RunQueue.SelectNext` | kernel/src/arch/x86_64/scheduler/scheduler.c:908-933 | The loop ends with the first runnable thread in cyclic order after the current one. |
| `Scheduler.RunQueue.Switch` | kernel/src/arch/x86_64/scheduler/scheduler.c:886-953 | The new current thread is listed and runnable, so has not exited. |
| `Scheduler.RunQueue.SwitchMany` | kernel/src/arch/x86_64/scheduler/scheduler.c:886-953 | Repeated switches follow the turns, from any current thread. |
| `Scheduler.RunQueue.Spawn` | kernel/src/arch/x86_64/scheduler/scheduler.c:633-645 | A new thread is at the head of the list; nobody else changes. |
| `Scheduler.RunQueue.ThreadExit` | kernel/src/arch/x86_64/scheduler/scheduler.c:653-672 | The thread leaves the list for good; kernel threads and exited ones are left alone. |
| `Scheduler.RunQueue.ProcExit` | kernel/src/arch/x86_64/scheduler/scheduler.c:674-692 | Exactly the threads of the process are gone, the current one with the process's code; other threads are untouched. |
| `Scheduler.RunQueue.History` | kernel/src/arch/x86_64/scheduler/scheduler.c:653-700 | Any events, in any order, take the scheduler through moments each of which follows from the one before by its event: who exits, who becomes runnable, and whom a switch chooses. |
| `Scheduler.NeverChosenAgain` | kernel/src/arch/x86_64/scheduler/scheduler.c:653-953 | In every such history a thread that has exited at some moment is not chosen by any later event. |
| `Scheduler.ExitedInside` | kernel/src/arch/x86_64/scheduler/scheduler.c:653-953 | So a thread of a process that exits inside the history is not chosen after that. |
| `UserStack.SetupUserStackArgs` | kernel/src/arch/x86_64/scheduler/scheduler.c:374-434 | Fails exactly if the image is larger than the stack; otherwise the image stands below the top, its strings end at the top, unused vector entries and padding are zero, and no other byte changed. With strings free of zero bytes a reader that knows only the stack pointer finds what `ReadsBack` says. |
| `UserStack.ReadsBack` | kernel/src/arch/x86_64/scheduler/scheduler.c:374-434 | Reading from the user's stack pointer alone gives the count, the arguments after it, past their null the environment, and past its null the entries 6 with 4096 and 25 with the address sixteen below the top, then the end; the pointer is 16-aligned when the top is. |
| `UserStack.SizeIs` | kernel/src/arch/x86_64/scheduler/scheduler.c:374-434 | How large the image is, in numbers: strings with their ends, eight bytes a word, rounded up to sixteen. |
| `LittleEndian.LowestFirst` | kernel/src/arch/x86_64/scheduler/scheduler.c:374-434 | Words and lengths are read with the byte of weight one first. |

## Left out

- Heap.KernelHeap.Kmalloc: stated for sizes accepted by `HeapBlocks.Tame`; the source also takes sizes whose 32-bit rounding gives an empty block or wraps the search, for which the header would lie in free bytes.
- Heap.KernelHeap.Kmalloc: the pages the heap grows by come in as a parameter, required to hold no block in use; `HeapPages` takes them from the address allocator instead. Taking frames for them is a parameter, and mapping them is the page-table part.
- HeapPages.PagedHeap.Kmalloc: the same sizes; and so for HeapRuns.Serve.
- Parser.Context.PutChar: does not model callbacks to the host (reports, the bell, mode and command notifications), nor the colours and attributes that SGR sequences set; in the model such a sequence has no effect.
- Parser.Context.DecPrivateParse: does not model the callback either; a private mode that only notifies the host has no effect in the model.
- `sgr`: with it reverse video and the palette swap of RIS.
- `unicode_to_cp437` and `mk_wcwidth`: tables, taken as arbitrary functions.
- `_walk_leaf_phys` and `uvma_is_range_free`: read-only walks like the one modelled, without huge pages.
- `krealloc`, `aligned_malloc` and `force_alloc`: the first calls into its own lock, the others would add easy members or have no callers.
- `pmm_init`, `hhdm_init` and boot code: the model starts from a valid bitmap and valid tables.
- `map_2m`, `map_1g` and `uvma_map_pages`: huge pages are walked and refused on mapped paths, not created.
- Page-table words are records of frame, present bit and flags, not 64-bit integers; kernel virtual addresses are counted in pages.
- Locks, interrupt masking, TLB flushes, CR3 and FPU state: every operation runs alone, except in the log ring, whose steps interleave.
- Allocation failure inside path operations, null arguments and the inode operations table.
- `kpath_create` and `kpath_mkdir`: they cut the path at its last slash and create there, which would only add easy members.
- `_get_unused_tid`, id tables and reapers; `ktty_write` as a producer of the log ring.
- `vsnprintf` formatting: a producer may write its slot in any order before publishing the finished text.
