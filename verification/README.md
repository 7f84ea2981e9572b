# Verified model of the kernel's core

A small 32-bit x86 kernel keeps most of its difficult logic in headers. This project models six
groups of that logic in Dafny and proves what they are for:

- **Memory.** A bitmap allocator of physical blocks, a page-table mapper that draws its tables from
  it, and a first-fit heap that grows through both (`PhysicalMemory`, `PhysicalMemoryRuns`,
  `VirtualMemory`, `KernelPages`, `TableClear`, `TableChain`, `FirstFitHeap`, `HeapBacking`,
  `RegionCrossing`, `MallocHeap`).
- **Raster algorithms.** Recursive boundary fill, Bresenham lines and midpoint circles, in 16-bit
  arithmetic (`BoundaryFill`, `DrawLine`, `DrawCircle`).
- **The calculator.** A recursive-descent evaluator over a global cursor (`Calculator`,
  `CalculatorEvaluator`, `CalculatorMeaning`, `CalculatorMinusOne`).
- **The ELF loader.** A bounds pass over the program headers and an image pass (`ElfLoader`).
- **Files.** Bitmaps, inodes and directories on disk, extents, and open files that behave as a byte
  sequence with a position (`Volume`, `DiskBitmap`, `FileSystem`, `FileSystemDriver`,
  `FormattedVolume`, `FileBlocks`, `OpenFile`), with `memcpy32` and its siblings (`Bytes`).
- **printf and the terminal.** A printer and an escape-sequence parser that undo each other
  (`Formatting`, `Printer`, `Terminal`, `EscapeRoundTrips`, `FormatRoundTrips`, `TerminalText`).

Code that works by side effect is modelled as classes and methods with loops; each method is proved
against a function of the old state, and the theorems are about that function. Where the code meets
its purpose only under a condition, the condition is proved exact, in a lemma whose name ends in
`Iff`, and inputs that break it are given as lemmas of their own.

`dafny verify dfyconfig.toml` checks the project with Dafny 4.11.

## Where the code and its promises part

- A physical request of more than 33 blocks can be granted on blocks that are in use: the probe of
  the next word shifts by 32 or more (`ScanIsNaiveScanIff`).
- An exact fit on the heap's last block leaves no free tail, and the block is handed out again
  (`ExactFitOnTailHandsOutTwice`); the guard under which the heap is safe is `FirstFitHeap.Guard`,
  and it is exact (`NextBlockIsSafeIff`).
- A page table at or above 2 GB is never given back: the mask drops bit 31
  (`UnmapReturnsTheTableIff`).
- A new page table is cleared from the wrong address whenever the entry has flags
  (`ClearsTheTableIff`).
- Lines whose longer span is 10924 or more can leave the line (`SpansAreSafeIff`), and circles of
  radius 16557 or more the circle (`RadiiAreSafeIff`).
- A page table the heap's growth creates maps itself at its own address. When its frame has the
  number of a heap page, that page is lost, as it can be when the heap outgrows its first 4 MB
  (`RoundIsSoundIff`, `GrowthIsSoundIff`, `FourMegabyteHeapLosesAPage`).
- An odd number of minus signs without an operand is the number 1 (`MissingOperandIsErrorIff`), and
  a text with an operand of -1 where the parser compares it is not evaluated, unless that operand
  stands last and the whole is -1 (`GrammarTextEvaluatesIff`).
- Deleting a file of several blocks fills all but the first with the data bitmap instead of zeros:
  the buffer that was cleared is the one the bitmap is read into (`DeletionZeroesIff`).
- An executable with nothing to load gets a buffer of one byte (`NothingToLoadIsOneByte`).
- Extents of 32 blocks or more are only partly transferred (`TransferIsWholeIff`).
- The scan for a free bit forgets which bitmap block it is in (`FoundIsFirstFreeIff`).
- A read from past the end of the file asks for almost 4 GB (`ReadCountIff`).
- The boundary fill stops at a pixel mixed from the bytes of its two colours, unless they differ in one
  byte at most (`NeitherColorIsDrawableIff`).
- A backspace in the first column takes the cursor off the screen (`BackspaceStaysOnScreenIff`).
- A colour with a hexadecimal digit B cannot be set as foreground (`ColoursRoundTripIff`).

## Model

| member | source | states |
|---|---|---|
| PhysicalMemory.ScanIsNaiveScanIff | include/memory/physical_memory_manager.h:45-77 | The scan that skips full words and probes across a word boundary returns, on every bitmap, the least start in the whole-word part with n consecutive clear bits (and -1 exactly when there is none) if and only if n is at most 33 |
| PhysicalMemory.WrapWitnessFoolsTheScan | include/memory/physical_memory_manager.h:59-70 | For every n above 33 a concrete bitmap on which the scan accepts a run that is not free, because the probe of the second word shifts by more than 31 |
| PhysicalMemory.FirstFit | include/memory/physical_memory_manager.h:45-77 | The naive scan: its result is the least start of n clear bits, or -1 when no start has them |
| PhysicalMemory.RangeUpdatesAt | include/memory/physical_memory_manager.h:128-130 | Setting (or clearing) a run of bits changes the bits of the run and no other |
| PhysicalMemory.RangeUpdates | include/memory/physical_memory_manager.h:141-146 | The set of set bits gains, or loses, exactly the run |
| PhysicalMemory.PhysicalMemoryManager.SetBlock | include/memory/physical_memory_manager.h:16-23 | Sets one bit of the array of words, all others as they were |
| PhysicalMemory.PhysicalMemoryManager.UnsetBlock | include/memory/physical_memory_manager.h:26-33 | Clears one bit of the array of words, all others as they were |
| PhysicalMemory.PhysicalMemoryManager.FindFirstFreeBlocks | include/memory/physical_memory_manager.h:45-77 | The nested loops return the first start their probes accept, and -1 for no blocks or when none is accepted |
| PhysicalMemory.PhysicalMemoryManager.AllocateBlocks | include/memory/physical_memory_manager.h:120-138 | For runs of up to 33 blocks: refuses when the count of free blocks is not above n or no run exists, otherwise marks the least free run, adds n to the used count and returns its address |
| PhysicalMemory.PhysicalMemoryManager.FreeBlocks | include/memory/physical_memory_manager.h:141-149 | Clears exactly the run the address names and subtracts it from the used count in 32 bits |
| PhysicalMemory.PhysicalMemoryManager.InitializeMemoryRegion | include/memory/physical_memory_manager.h:92-105 | Clears the region, keeps block 0 set, and takes the region off the used count |
| PhysicalMemory.PhysicalMemoryManager.DeinitializeMemoryRegion | include/memory/physical_memory_manager.h:108-117 | Sets the region and adds it to the used count |
| PhysicalMemoryRuns.AcquireIsSafe | include/memory/physical_memory_manager.h:120-138 | An allocation hands out a run that was free, apart from every live run and from block 0, or changes nothing |
| PhysicalMemoryRuns.GiveBackIsSafe | include/memory/physical_memory_manager.h:141-149 | Giving back a live run frees exactly its blocks |
| PhysicalMemoryRuns.AcquireOutcome | include/memory/physical_memory_manager.h:120-138 | A request of up to 33 blocks is met if and only if more blocks than it asks for are left and a run of them is free: the first such run becomes the caller's, its bits are set and the count grows; otherwise nothing changes |
| PhysicalMemoryRuns.GiveBackOutcome | include/memory/physical_memory_manager.h:141-149 | Giving a run back takes it from its owner, clears its bits and no others, and lowers the count |
| PhysicalMemoryRuns.RunsAreSafe | include/memory/physical_memory_manager.h:80-149 | Over every run of allocations (up to 33 blocks) and releases of owned runs: set bits are exactly the reserved blocks and the live runs, live runs are pairwise disjoint, block 0 is never handed out, and used_blocks minus the number of set bits stays constant |
| VirtualMemory.ShiftsSelectThePage | include/memory/virtual_memory_manager.h:213 | The three shifts of a 32-bit address select its page-table index, and the top ten bits its directory index |
| VirtualMemory.EntryKeepsFrame | include/memory/virtual_memory_manager.h:213-222 | A frame address joined with flags below 4096 is their sum, and masking gives the frame back |
| VirtualMemory.NewTableIsWellFormed | include/memory/virtual_memory_manager.h:217-224 | A fresh frame named by a zero directory entry keeps page tables in pairwise distinct used frames and leaves every other entry and frame alone |
| VirtualMemory.NewTableChangesNoTranslation | include/memory/virtual_memory_manager.h:222-223 | A cleared new table changes the translation of no page |
| VirtualMemory.PageWriteIsLocal | include/memory/virtual_memory_manager.h:213 | Writing one page-table word changes the translation of that page and no other |
| VirtualMemory.MapPageSpec | include/memory/virtual_memory_manager.h:208-215 | map_address: on success the page translates to phys or flags; every page other than it and the pages of the tables created keeps its translation; tables created take frames that were free, are entered in the directory with the flags asked for, the first one with the block just allocated, map themselves, and are exactly the bits added to the bitmap; on failure nothing changed, there was no table and no block |
| VirtualMemory.CreateTableSpec | include/memory/virtual_memory_manager.h:217-229 | create_page_table, mutually recursive with map_address: the same, with no page of its own to map; the region's directory entry is the allocated block or flags |
| VirtualMemory.UnmapFrameIff | include/memory/virtual_memory_manager.h:235 | The mask 0x7FFFF000 recovers an entry's frame if and only if the entry lies below 2 GB |
| VirtualMemory.UnmapReturnsTheTableIff | include/memory/virtual_memory_manager.h:231-241 | Unmapping frees the table's own frame if and only if the table lies below 2 GB |
| VirtualMemory.UnmapPageSpec | include/memory/virtual_memory_manager.h:231-246 | With memory up to 2 GB: the region's table frame and no other goes back to the bitmap, all 1024 pages of the region translate to null, no other page, no other directory entry and no frame but the directory changes |
| VirtualMemory.RunsKeepAccounts | include/memory/virtual_memory_manager.h:208-246 | Over every run of map_address and unmap_address, failures included: used blocks are exactly the ones in use for something else and the frames named by nonzero directory entries; pages no step touches keep their translation; no frame in use for anything else is written |
| VirtualMemory.StepKeepsAccounts | include/memory/virtual_memory_manager.h:208-246 | One map_address or unmap_address: a mapping gives its page the address and flags, unless there is no table and no block for one and nothing changes; an unmapping leaves its region without a table and all its pages null; other pages and frames in use for anything else stay |
| VirtualMemory.MappingLasts | include/memory/virtual_memory_manager.h:208-246 | A mapping that succeeds lasts: over any run after it, the page keeps address and flags until a step touches it |
| BitOps.OrJoinsBits | include/memory/virtual_memory_manager.h:213 | OR has a bit exactly where one of the two words has it |
| BitOps.AndNotClearsBits | include/elf/elf.h:125-126 | x & ~m has a bit exactly where x has it and m has not |
| VirtualMemory.VirtualMemoryManager.MapAddress | include/memory/virtual_memory_manager.h:208-215 | The method on the directory and tables in memory computes MapPage, as MapPageSpec describes it, and keeps the machine well formed; the recursion ends because zero directory entries become fewer |
| VirtualMemory.VirtualMemoryManager.CreatePageTable | include/memory/virtual_memory_manager.h:217-229 | The method computes CreateTable, as CreateTableSpec describes it, the outcome of mapping the table itself being ignored |
| VirtualMemory.VirtualMemoryManager.UnmapPageTable | include/memory/virtual_memory_manager.h:231-241 | The method computes UnmapPage and keeps the machine well formed |
| VirtualMemory.VirtualMemoryManager.UnmapAddress | include/memory/virtual_memory_manager.h:243-246 | The method computes UnmapPage, doing nothing for a zero entry |
| VirtualMemory.VirtualMemoryManager.GetPhysicalAddress | include/memory/virtual_memory_manager.h:248-252 | Returns the page's translation, null without a table |
| TableClear.ClearsTheTableIff | include/memory/virtual_memory_manager.h:222-223 | The clear, which starts at the entry with its flags, clears exactly the new table if and only if the bytes it skips at the table's start and the bytes it overruns after its end were zero already |
| KernelPages.SetFrameIff | include/memory/virtual_memory_manager.h:22 | SET_FRAME keeps the low twelve bits, and sets the frame asked for if and only if the entry had bit 31 clear or the frame has it set |
| KernelPages.MapKernelPageSpec | include/memory/virtual_memory_manager.h:165-198 | map_page: on success the entry is present with its other flags kept and names the frame, exactly unless bit 31 of the old entry sticks; no other page changes; a new table takes one free frame and is entered in the directory as that frame, present and writable, no other directory entry changing; no frame in use for anything else is written; on failure nothing changed |
| KernelPages.UnmappedIff | include/memory/virtual_memory_manager.h:201-206 | unmap_page leaves an entry that is not present with its other flags kept, and a null frame if and only if the entry lay below bit 31 |
| KernelPages.KernelPager.MapPage | include/memory/virtual_memory_manager.h:165-198 | The method computes MapKernelPage on the current directory |
| KernelPages.KernelPager.SetPage | include/memory/virtual_memory_manager.h:191-195 | Writes one entry of a table that is there |
| KernelPages.KernelPager.UnmapPage | include/memory/virtual_memory_manager.h:201-206 | The page gets its unmapped entry; every other translation, the directory, the bitmap and the frames that hold no table stay |
| FirstFitHeap.Find | include/memory/malloc.h:75-78 | The search stops at the first block that is free and large enough, else at the last block |
| FirstFitHeap.PagesNeeded | include/memory/malloc.h:90-92 | The growth loop's count is the least number of pages, at least one, that makes the block large enough |
| FirstFitHeap.NextBlockKeeps | include/memory/malloc.h:64-113 | A guarded request: the list still tiles the heap with a free last block, the block handed out joins the live ones, none of which moves or changes size, and no lower free block would have fitted |
| FirstFitHeap.NextBlockCuts | include/memory/malloc.h:64-113 | A guarded request cuts the first block that fits, else the last, into the bytes asked for and a free rest that ends where the block did, or the pages of growth further on; every other block stays; the heap grows only when the block is too small, and by no page more than needed |
| FirstFitHeap.NextBlockIsSafeIff | include/memory/malloc.h:64-113 | For every well laid out heap and every request, malloc_next_block ends with a well laid out heap if and only if the guard holds: no exact fit on the last block, growth only on the last block, at most 255 pages, no 32-bit wrap |
| FirstFitHeap.ExactFitOnTailHandsOutTwice | include/memory/malloc.h:80-82 | An exact fit on the last block followed by one more request hands out the same address twice |
| FirstFitHeap.MergePassTiles | include/memory/malloc.h:116-127 | One merge pass keeps the blocks back to back over the same bytes, headers included, and the last block free |
| FirstFitHeap.MergePassKeepsTaken | include/memory/malloc.h:116-127 | One merge pass leaves the allocated blocks unchanged in address, size and order |
| FirstFitHeap.MergePassHalvesRuns | include/memory/malloc.h:116-127 | One merge pass turns every maximal run of k free blocks into ceil(k/2) free blocks, whatever precedes or follows it |
| FirstFitHeap.FindPointer | include/memory/malloc.h:131-132 | The search for a payload address ends at the first block with that payload, never looking at the last |
| FirstFitHeap.FreePointerKeeps | include/memory/malloc.h:129-137 | Freeing takes exactly the block with that payload address off the live ones, whatever the address, and keeps the layout |
| FirstFitHeap.FreeingMerges | include/memory/malloc.h:129-137 | Freeing merges: any longest row of free blocks, the freed one among them, becomes half as many rounded up over the same bytes, joined two by two from the first; the taken blocks before and after it keep address, size and order |
| FirstFitHeap.FreedPairIsReused | include/memory/malloc.h:116-137 | A row of two free blocks, one just freed, becomes one as large as both and the header between, and a request of that size is met no further up |
| FirstFitHeap.MallocMerges | include/interrupts/syscalls.h:110-123 | Allocation through the system call joins every longest row of free blocks it leaves in the same way |
| FirstFitHeap.RunsAreSafe | include/interrupts/syscalls.h:110-133 | Over every guarded run of malloc (with its merge) and free: the list tiles total_malloc_pages * 4096 bytes, the last block is free, live blocks are exactly those handed out and not freed, each where and as large as it was handed out, pairwise apart and inside the heap |
| TableChain.MapTakesChain | include/memory/virtual_memory_manager.h:208-229 | The page tables a mapping creates, one for its region, one for the region of that table and so on, are exactly the chain of next free frames the bitmap and the directory tell in advance |
| TableChain.CreateTakesChain | include/memory/virtual_memory_manager.h:217-229 | The same of creating a table |
| HeapBacking.RoundIsSoundIff | include/memory/malloc.h:97-105 | One page of growth keeps the pages of the heap backed by pairwise distinct data frames, present, writable and open to the user, if and only if a frame is free, the region has a table or a second frame is free for it, and no table of the chain is numbered as a page of the heap |
| HeapBacking.GrowthIsSoundIff | include/memory/malloc.h:94-105 | A growth of any number of pages keeps them backed if and only if every round fits, as the bitmap and the directory before the growth tell |
| HeapBacking.GrowthKeepsBacking | include/memory/malloc.h:94-105 | Growth that fits maps each new heap page to its own data frame with the heap's flags and leaves the pages before it mapped as they were |
| HeapBacking.RoundMapsPage | include/memory/malloc.h:97-105 | What a round that fits does: the page gets the frame just taken, with flags 7, as do the directory entries of the tables made for it, and no data frame is lost |
| HeapBacking.RegionCrossingLosesAPage | include/memory/virtual_memory_manager.h:220-226 | Growing into a region without a table while the second free frame is numbered as a page of the heap hands the address of that page to the new table |
| RegionCrossing.FourMegabyteHeapLosesAPage | include/memory/virtual_memory_manager.h:220-226 | A machine with 16 MB on which the heap fills its first 4 MB with every page backed, and loses a page on growing by one more |
| HeapBacking.BootedIsSoundIff | src/kernel.c:391-408 | Setting up the heap leaves it sound if and only if a frame for its first page, and one for the table if there is none, are free |
| HeapBacking.PhysicalIsTranslated | include/memory/virtual_memory_manager.h:248-252 | A heap address lies in the frame its page translates to, at its offset in the page |
| HeapBacking.LiveBlocksShareNoMemory | include/memory/malloc.h:94-112 | Bytes of two live blocks lie at different physical addresses |
| HeapBacking.StepIsSoundIff | include/interrupts/syscalls.h:110-133 | A malloc or free whose request meets the guard of the heap keeps heap and page tables sound if and only if its growth fits |
| HeapBacking.RunsStayBacked | include/memory/malloc.h:64-137 | Over every run of malloc and free whose requests meet the guard and whose growth fits, across heap, page tables and bitmap: heap pages stay backed by pairwise distinct frames that hold no page table, so no two live blocks share a byte of memory |
| MallocHeap.SegmentConcat | include/memory/malloc.h:50-61 | Linked headers: two chains that meet make one, and a chain splits where its blocks do |
| MallocHeap.MallocHeap.constructor | src/kernel.c:391-408 | The heap starts as one page, taken from the bitmap and mapped, holding one free block |
| MallocHeap.MallocHeap.MallocSplit | include/memory/malloc.h:50-61 | Relinks the headers so that the list shows the block cut in two |
| MallocHeap.MallocHeap.BackOnePage | include/memory/malloc.h:98-100 | Takes one frame and maps it at the next heap page |
| MallocHeap.MallocHeap.GrowBlock | include/memory/malloc.h:97-105 | The growth loop adds the pages to the block and maps each |
| MallocHeap.MallocHeap.FindBlock | include/memory/malloc.h:75-78 | Walks the links to the block the search stops at |
| MallocHeap.MallocHeap.CountPages | include/memory/malloc.h:90-92 | Counts pages up to the least number that suffices |
| MallocHeap.MallocHeap.MallocNextBlock | include/memory/malloc.h:64-113 | Under the guard, the linked list and page tables after the call are those of NextBlock and its growth, and the address returned is the one it hands out |
| MallocHeap.MallocHeap.MergeFreeBlocks | include/memory/malloc.h:116-127 | The walk over the links computes one merge pass |
| MallocHeap.MallocHeap.MallocFree | include/memory/malloc.h:129-137 | The walk over the links computes FreePointer, as FreePointerKeeps and FreeingMerges describe it, any address allowed |
| MallocHeap.MallocHeap.SyscallMalloc | include/interrupts/syscalls.h:110-123 | Allocation followed by a merge pass |
| MallocHeap.MallocHeap.SyscallFree | include/interrupts/syscalls.h:128-133 | Frees through malloc_free |
| BoundaryFill.ComponentIsLeast | include/gfx/2d_gfx.h:296-300 | The 4-connected component is the least set that holds the drawable seed and every drawable neighbour of its points |
| BoundaryFill.PartialExtends | include/gfx/2d_gfx.h:297-300 | A recursive call on a neighbour paints more of the same component, and only of it |
| BoundaryFill.PartialCompletes | include/gfx/2d_gfx.h:296-301 | After the four recursive calls the whole component is painted |
| BoundaryFill.Canvas.Fill | include/gfx/2d_gfx.h:274-302 | For a seed whose component does not touch the edge of the screen: ends (drawable pixels become fewer) and paints exactly the 4-connected component of drawable pixels with the seed; every other pixel keeps its bytes, as BoundaryHolds spells out for the boundary |
| BoundaryFill.BoundaryHolds | include/gfx/2d_gfx.h:274-302 | After such a fill a pixel of the boundary's colour is in no painted set and has its bytes; next to a painted pixel lie only painted ones and ones that had the bytes of the two colours; a painted pixel has the fill's bytes |
| BoundaryFill.ColorsStopTheFill | include/gfx/2d_gfx.h:283-290 | Neither a pixel of the fill's colour nor one of the boundary's is drawable |
| BoundaryFill.NeitherColorIsDrawableIff | include/gfx/2d_gfx.h:283-290 | Every pixel of neither colour is drawable if and only if the two colours differ in one byte at most |
| BoundaryFill.ColoredReadsBack | include/gfx/2d_gfx.h:293-294 | The bytes of a painted pixel, the least significant first, are those of its colour |
| BoundaryFill.Canvas.IsDrawable | include/gfx/2d_gfx.h:283-290 | The byte loop tells whether some byte of the pixel is neither the fill colour's nor the boundary colour's |
| BoundaryFill.Canvas.Paint | include/gfx/2d_gfx.h:293-294 | The byte loop sets one pixel's bytes and no other's |
| DrawLine.CursorFollows | include/gfx/2d_gfx.h:118-131 | In 16-bit arithmetic the error term after k steps puts the cursor on the k-th point of the ideal line, for spans up to 10923 |
| DrawLine.SpansAreSafeIff | include/gfx/2d_gfx.h:111-131 | Every line of spans up to m is drawn as the ideal line if and only if m is at most 10923 |
| DrawLine.LongSpanLosesTheLine | include/gfx/2d_gfx.h:122-130 | At spans 10924 and 1 the doubled error overflows and the 5463rd pixel is off the line |
| DrawLine.IdealReachesEnd | include/gfx/2d_gfx.h:120 | The ideal line is at its end point after max(D, H) steps and not before, inside the rectangle |
| DrawLine.IdealIsWithinHalfAPixel | include/gfx/2d_gfx.h:109-132 | A point a steps in x and b in y has twice its distance D*b - H*a, either way, at most max(D, H) |
| DrawLine.PlottedIsOnLine | include/gfx/2d_gfx.h:109-132 | Whichever way the line runs: a plotted pixel lies between the end points, the k-th is k columns, or rows where there are more, from the start, and within half a pixel of the straight line |
| DrawLine.DrawingSteps | include/gfx/2d_gfx.h:122-130 | One turn of the loop moves from the k-th point of the ideal line to the next |
| DrawLine.DrawLine | include/gfx/2d_gfx.h:109-132 | For spans up to 10923 the loop plots exactly max(D, H) + 1 pixels, the ideal line's points in order, first the start and last the end |
| DrawCircle.NearestIsUnique | include/gfx/2d_gfx.h:194-200 | The bound on x^2 + y^2 - r^2 fixes the row plotted in each column |
| DrawCircle.StepSouthEast | include/gfx/2d_gfx.h:197-200 | The decision variable stays (x+1)^2 + y^2 - y - r^2 when y steps down |
| DrawCircle.CursorStaysExact | include/gfx/2d_gfx.h:194-200 | In 16-bit arithmetic, for radii up to 16556, p stays exactly (x+1)^2 + y^2 - y - r^2 and x^2 + y^2 - r^2 between -y and y, column after column |
| DrawCircle.RadiiAreSafeIff | include/gfx/2d_gfx.h:180-200 | The same holds of every circle of radius up to m if and only if m is at most 16556 |
| DrawCircle.LargeCircleIsLost | include/gfx/2d_gfx.h:195-200 | At radius 16557 the first step down takes p below -32768, and the 131st point plotted is off the circle |
| DrawCircle.DrawCircle | include/gfx/2d_gfx.h:178-212 | For radii up to 16556: ends, plots one point in each column of the octant with x^2 + y^2 - r^2 between -y and y, all but the last above the diagonal and nearest to the circle, and the eight reflections of each |
| DrawCircle.MirroredIs | include/gfx/2d_gfx.h:203-210 | While no coordinate wraps, the eight points are exactly those whose two distances from the center are the point's, in either order |
| DrawCircle.CircleHas | include/gfx/2d_gfx.h:185-210 | The pixels plotted are exactly those whose two distances from the center, in one order or the other, are a point of the octant |
| Calculator.ParseSum | src/pgms/calculator.c:112-132 | Whatever the buffer, parsing ends and leaves the cursor between where it was and the first NUL, unless a division by zero faults |
| Calculator.ParseProduct | src/pgms/calculator.c:134-154 | The same of products; the mutual recursion ends by remaining text, then grammar rank |
| Calculator.ParseTerm | src/pgms/calculator.c:156-175 | The same of terms |
| Calculator.TermParses | src/pgms/calculator.c:156-175 | Every term of the grammar, with any blanks, parses to its value and to its end |
| Calculator.ProductParses | src/pgms/calculator.c:134-154 | Every product of the grammar parses to its left-associative value and to its end; DivisionTruncatesIn32Bits says what a division is worth |
| Calculator.SumParses | src/pgms/calculator.c:112-132 | Every sum of the grammar parses to its left-associative value and to its end |
| Calculator.PrintedSumsEvaluate | src/pgms/calculator.c:5-8 | A buffer holding a grammar text with any blanks between tokens: the parser gives its value (left-associative, truncating division, 32 bits) and stops at the end of the text, or faults exactly when it divides by zero, provided no operand compared with ERROR is -1 |
| CalculatorMinusOne.MissingOperandIsErrorIff | src/pgms/calculator.c:156-175 | Any number of minus signs, with any blanks, before a character that starts no term: the error if and only if their number is even, otherwise the number 1; the cursor is after them either way |
| CalculatorMinusOne.OnlyMinusesAreRefusedIff | src/pgms/calculator.c:112-175 | A text of nothing but minus signs is refused if and only if their number is even |
| CalculatorMinusOne.LoneMinusIsOne | src/pgms/calculator.c:169-170 | The shortest such text |
| CalculatorMinusOne.SumIsLevel | src/pgms/calculator.c:112-175 | Whatever the buffer, a parse never closes more parentheses than it opened |
| CalculatorMinusOne.GrammarTextEvaluatesIff | src/pgms/calculator.c:112-175 | A grammar text that does not divide by zero is evaluated to its value and read to its end if and only if no operand compared with ERROR is -1, or the first that is stands last and the whole is -1 |
| CalculatorMinusOne.TwiceMinusOneIsNotEvaluated | src/pgms/calculator.c:27-29 | 2*(1-2) is not evaluated to -2 and read to its end |
| Calculator.ApplyIsExact | src/pgms/calculator.c:120-148 | One operation whose exact result fits is exact in 32 bits |
| Calculator.SumIsExact | src/pgms/calculator.c:112-175 | When no subexpression overflows, the 32-bit value is the value in the integers |
| CalculatorMeaning.DivisionTruncates | src/pgms/calculator.c:144-145 | A product that ends in a division is worth the quotient truncated towards zero: what is left over is smaller than the divisor and has the dividend's sign; it faults exactly for a divisor of zero or a fault before |
| CalculatorMeaning.DivisionTruncatesIn32Bits | src/pgms/calculator.c:143-145 | The same of the 32-bit values, for any divisor but -1, which the parser takes for an error |
| CalculatorMeaning.TruncatedIsUnique | src/pgms/calculator.c:145 | There is only one truncated quotient |
| CalculatorMeaning.DivisionUndoesMultiplication | src/pgms/calculator.c:139-145 | Dividing by what was multiplied by gives back what there was |
| CalculatorMeaning.MultiplicationDistributes | src/pgms/calculator.c:139-141 | One times a term is the term, and products distribute over sums |
| CalculatorMeaning.SumIsTotal | src/pgms/calculator.c:112-132 | A sum is worth the total of its products, each with the sign before it: subtraction associates to the left |
| CalculatorMeaning.DigitAppended | src/pgms/calculator.c:181-189 | A digit after others makes ten times their number and itself |
| CalculatorMeaning.SumWraps | src/pgms/calculator.c:112-189 | Without division the 32-bit value, wrapped at every step, is the exact value wrapped once, however often it overflows |
| CalculatorMeaning.HalvesEvaluate | src/pgms/calculator.c:139-175 | The text -7/2 evaluates to -3 |
| CalculatorMeaning.LessEvaluates | src/pgms/calculator.c:112-132 | The text 9-5-2 evaluates to 2 |
| CalculatorMeaning.TwiceEvaluates | src/pgms/calculator.c:112-175 | The text 2*(3+4) evaluates to 14 |
| CalculatorEvaluator.Evaluator.MatchChar | src/pgms/calculator.c:200-206 | Moves the cursor over one matching character |
| CalculatorEvaluator.Evaluator.SkipAllBlanks | src/pgms/calculator.c:177-179 | Moves the cursor to the first character that is not a blank |
| CalculatorEvaluator.Evaluator.ParseNumber | src/pgms/calculator.c:181-189 | The method on the global cursor returns what ParseNumber computes |
| CalculatorEvaluator.Evaluator.ParseTerm | src/pgms/calculator.c:156-175 | The method on the global cursor returns what ParseTerm computes |
| CalculatorEvaluator.Evaluator.ParseProduct | src/pgms/calculator.c:134-154 | The loop over the global cursor returns what ParseProduct computes |
| CalculatorEvaluator.Evaluator.ParseSum | src/pgms/calculator.c:112-132 | The loop over the global cursor returns what ParseSum computes |
| Bytes.Memset | include/C/string.h:112-116 | Sets exactly the bytes named |
| Bytes.Memcpy | include/C/string.h:122-126 | Copies exactly the bytes named |
| Bytes.WordIsItsBytes | include/C/string.h:135-136 | A little-endian word loaded and stored is its four bytes |
| Bytes.Memcpy32 | include/C/string.h:132-143 | Copying words, then the odd bytes, is copying bytes |
| ElfLoader.BoundsAreBounds | include/elf/elf.h:98-131 | Although align grows while the headers are read: the bounds are page multiples around every loadable segment, each within one alignment of some segment, and the alignment is the page size or the greatest asked for |
| ElfLoader.FindBounds | include/elf/elf.h:98-131 | The first loop computes the bounds |
| ElfLoader.ImageOfDisjointSegments | include/elf/elf.h:150-170 | For segments whose file bytes do not overlap, each file byte stands at its address and every other byte is zero |
| ElfLoader.LastSegmentWins | include/elf/elf.h:150-170 | Where segments overlap the last one's byte stands |
| ElfLoader.NoSegmentIsZero | include/elf/elf.h:139-170 | An address no segment has a file byte for holds zero |
| ElfLoader.CopySegments | include/elf/elf.h:150-170 | The second loop builds the image over a zeroed buffer |
| ElfLoader.LoadElfFile | include/elf/elf.h:87-176 | Refused exactly when the file is not an executable, its image is empty or memory is short; otherwise the buffer has the size of the bounds and holds the image, and the entry is offset by the lower bound |
| ElfLoader.BufferHoldsSegments | include/elf/elf.h:133-138 | With something to load, the buffer is a whole number of pages and contains every segment |
| ElfLoader.NothingToLoadIsOneByte | include/elf/elf.h:94-133 | With nothing to load the initial bounds wrap around to a buffer of one byte |
| FileBlocks.TransferIsWholeIff | include/fs/fs_impl.h:31-34 | A transfer moves the whole extent if and only if the extent is shorter than 32 blocks |
| FileBlocks.BlocksHoldBytes | include/fs/fs.h:104-109 | bytes_to_blocks is the least number of blocks that hold the bytes |
| FileBlocks.SaveStaysInExtents | include/fs/fs_impl.h:47-68 | Saving changes no byte of the disk outside the extents |
| FileBlocks.SaveStores | include/fs/fs_impl.h:47-68 | Saving puts the file's blocks into the extents, one after the other |
| FileBlocks.LoadReadsStored | include/fs/fs_impl.h:23-44 | Loading copies what the extents hold and touches no other byte of memory |
| FileBlocks.LoadAfterSave | include/fs/fs_impl.h:23-68 | For pairwise apart extents of under 32 blocks whose lengths add up to the file's blocks, loading after saving restores every block byte for byte, wherever it is loaded |
| FileBlocks.SaveStopsAtTotal | include/fs/fs_impl.h:47-68 | Extents after the one that completes the file's blocks are not written |
| FileBlocks.LoadStopsAtTotal | include/fs/fs_impl.h:23-44 | Nor are they read |
| FileBlocks.LoadStaysInPlace | include/fs/fs_impl.h:23-44 | Loading changes no byte of memory outside the place of the extents |
| FileBlocks.Disk.RwSectors | include/disk/file_ops.h:91-133 | Transfers the sector count modulo 256, sector by sector, and changes nothing else |
| FileBlocks.Disk.FsSaveFile | include/fs/fs_impl.h:47-68 | The loop over the extents computes Save |
| FileBlocks.Disk.FsLoadFile | include/fs/fs_impl.h:23-44 | The loop over the extents computes Load |
| DiskBitmap.FoundIsFirstFreeIff | include/fs/fs_impl.h:283-307 | The scan of the bitmap blocks, which drops the number of the block it found the bit in, returns the first free bit (or 0 when there is none) if and only if the first block has one or no block has |
| DiskBitmap.FoundIsLeastClear | include/fs/fs_impl.h:283-307 | In a bitmap of one block the scan returns the least clear bit, or 0 when there is none |
| Volume.InsertScanFindsSlot | include/fs/fs_impl.h:479-513 | A scan bounded by the directory's count always finds the first empty slot, when there is one |
| Volume.CreatedIsSound | include/fs/fs_impl.h:340-532 | Creating a file keeps: free bits clear, inodes in their own slots, no shared blocks, directory sizes equal to 64 times their entries, entries naming live inodes and files named once, caches equal to the disk |
| Volume.CreatedNames | include/fs/fs_impl.h:498-510 | Creation adds exactly one name, the new inode's, in the parent's first empty slot |
| Volume.DeletedIsSound | include/fs/fs_impl.h:736-861 | Deleting a file keeps the same, whatever it leaves in the blocks it gives up |
| Volume.DeletedNames | include/fs/fs_impl.h:795-829 | Deletion takes away exactly the file's one name |
| Volume.NamedFilesMayBeDeleted | include/fs/fs_impl.h:795-836 | What deletion relies on follows from the parent naming the file: the entry is found, the directory keeps an entry and its block is not the file's |
| Volume.DeleteUndoesCreate | include/fs/fs_impl.h:340-861 | Deleting the file just created gives back the inode table, both bitmaps, the cached inodes and the rest of the disk as they were |
| Volume.CreatedCreates | include/fs/fs_impl.h:340-532 | Creation is for this: an inode that was not live becomes an empty file of one block that was free, the first empty entry of the directory named becomes its id and name, the directory grows by one entry, and every other inode, entry and data block stays |
| Volume.DeletedDeletes | include/fs/fs_impl.h:736-861 | Deletion is for this: the file's inode is no longer live and its slot is zeros, its blocks are free, its entry in the directory is empty, the directory shrinks by one entry, and every other inode, entry and data block stays |
| Volume.CreatingKeepsFiles | include/fs/fs_impl.h:340-532 | Creation leaves the inode and the contents of all blocks of every other file as they were |
| Volume.DeletingKeepsFiles | include/fs/fs_impl.h:736-861 | Deletion leaves the inode and the contents of all blocks of every other file as they were |
| FileSystem.InodeBitWritten | include/fs/fs_impl.h:228-257 | A write of an inode bit changes that bit of the inode bitmap and nothing else of the volume |
| FileSystem.DataBitWritten | include/fs/fs_impl.h:228-257 | A write of a data bit changes that bit of the data bitmap and nothing else of the volume |
| FileSystem.InodeWritten | include/fs/fs_impl.h:319-332 | A write of an inode changes its slot of the inode table and nothing else of the volume |
| FileSystem.CreateIsCreated | include/fs/fs_impl.h:340-532 | The writes creation makes to the disk, in order, amount to its effect on the volume; the free bits found are clear, and the superblock on disk records them |
| FileSystem.WipedAll | include/fs/fs_impl.h:761-775 | Wiping clears exactly the bits of the file and writes exactly its blocks, each with what the one block buffer holds when its turn comes |
| FileSystem.ReceivedIs | include/fs/fs_impl.h:761-775 | The first block receives the cleared buffer, and every later one the data bitmap, read into the same buffer, without the bits of the blocks before it |
| FileSystem.DeletionZeroesIff | include/fs/fs_impl.h:761-775 | Deleting a file leaves all of its blocks zero if and only if it has at most one block |
| FileSystem.SecondBlockKeepsBitmap | include/fs/fs_impl.h:761-775 | Of two blocks the second is left holding the data bitmap, less the bit of the first |
| FileSystem.DeleteIsDeleted | include/fs/fs_impl.h:758-858 | The writes deletion makes to the disk, in order, amount to its effect on the volume, what it leaves in the blocks of the file included |
| FileSystem.ResolvedIsNamed | include/fs/fs_impl.h:119-208 | The inode a path resolves to is the one with the id it leads to (1 for the root, the current directory's, or the entry's) when that one is live, and an empty one when it is not |
| FileSystem.RootIsRoot | include/fs/fs_impl.h:124-200 | The cached root is inode 1, and inode 1 read from disk is the same |
| FileSystem.InodesInOrder | include/fs/fs_impl.h:171-182 | Inode id is in place id of the table's blocks read one after the other |
| FileSystem.ResolvedIsCurrent | include/fs/fs_impl.h:119-208 | An inode taken from the cached root, the cached current directory or the inode table is the live inode on disk |
| FileSystem.RunsStayHealthy | include/fs/fs_impl.h:283-861 | Over every run of creations and deletions under their guards: both free bits name clear bits (or none is left), live inodes have their own ids and share no block, every directory's size is 64 times its entries, entries name live inodes and a file is named once, cached root and current directory equal the inodes on disk, and the superblock on disk records the free bits |
| FileSystem.StepActsOnNamed | include/fs/fs_impl.h:340-861 | A step acts on the inodes its paths name: it creates one empty file in the directory named, or deletes the file named and no other, or, without such an inode, changes nothing; after a creation the free bits are the least ones |
| FileSystem.RunsKeepFiles | include/fs/fs_impl.h:340-861 | Over every such run a file no step deletes keeps its inode and the contents of all its blocks |
| FormattedVolume.MountedIsHealthy | build/make_disk.c:84-175 | The volume written for an empty root directory, on a disk of any size, and mounted, has all of these properties |
| FileSystemDriver.InsertFindsSlot | include/fs/fs_impl.h:479-515 | In a one-block directory whose size counts its entries, the scan over extents, blocks and entries puts the entry in the first empty slot |
| FileSystemDriver.InsertionIsFirstEmpty | include/fs/fs_impl.h:479-515 | Over any number of blocks the insertion fills the first empty entry, if and only if fewer are in use before it than the scan is to count, and else changes nothing |
| FileSystemDriver.RemovalIsFirstNamed | include/fs/fs_impl.h:795-829 | The removal empties the first entry with the id, exactly when that is in the first block or the memory after the buffer does not hold the id |
| FileSystemDriver.Driver.SetBitInDiskBlock | include/fs/fs_impl.h:228-241 | Sets one bit of a block on disk, through the one block buffer, which is left holding the block |
| FileSystemDriver.Driver.ClearBitInDiskBlock | include/fs/fs_impl.h:243-257 | Clears one bit of a block on disk, through the one block buffer, which is left holding the block |
| FileSystemDriver.Driver.FindFirstFreeBit | include/fs/fs_impl.h:283-307 | The loops over blocks, words and bits return Found |
| FileSystemDriver.Driver.FindInChunk | include/fs/fs_impl.h:291-304 | Skipping full words and trying the bits of the others finds the first clear bit of the block, when it has one |
| FileSystemDriver.Driver.PutInSector | include/fs/fs_impl.h:319-332 | Reading a sector of eight inodes, replacing one and writing it back replaces that inode of the table |
| FileSystemDriver.Driver.UpdateInodeOnDisk | include/fs/fs_impl.h:319-332 | Writes the inode to the slot its id names |
| FileSystemDriver.Driver.InodeFromId | include/fs/fs_impl.h:171-182 | Returns the inode in the slot the id names, which is the one with that id by ResolvedIsNamed, and an empty one for id 0 |
| FileSystemDriver.Driver.InsertEntry | include/fs/fs_impl.h:479-515 | The loops over extents, blocks and entries compute InsertScan |
| FileSystemDriver.Driver.RemoveEntry | include/fs/fs_impl.h:795-829 | The loops over extents, blocks and entries compute RemoveScan, which also compares the id in the memory after the buffer where a block does not hold the entry |
| FileSystemDriver.Driver.WipeFileBlocks | include/fs/fs_impl.h:761-775 | The buffer is cleared once, and the loops over extents and blocks then compute Wipe, for the disk and for the buffer |
| FileSystemDriver.Driver.TakeFreeBits | include/fs/fs_impl.h:359-382 | Marks the free inode and block used, and looks for the next of each in its bitmap |
| FileSystemDriver.Driver.FsCreateFile | include/fs/fs_impl.h:340-532 | Without a parent nothing changes; otherwise disk, free bits and cached inodes become those of AfterCreate and the new inode is returned |
| FileSystemDriver.Driver.FsDeleteFile | include/fs/fs_impl.h:736-861 | Refused without an inode or a parent or for a directory; a file in use elsewhere is left alone; otherwise disk and cached inodes become those of AfterDelete |
| OpenFile.SeekIsExactIff | include/interrupts/syscalls.h:465-493 | A seek lands on its target, or the start when that lies before it, if and only if the target fits an int32 |
| OpenFile.SeekTells | include/interrupts/syscalls.h:465-493 | Seeking nowhere from the end returns the size, from the position the position; seeking to the end and back is seeking there |
| OpenFile.SeekReturnsPosition | include/interrupts/syscalls.h:465-495 | A seek returns the position it leaves, or -1 for a negative absolute target or an unknown origin |
| OpenFile.AppendedIsLast | include/interrupts/syscalls.h:166-217 | With O_APPEND the text comes after all there was, wherever the position is |
| OpenFile.AccessModes | include/interrupts/syscalls.h:160-167 | The lowest two flags decide: 0 reads, 1 and 3 write, 2 does both; appending is the fourth |
| OpenFile.ReadCountIff | include/interrupts/syscalls.h:432-438 | The count of bytes to read is the number there are, if and only if the position has not passed the end and position plus length does not wrap |
| OpenFile.WriteSeekReadReturns | include/interrupts/syscalls.h:205-230 | Writing, seeking back and reading as much returns what was written |
| OpenFile.DrainIsTheRest | include/interrupts/syscalls.h:414-448 | Reads one after another until one returns nothing yield the rest of the file, whatever the buffer's size |
| OpenFile.LastWriteWins | include/interrupts/syscalls.h:136-230 | After any run of seeks, and of reads and writes from no further than the end, each byte is the one the last write over it put there, and a byte no write covered is the one the file was opened with |
| OpenFile.RunsNeverShorten | include/interrupts/syscalls.h:213-217 | Such a run never shortens the file |
| OpenFile.OpenFile.WriteBytes | include/interrupts/syscalls.h:205-217 | Overwrites at the position, moves it past the text and extends the size where the text runs past the end |
| OpenFile.SavedIsLoaded | include/interrupts/syscalls.h:219-226 | What a write saves to disk, a later load brings back |
| OpenFile.OpenFile.Write | include/interrupts/syscalls.h:136-230 | Refused without write access; otherwise overwrites at the position, or at the end with O_APPEND, moves the position past the text, extends the size, and saves the file to its extents |
| OpenFile.OpenFile.Read | include/interrupts/syscalls.h:414-448 | Refused without read access; otherwise hands over the bytes from the position on, no more than there are, and moves past them |
| OpenFile.OpenFile.Seek | include/interrupts/syscalls.h:451-496 | Moves the position for each whence, clamped at the start; a negative absolute target goes to the start and returns -1; an unknown whence changes nothing |
| Formatting.DigitsReadBack | include/C/stdio.h:48-51 | The digits printed for a number read back as the number, in base ten and sixteen |
| Formatting.HexReadsBack | include/C/stdio.h:20-37 | A hexadecimal number reads back as itself whatever padding it got |
| Formatting.IntReadsBack | include/C/stdio.h:39-60 | A decimal number reads back as itself whatever its precision |
| Formatting.HexIsEvenIff | include/C/stdio.h:27-34 | Hexadecimal comes out as an even number of digits, except exactly for a number below 16 with an even precision of two or more |
| Formatting.LeftAdjustedFillsField | include/C/stdio.h:122-211 | Left-adjusted %d, %u and %s fill their field exactly and are never cut short |
| Formatting.LeftAdjustedHexOverrunsIff | include/C/stdio.h:166-190 | Left-adjusted %x fills its field exactly unless a padding zero was added; then it runs over by one |
| Formatting.PiecesOfText | include/C/stdio.h:78-82 | Text before the rest of a format comes apart into its characters |
| Formatting.PiecesOfConversion | include/C/stdio.h:84-118 | A plain conversion before the rest of a format is read as that conversion |
| FormatRoundTrips.ConversionIsRead | include/C/stdio.h:84-118 | Flags in any order, a width, a point and a precision or neither, and a conversion are read as just that, whatever follows |
| FormatRoundTrips.SignedReadsBack | include/C/stdio.h:39-60 | A decimal number of either sign is a minus exactly when negative, then digits, at least as many as asked for, that read back as its magnitude |
| FormatRoundTrips.NoLeadingZero | include/C/stdio.h:48-51 | A number's own digits start with a zero only for zero |
| FormatRoundTrips.SignedIsCongruent | include/C/stdio.h:125 | %d prints the int32 that is the argument modulo 2^32 |
| FormatRoundTrips.TextFillsField | include/C/stdio.h:191-211 | %s fills its field with spaces before the text, or after it when left-adjusted, and never cuts it |
| FormatRoundTrips.NumberFillsField | include/C/stdio.h:122-190 | A number is followed by spaces only, and only when left-adjusted: otherwise its width is ignored |
| FormatRoundTrips.BareNumbers | include/C/stdio.h:122-190 | %d, %u and %x without a field print the signed number, the number, and its hexadecimal digits, after 0x with the # flag |
| FormatRoundTrips.PrintsCharacter | include/C/stdio.h:213-217 | %c prints its argument as a character |
| FormatRoundTrips.PrintsUnknown | include/C/stdio.h:218-227 | Two percent signs print one and an unknown conversion prints as written, neither taking an argument |
| Printer.DigitBuffer | include/C/stdio.h:48-51 | The digit loop gathers the digits, the least significant first |
| Printer.ReadDirective | include/C/stdio.h:84-118 | The loops over flags, width and precision read the conversion Parse describes |
| Printer.Printer.PrintfHex | include/C/stdio.h:20-37 | Appends the number's hexadecimal text to the write buffer |
| Printer.Printer.PrintfInt | include/C/stdio.h:39-60 | Appends the number's decimal text, with sign and precision, to the write buffer |
| Printer.Printer.Convert | include/C/stdio.h:120-227 | Appends what the conversion prints, field padding included |
| Printer.Printer.Printf | include/C/stdio.h:63-235 | The state-driven loop leaves in the write buffer exactly the text the format and arguments stand for, and the terminal shows it |
| Terminal.TextStaysOnScreen | include/terminal/terminal.h:148-232 | Text without escape sequences keeps the cursor on the screen, above the last row |
| Terminal.StopsAtNul | include/terminal/terminal.h:47-48 | Text without escape sequences, or without a NUL, is written up to its first NUL |
| TerminalText.TextMovesCursor | include/terminal/terminal.h:148-232 | Text of n drawn characters moves the cursor n places, line after line, and at the bottom keeps it in the last row but one; colours and cursor visibility stay |
| TerminalText.TextAdvances | include/terminal/terminal.h:215-232 | While the screen has rows for it, the cursor's place counted from the corner advances by the text's length |
| TerminalText.LineFeedIsDown | include/terminal/terminal.h:148-171 | A line feed goes one row down, but not below the last row but one, and a carriage return to the first column |
| TerminalText.ControlsAre | include/terminal/terminal.h:68-143 | CLS puts the cursor in the corner, CSRON and CSROFF show and hide it, BS moves it one column left, and nothing else changes |
| TerminalText.BackspaceStaysOnScreenIff | include/terminal/terminal.h:138-143 | A backspace leaves the cursor on the screen if and only if it is not in the first column |
| TerminalText.BackspaceUndoesIff | include/terminal/terminal.h:138-232 | A backspace after a character puts the cursor back if and only if the character did not end its line |
| Terminal.MoveAt | include/terminal/terminal.h:52-66 | The two numbers of a cursor move, by where they stand in the text |
| Terminal.ColoursAt | include/terminal/terminal.h:86-121 | The two numbers of a colour setting, by where they stand in the text |
| Terminal.Terminal.ReadNumber | include/terminal/terminal.h:54-66 | The digit loop accumulates the number in 32 bits and stops at the terminator |
| Terminal.Terminal.ReadColour | include/terminal/terminal.h:90-121 | Reads a colour in the base its prefix says and stops at the terminator |
| Terminal.Terminal.Escape | include/terminal/terminal.h:48-145 | One escape sequence changes cursor, colours or cursor visibility as it says, and moves past its characters |
| Terminal.Terminal.PutChar | include/terminal/terminal.h:148-232 | Line feed, carriage return and wrapping at the last column move the cursor as Typed says |
| Terminal.Terminal.Write | include/terminal/terminal.h:32-237 | The loop over the text, up to its end or a NUL outside escape sequences, leaves cursor and colours as Shown says, and returns the characters gone past |
| EscapeRoundTrips.AccumulateIsValue | include/terminal/terminal.h:56-66 | The parser's 32-bit running value is the number, when the number fits |
| EscapeRoundTrips.CutShortIsLess | include/terminal/terminal.h:101-104 | Cutting a number short at one of its B digits leaves a smaller number |
| EscapeRoundTrips.ColourOfDecimal | include/terminal/terminal.h:96-104 | A colour without the 0x prefix is read in base ten |
| EscapeRoundTrips.MoveRoundTrip | include/terminal/terminal.h:50-66 | Printing "X%uY%u" after ESC and writing it to the terminal puts the cursor at any x and y below 2^31 and changes nothing else |
| EscapeRoundTrips.ColoursRoundTripIff | include/terminal/terminal.h:86-121 | Printing "FG%#xBG%#x" after ESC and writing it to the terminal sets exactly those two colours if and only if the foreground has no hexadecimal digit B |

## Left out

Stated weaker than the source, by member:

- VirtualMemory.CreateTableSpec: clears the new table as a whole. The code clears from the entry with its flags on; `TableClear.ClearsTheTableIff` says exactly when that comes to the same, and the guard is that it does.
- VirtualMemory.UnmapPageSpec: memory of at most 2 GB; above that `VirtualMemory.UnmapReturnsTheTableIff` says what is lost.
- PhysicalMemory.PhysicalMemoryManager.AllocateBlocks: requests of up to 33 blocks, the bound up to which the scan is right.
- PhysicalMemoryRuns.RunsAreSafe: the bits past the end of memory are set. Boot's memset covers whole bytes of the bitmap only and leaves the last ones to what memory held.
- KernelPages.KernelPager.MapPage: a nonzero directory entry has its present bit, the only one map_page looks at.
- KernelPages.KernelPager.UnmapPage: the page's region has a table; without one the code writes to physical address 0 and up.
- FirstFitHeap.RunsAreSafe: every request meets `FirstFitHeap.Guard`; the heap has its first page, so the first-call branch to malloc_init is not taken.
- HeapBacking.RunsStayBacked: requests meet `FirstFitHeap.Guard` and growth fits; `HeapBacking.StepIsSoundIff` shows that growth that does not fit breaks the separation.
- BoundaryFill.Canvas.Fill: the component does not touch the edge of the screen, where the code's neighbour coordinates leave it.
- DrawCircle.DrawCircle: radii up to 16556, the largest bound below which all circles are drawn (`DrawCircle.RadiiAreSafeIff`).
- DrawLine.DrawLine: spans up to 10923, the largest bound below which all lines are drawn (`DrawLine.SpansAreSafeIff`).
- Calculator.PrintedSumsEvaluate: no operand that is compared with ERROR evaluates to -1, which the code cannot tell from an error; `CalculatorMinusOne.GrammarTextEvaluatesIff` says for which other texts the result is right. INT_MIN / -1, which traps on the processor, is not reached: the parser takes the divisor for an error.
- ElfLoader.LoadElfFile: segments well formed as the System V ABI asks and no 32-bit wrap-around; whether malloc finds memory for an image that is not empty is a parameter.
- FileBlocks.LoadAfterSave: direct extents only, as in the code, each of under 32 blocks.
- FileSystem.RunsStayHealthy: one-block bitmaps and one-block directories with room, since growth and shrink of directories are unfinished in the code; a free inode and a free block are left before a creation; the parent a path resolves to is a directory, and for a deletion one that has an entry with the file's id.
- FileSystemDriver.Driver.RemoveEntry: the id in the memory after the block buffer is a parameter, and clearing that memory when it matches is not modelled; the guard of a deletion keeps the search inside the block.
- OpenFile.OpenFile.Write: writes from at most the end of the file and into the pages the file was given when it was opened; seeking past the end and writing there, which pads with zeros and adds pages, is not modelled, and neither is the inode's copy on disk.
- OpenFile.OpenFile.Read: the position has not passed the end; `OpenFile.ReadCountIff` shows that the count is wrong otherwise.
- Printer.Printer.Printf: complete conversions, precisions that fit the 32-digit buffer and text that fits the 1024-byte one; the buffers are unbounded sequences here. %u from 2^31 up and %d of the least int32 index the digits out of range in the code and are excluded. A null string pointer, printed as "(null)", is not modelled.
- Terminal.Terminal.Write: numbers in escape sequences are ended by their terminators; without one the code reads on past the text.
- EscapeRoundTrips.MoveRoundTrip: x and y below 2^31, the numbers printf prints as unsigned.

Not modelled:

- Words of a bitmap are sequences of 32 bits, and bitwise operations on addresses are functions on numbers; the C library's and the compiler's representation is not part of this model.
- Block headers of the heap are a map from addresses to headers, so that payload bytes overwriting a header is not expressible.
- Physical memory is frames of 1024 words; the directory and tables are reached by physical address, so TLB flushes, CR3 and page faults have no part.
- The framebuffer is one sequence of bytes a pixel; pitch, scrolling and fonts are left out, and so is convert_color.
- Port input and output, ATA timing and status, interrupts, clocks and timestamps.
- Path resolution beyond the three places an inode comes from (cached root, cached current directory, inode table); name comparison matches prefixes in the code.
- Directories made by fs_make_dir, renaming, printing and changing directories; growth of a directory by a block, release of an emptied block, indirect extents.
- The open-file and open-inode tables, their reference counts, and closing.
- malloc_init's contiguous first allocation, processes and argument copying.
- The shell, the editor, sound, fonts and the flat file table in file_ops.h.
