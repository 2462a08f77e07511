# Verified model of the kernel's memory management

This project models the memory management of the kernel in Dafny and proves what it is meant to
guarantee: the buddy page allocator, the red-black tree and the map of virtual ranges built on it, the
four-level page tables with `ioremap` and the boot tables, the slab cache on top of the page allocator,
and the number printer `str_num`. Nothing is executed; `dafny verify dfyconfig.toml` checks every proof.

## Modules

| module | what it holds |
|---|---|
| `Powers`, `Bits`, `Bitmaps`, `Phys`, `Sequences`, `LinkedLists` | powers of two and div/mod facts; C's bit operators on unsigned numbers and what they are in arithmetic; bit arrays in bytes; page constants and the direct map; sequences without repetition; singly linked lists |
| `BuddyBlocks` | the buddy system as sets of blocks: splitting, merging, runs, restoration, conservation |
| `BuddyLayout`, `BuddyRegion` | one region: header and bitmaps, free lists threaded through the pages, the operations on them |
| `BuddyHandover`, `BuddyMaster`, `BuddyRuns` | the greedy hand-over; the table of regions with allocation and release; runs of calls over all regions |
| `BuddyLimits`, `BuddyUnaligned`, `BuddyEscapes`, `BuddyRaw` | where the guarantees stop; a run on an unaligned region that hands out a page twice; what every unaligned region loses; exactly which regions lose nothing |
| `RbTrees`, `RbHeap`, `RbWalk`, `RbRemove` | red-black trees as values; the pointer structure, rotations and insertion; traversal; removal |
| `Vma` | ordered map of disjoint address ranges, gap search |
| `PageTables`, `PageWalk`, `PageRights`, `PageSpace` | entries, the walk, what one write or one new table changes, what the entries on a walk permit, the address space object |
| `PageJobs`, `PageMaps`, `PageMappers` | where the nested loops of the three mappers write, and what they leave behind |
| `Ioremap`, `IoremapBoot`, `IoremapRuns` | `ioremap`; what it does to the pages mapped at boot; one call after another, from the boot tables on |
| `KernelCode`, `BootTables`, `TablePages` | the kernel's own pages; the tables built at boot; their pages from the page allocator |
| `Slab`, `SlabTally`, `VmaRecords` | slab geometry, the cache object, several caches over one page allocator; what its counter of empty slabs does over runs of calls; the records of virtual ranges out of a cache |
| `StrNum`, `StrLaws` | the number printer and a parser that undoes it; what a reader sees in its text |

State that the C code changes in place is state of classes here: `BuddyRegion.Region`,
`BuddyMaster.Master`, `RbTrees.Node` and `RbHeap.Root`, `Vma.Region`, `PageSpace.AddressSpace`,
`Slab.Cache`. Memory that is reached through addresses (the first word of a free page or of a free
object, the headers of slabs, the page tables) is a map from addresses. Unsigned 64-bit wrap-around is
written out as `% U64` where it can happen.

Some of the promises of the code hold only under a condition. The model keeps the code as it is and
proves when it is right:

* Splitting takes a block's buddy from its physical address, merging from its page number in the region.
  The two agree exactly when the first usable frame is aligned to the region's largest block
  (`AgreementIff`); otherwise a split frees pages outside the block (`UnalignedSplitEscapes`). A region of five pages at an
  even frame is such a region (`FivePages`): after eight legal calls page 1 has two holders and page 3 is
  neither free nor held (`AllTakenOnce`, `PageTwice`). Every unaligned region loses pages: with 2^k the
  largest power of two that divides the first usable frame, taking all blocks of 2^k pages, giving back the
  first two and taking one again leaves the second one neither free nor held (`UnalignedLoses`, `BreaksIff`).
* A region keeps all its pages over every run of legal calls if and only if its first usable frame is aligned
  to its largest block and it reaches order 10 or has no room for two such blocks (`KeepsAllIff`). On the
  aligned ones the code with its addresses and bitmap bits does what the block sets do (`AllocShows`,
  `FreeShows`).
* A hand-over can be restored exactly when the region reaches order 10 or has no room for two blocks of
  its own maximal order (`HandOver`, `FreeRange`); otherwise two blocks are lost for good
  (`SmallRegionLoses`).
* A block at the end of a region whose pair sticks out is refused at hand-over (`RefusedAtTheEnd`).
* `kbud_alloc_range` serves a request that rounds past the end of the address space with one page
  (`RequestOrder`), and `vma_alloc_area` with an empty range (`RoundedCovers`).
* A virtual range that ends with the address space is stored with end 0, and the map is out of order
  from then on (`Vma.Region.AllocArea`).
* An object of a slab is aligned as asked for exactly when the alignment divides the object size, which the
  code does not round up (`AlignedIff`).
* The cache counts a slab that becomes empty twice and does not count one that it adds, so that its counter is
  off by the difference of the two. It never keeps more than three empty slabs, one below its limit
  (`RunKept`), and a cache with one object in use at a time gives its slab back at every release from the
  fourth on (`Churn`).
* The flag `VM_USER` sets the user bit in the entry of a page, but the entries that lead to its table do not
  have it, so that user code never gets through (`LeafDecides`, `StraightStamps`). Whether a page can be
  written to or executed is what its own entry says.
* A mapper that is asked for a range within 512 GiB of 2^64 bytes computes 0 for its count of level-4
  entries and maps nothing (`PageMappers.Counts`, `Finished`).
* The mappers of `ioremap` put every entry where it belongs exactly when the range is straight: aligned
  to the group of 512 units of each level or inside one group, and, for 2 MiB pages, inside one 512 GiB
  (`StraightIff`, `TranslatesIff`). A straight range leaves all ranges handed out earlier translating
  (`RemapKeeps`, `RemapNext`). The second range `ioremap` hands out may be crooked
  (`SecondRangeIsCrooked`), and then it takes the page of the first (`SecondRangeTakesFirst`).
* The region of virtual ranges goes up to 2^64 and the kernel's own pages lie in it, outside every stored
  range. A new range was unmapped before exactly when it does not meet them (`NewIsFreshIff`), and a straight
  call leaves the kernel mapped exactly when its range does not meet them or maps those it meets to
  themselves (`KernelSurvivesIff`, `FirstPageMirrored`). Before the call the gap that will be taken tells
  whether the range meets them (`EndangersIff`); for the first call it does exactly when the size exceeds the
  room below the kernel (`FirstEndangersIff`), as for 64 TiB (`WholeRegionTakesKernel`).
* Removing a node from a red-black tree keeps the conditions without a repair exactly when the node that
  leaves the links is red or has a child, or is the last one (`RemovedIff`). Otherwise the repair of the code
  is called when the node is already unlinked, so that it follows a null pointer exactly for nodes that were
  left children or the root (`RepairComesTooLate`).

## Model

| member | source | states |
|---|---|---|
| BuddyBlocks.Family | kernel/mm/buddy.c:475-489 | a block and its buddy are the two halves of one aligned parent, and buddies are mutual |
| BuddyBlocks.SplitKeepsInv | kernel/mm/buddy.c:448-452 | halving a block in hand keeps the tiling of the accepted pages, and both halves are new blocks |
| BuddyBlocks.MergeKeepsInv | kernel/mm/buddy.c:475-489 | joining a block in hand with its free buddy keeps the tiling inside the accepted blocks |
| BuddyBlocks.PushKeepsInv | kernel/mm/buddy.c:491 | linking in a block whose buddy is not free keeps tiling and coalescence |
| BuddyBlocks.SplitTilesBlock | kernel/mm/buddy.c:448-454 | the remnants of an allocation and its result cut up exactly the popped block |
| BuddyBlocks.StepKeepsInv | kernel/mm/buddy.c:420-492 | every allocation and release keeps the invariant and changes the outstanding blocks by its own block only |
| BuddyBlocks.RunKeepsInv | kernel/mm/buddy.c:420-492 | over any run free and outstanding blocks stay disjoint, aligned and a tiling of the accepted blocks, with no two free buddies |
| BuddyBlocks.CanonicalRestoration | kernel/mm/buddy.c:463-492 | with nothing outstanding the free blocks are exactly the accepted ones |
| BuddyBlocks.RunRestores | kernel/mm/buddy.c:331-492 | after any run that ends with every block released, in any order, the free blocks are those of the hand-over |
| BuddyBlocks.StepConserves | kernel/mm/buddy.c:420-492 | one allocation or release keeps free plus outstanding pages |
| BuddyBlocks.RunConserves | kernel/mm/buddy.c:420-492 | at every moment of a run free plus outstanding pages equal the accepted pages |
| BuddyLayout.ComputeLayout | kernel/mm/buddy.c:113-129 | one bit per pair for every order that has a pair; each bitmap has as many bytes as its bits fill and begins at the next multiple of 64 bytes behind the one before |
| BuddyLayout.Place | kernel/mm/buddy.c:101-155 | the first usable page is the first whole page behind header and bitmaps; the number of usable pages |
| BuddyLayout.ReservedIs | kernel/mm/buddy.c:113-140 | every layout without waste takes the same whole pages, which are those a region keeps for itself |
| BuddyLayout.HalfIsUsable | kernel/mm/buddy.c:113-151 | a region never keeps more than half of its pages, so that its largest block fits |
| BuddyLayout.MaxOrderIs | kernel/mm/buddy.c:118-129 | the maximal order is the largest one, up to 10, of which the region holds a whole pair |
| BuddyRegion.Region.constructor | kernel/mm/buddy.c:101-155 | a fresh region with room is valid, with empty lists and clear bitmaps |
| BuddyRegion.PairsAreBuddies | kernel/mm/buddy.c:204-231 | a bitmap bit belongs to a block and its buddy and to no other block of the order |
| BuddyRegion.Region.Push | kernel/mm/buddy.c:259-276 | links the block in and sets its pair's bit, or refuses exactly when the bitmap has no bit for it; lists, counters and bitmap stay in agreement |
| BuddyRegion.Region.Seek | kernel/mm/buddy.c:289-295 | the list walk ends at the link that leads to the page, because the page is on the list |
| BuddyRegion.Region.Pop | kernel/mm/buddy.c:279-305 | a free block whose buddy is not free leaves its list, wherever in it, and nothing else does |
| BuddyRegion.Region.PopHead | kernel/mm/buddy.c:308-324 | gives up a block of the order, or the error exactly when there is none; the null head of an empty list is refused |
| BuddyRegion.Region.PhysicalBuddy | kernel/mm/buddy.c:450 | on an aligned region the buddy by physical address is the buddy by page number |
| BuddyRegion.Region.SplitDown | kernel/mm/buddy.c:448-452 | the split loop refines halving on block sets |
| BuddyRegion.Region.FirstOrder | kernel/mm/buddy.c:433-442 | no free block of a sufficient order is smaller than the order found |
| BuddyRegion.Region.AllocFrom | kernel/mm/buddy.c:426-455 | takes the smallest sufficient block and splits it, or fails exactly when there is none |
| BuddyRegion.Region.MergeStep | kernel/mm/buddy.c:475-489 | a turn merges exactly when the buddy is free |
| BuddyRegion.Region.FreeBlock | kernel/mm/buddy.c:463-492 | the release loop refines merging on block sets |
| BuddyRegion.Region.PushInHand | kernel/mm/buddy.c:491 | the last push of a release is never refused |
| BuddyRegion.Region.Scribble | kernel/mm/buddy.c:259-305 | whatever a holder writes into its pages, the allocator stays valid |
| BuddyHandover.CutIsMaximal | kernel/mm/buddy.c:349-355 | the clz/ctz minimum picks an aligned block inside the range that could not be larger |
| BuddyHandover.GreedyTiles | kernel/mm/buddy.c:347-362 | the hand-over loop cuts the range into consecutive aligned blocks that tile it exactly |
| BuddyHandover.GreedyBuddies | kernel/mm/buddy.c:347-362 | two buddies are cut only at a maximal order that the region has twice |
| BuddyHandover.RefusedAtTheEnd | kernel/mm/buddy.c:212-220 | a push is refused exactly when the block's pair sticks out of the region |
| BuddyHandover.ChooseOrder | kernel/mm/buddy.c:350-355 | the order from leading and trailing zeroes of size and address |
| BuddyHandover.HandOver | kernel/mm/buddy.c:347-362 | the accepted blocks are the cuts that were not refused; the region is valid exactly when it is restorable |
| BuddyMaster.Master.constructor | kernel/mm/buddy.c:46-51 | an allocator without regions is valid |
| BuddyMaster.Master.FindBuddySlave | kernel/mm/buddy.c:46-69 | bisection finds the last region that starts at or below the address |
| BuddyMaster.Master.FindValidSlave | kernel/mm/buddy.c:74-83 | the region is the one a linear scan for the address would find |
| BuddyMaster.Master.MakeRoom | kernel/mm/buddy.c:169-175 | the gap is opened in front of every region above |
| BuddyMaster.Master.AddRegion | kernel/mm/buddy.c:160-184 | the table stays sorted and terminated and grows by the new region |
| BuddyMaster.Master.FreeRange | kernel/mm/buddy.c:331-363 | fresh memory becomes a region whose accepted blocks are the greedy cut; the allocator stays valid exactly when the region is restorable |
| BuddyMaster.Master.Alloc | kernel/mm/buddy.c:420-458 | the error exactly when no region has a sufficient block; else the first such region gives up its smallest one, split down |
| BuddyMaster.Master.AllocRange | kernel/mm/buddy.c:371-414 | the same for the order of a byte count |
| BuddyMaster.RequestOrder | kernel/mm/buddy.c:190-195 | the order is the least one that holds the bytes, exactly up to the last page of the address space |
| BuddyMaster.Master.Free | kernel/mm/buddy.c:463-492 | releases a held block where it belongs and ignores addresses in no region |
| BuddyMaster.Master.HeldAligned | kernel/mm/buddy.c:420-458 | held blocks are naturally aligned in virtual memory |
| BuddyMaster.Master.HeldApart | kernel/mm/buddy.c:420-492 | different held blocks do not overlap, within and across regions |
| BuddyMaster.Master.HeldInside | kernel/mm/buddy.c:131-150 | held blocks lie behind header and bitmaps and before the end of their region |
| BuddyRuns.CallKeeps | kernel/mm/buddy.c:420-492 | a call on any region keeps the tilings of all regions and their page sum, and changes what is outstanding by its own block |
| BuddyRuns.RunKeeps | kernel/mm/buddy.c:420-492 | at every moment of a run over all regions free plus held pages are the pages handed over |
| BuddyRuns.RunRestoresAll | kernel/mm/buddy.c:331-492 | when nothing is outstanding any more, every region is as its hand-over left it, whichever regions the calls fell into |
| BuddyRuns.LedgerIs | kernel/mm/buddy.c:420-492 | outstanding are exactly the blocks that were taken and not given back since |
| BuddyRuns.ValidIsInv | kernel/mm/buddy.c:331-363 | the regions of a valid allocator are tilings of what they were handed, which is where a run may begin |
| BuddyRuns.AllocInRun | kernel/mm/buddy.c:420-458 | `kbud_alloc` makes the next step of such a run, or none when it fails |
| BuddyRuns.FreeInRun | kernel/mm/buddy.c:463-492 | `kbud_free` of a held block makes the next step |
| BuddyLimits.AgreementIff | kernel/mm/buddy.c:448-484 | buddies by physical address and by page number agree exactly on aligned regions |
| BuddyLimits.UnalignedSplitEscapes | kernel/mm/buddy.c:448-452 | on an unaligned region the half that a split frees lies below the block |
| BuddyLimits.ChkIs | kernel/mm/buddy.c:212-220 | the check of a block's bit passes exactly when the block lies in the region together with its buddy |
| BuddyLimits.NeverRefused | kernel/mm/buddy.c:463-492 | from a sound hand-over no release loses a block |
| BuddyLimits.SmallRegionLoses | kernel/mm/buddy.c:475-491 | a region below order 10 with two blocks of its maximal order loses both |
| BuddyUnaligned.FivePages | kernel/mm/buddy.c:101-155 | a region of five pages at an even frame keeps one page for itself, so that its first usable frame is odd |
| BuddyUnaligned.HandOverCuts | kernel/mm/buddy.c:347-362 | its hand-over cuts page 0, the pair of pages 1 and 2, and page 3 |
| BuddyUnaligned.AllTakenOnce | kernel/mm/buddy.c:420-458 | four allocations hand out its four pages, each once |
| BuddyUnaligned.PageTwice | kernel/mm/buddy.c:420-492 | when pages 2 and 3 have come back, two more allocations hand out pages 2 and 1: page 1 has two holders, page 3 none |
| BuddyEscapes.StartOk | kernel/mm/buddy.c:347-362 | the hand-over of an unaligned region leaves each of its first two blocks of the breaking order in exactly one free block |
| BuddyEscapes.TakeKeeps | kernel/mm/buddy.c:420-458 | an allocation of that order keeps each of the two in exactly one free or held block, refused halves and all |
| BuddyEscapes.SomeTakes | kernel/mm/buddy.c:420-458 | such allocations go on until one fails |
| BuddyEscapes.SecondIsLost | kernel/mm/buddy.c:420-492 | once they have failed, both are held; when they come back they merge, the next allocation gets the first, and the second is neither free nor held |
| BuddyEscapes.UnalignedLoses | kernel/mm/buddy.c:331-492 | so it goes from the hand-over on, whichever blocks the lists give out |
| BuddyEscapes.BreaksIff | kernel/mm/buddy.c:448-484 | there is such an order exactly when the first usable frame is not aligned to the largest block |
| BuddyRaw.HandShows | kernel/mm/buddy.c:347-362 | on any region the hand-over frees exactly the cuts that pass the bitmap check, and sets their bits |
| BuddyRaw.AllocShows | kernel/mm/buddy.c:420-458 | on an aligned region an allocation with its address arithmetic and bits is the abstract one |
| BuddyRaw.FreeShows | kernel/mm/buddy.c:463-492 | so is a release: its three tests come to whether the buddy is free, and no push is refused |
| BuddyRaw.RunShows | kernel/mm/buddy.c:420-492 | so is every run of calls |
| BuddyRaw.AlignedKeepsAll | kernel/mm/buddy.c:331-492 | no run on such a region leaves a page neither free nor held |
| BuddyRaw.UnalignedRun | kernel/mm/buddy.c:331-492 | on any unaligned region some run does |
| BuddyRaw.SmallRun | kernel/mm/buddy.c:463-492 | so does one on an aligned region below order 10 with room for two of its largest blocks |
| BuddyRaw.KeepsAllIff | kernel/mm/buddy.c:101-492 | a region keeps all its pages over every run if and only if it is aligned to its largest block and reaches order 10 or has no room for two such blocks |
| RbTrees.FixedRedBlack | kernel/rbtree.c:78-126 | the insertion repair restores the red-black conditions |
| RbTrees.FixedOrder | kernel/rbtree.c:78-126 | the insertion repair keeps the in-order sequence |
| RbTrees.InsertRedBlack | kernel/rbtree.c:185-197 | inserting at a null link keeps the red-black conditions and adds the node at that position only |
| RbTrees.LogarithmicHeight | kernel/rbtree.c:78-126 | the height is at most twice the logarithm of the number of nodes plus one |
| RbHeap.LRotate | kernel/rbtree.c:30-51 | the left rotation in memory, with all parent links, for any surroundings |
| RbHeap.RRotate | kernel/rbtree.c:54-75 | the right rotation in memory, with all parent links, for any surroundings |
| RbHeap.RecolourStep | kernel/rbtree.c:90-98 | the recolouring turn |
| RbHeap.RotateStep | kernel/rbtree.c:100-122 | the turn with one or two rotations ends the conflict |
| RbHeap.FixIns | kernel/rbtree.c:78-126 | the loop ends and leaves the repaired tree |
| RbHeap.Insert | kernel/rbtree.c:185-197 | after insertion the pointers spell a red-black tree with the node at its place |
| RbWalk.First | kernel/rbtree.c:258-264 | the first node in order, null for the empty tree |
| RbWalk.Last | kernel/rbtree.c:265-272 | the last node in order, null for the empty tree |
| RbWalk.Next | kernel/rbtree.c:273-290 | the node after, null behind the last |
| RbWalk.Prev | kernel/rbtree.c:291-308 | the node before, null before the first |
| RbWalk.StepsAreInverse | kernel/rbtree.c:273-308 | the two steps undo each other |
| RbWalk.WalkVisitsAll | kernel/rbtree.c:258-290 | stepping on from the first node visits every node once, in order |
| RbRemove.RemovedOrder | kernel/rbtree.c:199-253 | removal takes exactly the node out of the sequence |
| RbRemove.RemovedRedBlack | kernel/rbtree.c:199-253 | removal keeps the red-black conditions when the node that leaves the links is red or has a child |
| RbRemove.Unlink | kernel/rbtree.c:214-229 | the cases of no child and of one child in memory |
| RbRemove.Substitute | kernel/rbtree.c:240-250 | the successor takes the place of the node |
| RbRemove.Remove | kernel/rbtree.c:199-253 | the pointers spell the tree without the node |
| RbRemove.BlackLeafNeedsRepair | kernel/rbtree.c:214-221 | without repair, removing a black leaf keeps the conditions exactly when it is alone |
| RbRemove.RemovedIff | kernel/rbtree.c:199-253 | without repair, removing any node keeps the red-black conditions exactly when the node that leaves the links is red or has a child, or is the last one |
| RbRemove.RepairComesTooLate | kernel/rbtree.c:129-136 | called on the unlinked leaf, the repair follows null exactly when the leaf was no right child |
| Vma.ClashIsOverlap | kernel/mm/vma.c:46-52 | the two tests of the insertion fail together exactly for ranges with a common address |
| Vma.Region.constructor | kernel/mm/vma.c:197-207 | the empty region |
| Vma.Region.FindLink | kernel/mm/vma.c:37-53 | the descent ends at a clash or at the null link where the range belongs |
| Vma.Region.Insert | kernel/mm/vma.c:35-57 | refuses exactly a range that clashes with a stored one, otherwise adds it and nothing else |
| Vma.Region.Search | kernel/mm/vma.c:74-90 | the stored range with the address, or none if there is none, in at most 2 log2(n + 1) turns |
| Vma.OneHolder | kernel/mm/vma.c:74-90 | the range with an address is unique |
| Vma.GapSizes | kernel/mm/vma.c:165-180 | the differences of the allocator are the sizes of the gaps, wrap-around included |
| Vma.RoomIff | kernel/mm/vma.c:155-186 | the gaps tried are all the room there is |
| Vma.PlacedWhere | kernel/mm/vma.c:155-186 | a new range begins at the low end of the region if it fits there, else behind the last range if it fits there, else at the lowest free place |
| Vma.RoundedCovers | kernel/mm/vma.c:141 | rounding to pages covers the request exactly unless it wraps |
| Vma.Region.ScanGaps | kernel/mm/vma.c:173-186 | the first gap between neighbours that is large enough |
| Vma.Region.Assign | kernel/mm/vma.c:117-131 | the fields of a new range |
| Vma.Region.AllocArea | kernel/mm/vma.c:136-192 | succeeds exactly when a record and a gap are there; the range lies in the region, has the rounded size and clashes with none, so that its insertion succeeds |
| PageTables.AddressOf | kernel/pagetbl.h:69-77 | the address or-ed with flags is recovered from an entry |
| PageWalk.EntryWritten | kernel/mm/vmalloc.c:83-89 | one mapping entry changes the mapping of its unit and of no other page |
| PageWalk.HungWellFormed | kernel/pagetbl.c:86-95 | a new empty table keeps every table at one place |
| PageWalk.HungSame | kernel/pagetbl.c:86-95 | a new empty table changes no mapping |
| PageSpace.IndexBits | kernel/pagetbl.h:58-65 | the index bits of an address are the indices of its page |
| PageSpace.ResolvedTo | kernel/pagetbl.c:126-150 | an entry with an address resolves to it plus the offset in its page |
| PageSpace.AddressSpace.constructor | kernel/pagetbl.c:264-267 | a zeroed top table maps nothing |
| PageSpace.AddressSpace.GetPhys | kernel/pagetbl.c:106-151 | the walk over 1 GiB, 2 MiB and 4 KiB pages finds what the page is mapped to, and the error exactly for an unmapped page |
| PageSpace.OnlyUnmappedFails | kernel/pagetbl.c:106-151 | only an unmapped page is answered with the error, every other one with an address of 52 bits |
| PageSpace.AddressSpace.SetEntry | kernel/mm/vmalloc.c:83-89 | a store of a mapper |
| PageSpace.AddressSpace.TableOrAlloc | kernel/pagetbl.c:86-100 | the table behind an entry; if it is missing, one in the next page, present and writable and without other flags, or none exactly when no page is left; a huge page is taken for a table exactly where there is one; no mapping changes |
| PageRights.LeafDecides | kernel/pagetbl.c:86-95 | where every entry that leads to a table is present and writable only, a page may be written and executed as its own entry says, and never used by user code |
| PageSpace.AddressSpace.EntriesDecide | kernel/pagetbl.c:86-100 | the tables the kernel builds are of this kind |
| PageJobs.SlotIsTarget | kernel/mm/vmalloc.c:70-171 | a write goes to the entry of its address exactly when the running address has not left its tables |
| PageJobs.SlotIndices | kernel/mm/vmalloc.c:70-171 | where any write goes: each index is the one the running address had when its table was chosen |
| PageJobs.StraightIff | kernel/mm/vmalloc.c:70-171 | all writes go where they belong exactly when the range is straight |
| PageJobs.StraightMaps | kernel/mm/vmalloc.c:70-171 | on a straight range every page gets the entry of its unit |
| PageJobs.StraightKeeps | kernel/mm/vmalloc.c:70-171 | on a straight range every other page keeps its mapping |
| PageJobs.CrookedFails | kernel/mm/vmalloc.c:70-171 | on any other range some unit does not get its entry |
| PageMaps.TableCountIs | kernel/pagetbl.h:93-106 | the table counts round up |
| PageMaps.TableCountWraps | kernel/pagetbl.h:93-106 | a count whose rounding passes 2^64 is 0 |
| PageMaps.PutRun | kernel/mm/vmalloc.c:155-161 | the innermost loop writes its entries in order |
| PageMaps.PutTables | kernel/mm/vmalloc.c:108-123 | the loop over the tables of one level |
| PageMappers.Counts | kernel/mm/vmalloc.c:191-197 | the entries the range needs at each level; a wrapped level-4 count is 0 |
| PageMappers.MapHuge | kernel/mm/vmalloc.c:70-93 | what every page is mapped to afterwards, for every range, straight or not, of any size; it gives up exactly for a missing table when no page is left, or a huge page in the way |
| PageMappers.MapLarge | kernel/mm/vmalloc.c:94-127 | the same for 2 MiB pages, with the middle loop over all that remains |
| PageMappers.MapNorm | kernel/mm/vmalloc.c:128-171 | the same for 4 KiB pages |
| Ioremap.PteFlagBits | kernel/mm/vmalloc.c:40-52 | each bit of the entry flags, from the flags of the range |
| Ioremap.EntryBit | kernel/mm/vmalloc.c:83-161 | outside its address an entry has the bits of the flags, and the size bit in a large page |
| Ioremap.MapRange | kernel/mm/vmalloc.c:186-216 | the largest pages that fit, mapped |
| Ioremap.Remap | kernel/mm/vmalloc.c:176-219 | null exactly when no record or no room is there; otherwise a range of the region is mapped to the physical range |
| Ioremap.TranslatesIff | kernel/mm/vmalloc.c:70-219 | the walk finds every byte asked for exactly when the range is straight |
| Ioremap.RemapTranslates | kernel/mm/vmalloc.c:176-219 | the bytes asked for are found behind the returned address |
| Ioremap.StraightStamps | kernel/mm/vmalloc.c:40-171 | in a straight range every entry has exactly the bits the flags of the range ask for, and the page may be used accordingly, by the kernel only |
| Ioremap.RemapStamps | kernel/mm/vmalloc.c:176-219 | the same for the bytes asked for in a call, from the flags of the call |
| Ioremap.OutsideKept | kernel/mm/vmalloc.c:70-219 | every page outside the range is mapped as before |
| Ioremap.MappersAgree | kernel/mm/vmalloc.c:70-171 | the mappers give the same translation and the same rights where more than one applies |
| Ioremap.StraightIsClear | kernel/pagetbl.c:86-100 | on a fresh straight range no huge page is taken for a table |
| Ioremap.AlignedIsStraight | kernel/mm/vmalloc.c:94-127 | a range on a multiple of 512 GiB is straight unless it is too long for the 2 MiB mapper |
| Ioremap.SecondRangeIsCrooked | kernel/mm/vmalloc.c:128-171 | a 2 MiB range one page above the start of the region is not straight |
| IoremapBoot.KernelSurvivesIff | kernel/mm/vmalloc.c:176-219 | a straight call leaves the kernel mapped, with its rights, exactly when its range does not meet the kernel's pages or mirrors those it meets, flags included |
| IoremapBoot.FirstPageMirrored | kernel/mm/vmalloc.c:128-171 | a range that meets the kernel and leaves it mapped: its first page, asked for at its own physical address |
| IoremapBoot.MemoryKept | kernel/mm/vmalloc.c:176-219 | no straight range of the region changes the direct map |
| IoremapRuns.ServingAtFirst | kernel/pagetbl.c:249-277 | the boot tables are where a run may begin: nothing but the kernel is mapped in the region |
| IoremapRuns.NewIsFreshIff | kernel/mm/vmalloc.c:176-219 | a new range was unmapped before exactly when it does not meet the kernel's pages |
| IoremapRuns.NewIsClear | kernel/pagetbl.c:86-100 | on a new straight range no huge page is taken for a table, kernel or not |
| IoremapRuns.NewTranslatesIff | kernel/mm/vmalloc.c:176-219 | any new range away from the kernel translates exactly when it is straight |
| IoremapRuns.StillServed | kernel/mm/vmalloc.c:176-219 | mapping a straight range leaves every range handed out earlier translating, with its flags and rights |
| IoremapRuns.RemapKeeps | kernel/mm/vmalloc.c:176-219 | a straight call keeps the region accounted for, the direct map, and serves all ranges handed out so far |
| IoremapRuns.EndangersIff | kernel/mm/vma.c:136-192 | which range `vma_alloc_area` will take, and so whether it meets the kernel, can be told before the call |
| IoremapRuns.RemapNext | kernel/mm/vmalloc.c:176-219 | one more `ioremap` in a run that begins at boot: null exactly without room or record, never into a huge page when straight; after a straight call all ranges so far translate and have the flags of their calls, and the kernel is left exactly when the range mirrors what it meets of it, which is so when it does not meet it |
| IoremapRuns.FirstEndangersIff | kernel/mm/vma.c:136-192 | the first call meets the kernel exactly when it asks for more than lies below it |
| IoremapRuns.WholeRegionTakesKernel | kernel/mm/vmalloc.c:176-219 | 64 TiB at physical address 0 as the first call: there is room, the range is straight, and the kernel's mapping is gone |
| IoremapRuns.SecondRangeTakesFirst | kernel/mm/vmalloc.c:128-171 | 2 MiB after one page: the first page is mapped to the last page of the second range |
| VmaRecords.RecordsApart | kernel/mm/vma.c:112-131 | records of the map do not share memory |
| VmaRecords.RecordGeometry | kernel/mm/vma.c:199 | the record cache has 63 records of 64 bytes to the page |
| VmaRecords.TakeRecord | kernel/mm/vma.c:112-131 | no record exactly when there is no gap, or when all slabs are full and no pages are left for one more |
| VmaRecords.AllocArea | kernel/mm/vma.c:136-192 | `vma_alloc_area` with its record out of the slab cache: null exactly in these cases, and else the range and its record are new |
| VmaRecords.Remap | kernel/mm/vmalloc.c:176-219 | `ioremap` with its record out of the slab cache: null exactly in these cases |
| KernelCode.RemapKernelCode | kernel/pagetbl.c:183-217 | the kernel's pages get their entries and no other page changes; it gives up exactly for a missing table when no page is left |
| KernelCode.KernelIsLinear | kernel/pagetbl.c:183-217 | the walk inverts `phys_to_virt_of`; a page can be executed, can be written to exactly outside the sealed part, and is not there for user code |
| KernelCode.PagesForKernel | kernel/pagetbl.c:187-188 | all of the kernel is mapped, and less than 2 MiB in excess |
| BootTables.RemapDirectMap | kernel/pagetbl.c:219-244 | all memory in 1 GiB pages |
| BootTables.DirectMapIsLinear | kernel/pagetbl.c:219-244 | the walk inverts `phys_to_virt_pm` below the memory size rounded up to 1 GiB, through 1 GiB pages with the present, the writable and the size bit and no other flag |
| BootTables.PagesForMemory | kernel/pagetbl.c:223-224 | all of memory is mapped, and less than 1 GiB in excess |
| BootTables.OutsideDirectMap | kernel/pagetbl.c:219-244 | the direct map touches no page outside its range, so none of the kernel's |
| BootTables.RebuildTables | kernel/pagetbl.c:249-277 | kernel and memory are mapped linearly with these rights and nothing else is, unless a table is missing and no page is left for it |
| TablePages.DrawPages | kernel/pagetbl.c:86-95 | the pages `kbud_alloc` gives out one after another are whole, distinct and within 52 bits, and end exactly when no region has one |
| TablePages.RebuildFrom | kernel/pagetbl.c:249-277 | the boot tables out of the page allocator's pages, which stay held |
| SlabTally.CreateCounted | kernel/mm/slab.c:124-128 | the counter begins at the one empty slab |
| SlabTally.AllocCounted | kernel/mm/slab.c:216-241 | an allocation without a partial slab draws on an empty one, which is counted, or on a new one, which is not; the counter is the empty slabs, plus the times a slab became empty, minus the slabs added, wrap-around included |
| SlabTally.FreeCounted | kernel/mm/slab.c:266-277 | a release that empties a slab keeps it or makes one leave, as the counter says |
| SlabTally.RunKept | kernel/mm/slab.c:216-277 | over any run at most three slabs are empty, so that a slab that leaves and the empty ones are never more than the limit |
| SlabTally.ThreeKept | kernel/mm/slab.c:216-277 | three are reached |
| SlabTally.Churn | kernel/mm/slab.c:216-277 | an object that is handed out and comes back over and over, alone: the slab stays three times and is given back to the page allocator at every release after that |
| LinkedLists.Appended | kernel/mm/slab.c:190-194 | a slab hung behind the last one |
| LinkedLists.ElementSkipped | kernel/mm/slab.c:182-186 | a slab skipped by its predecessor |
| Slab.ChooseGeometry | kernel/mm/slab.c:82-122 | a slab with at least eight objects and room for no more than it has, that leaves over no more than any other way to cut up a slab of any order, and less than one of a smaller order; none exactly when no slab has room for eight |
| Slab.Create | kernel/mm/slab.c:75-132 | the error codes, and a valid cache of such slabs with one empty slab and nothing handed out |
| Slab.AlignedIff | kernel/mm/slab.c:82-108 | the objects of an aligned slab are aligned exactly when the alignment divides the object size |
| Slab.TakePages | kernel/mm/slab.c:35-39 | pages for a slab overlap no other slab; the error exactly when the page allocator has none |
| Slab.Cache.Find | kernel/mm/slab.c:178-184 | the search ends at the link that leads to the slab, or at the null link behind the list when the slab is not on it |
| Slab.Cache.Relink | kernel/mm/slab.c:178-195 | a slab moves from its place in one list to the end of another |
| Slab.Cache.ChainObjects | kernel/mm/slab.c:58-67 | the objects of a new slab are chained in order; nothing is written outside it |
| Slab.Cache.NewSlab | kernel/mm/slab.c:31-70 | a new empty slab behind the others, or the error |
| Slab.Cache.PartialAlloc | kernel/mm/slab.c:200-215 | the first free object of the first partial slab, which moves when it was the last |
| Slab.Cache.EmptyAlloc | kernel/mm/slab.c:216-230 | the first free object of the first empty slab, which becomes partial |
| Slab.Cache.NewAlloc | kernel/mm/slab.c:231-241 | an object of a new slab |
| Slab.Cache.Alloc | kernel/mm/slab.c:244-295 | an object that was not handed out, from a partial, an empty or a new slab in this order; the error exactly when all slabs are full and no pages are left; the blocks others hold from the page allocator stay |
| Slab.Cache.ObjsApart | kernel/mm/slab.c:54-67 | objects do not overlap, within a slab and across slabs |
| Slab.ObjIn | kernel/mm/slab.c:54-67 | an object lies behind the header and before the end of its slab |
| Slab.Cache.MaskRecovers | kernel/mm/slab.c:255-257 | clearing the low bits of an object's address gives its slab |
| Slab.Cache.SlabOf | kernel/mm/slab.c:255-257 | the slab found is the one the object was handed out from, by the natural alignment of pages |
| Slab.Cache.Free | kernel/mm/slab.c:253-278 | the object and nothing else comes back, and its slab hands it out next; which slab leaves, and when; the counter and the number of empty slabs; the blocks others hold stay |
| Slab.LiveDropped | kernel/mm/slab.c:162-173 | a slab that goes back to the page allocator holds no object that is handed out |
| Slab.Cache.Scribble | kernel/mm/slab.c:200-278 | whatever a holder writes into its object, the cache stays valid |
| Slab.StrangersApart | kernel/mm/slab.c:31-70 | slabs of two caches that share no block do not overlap |
| Slab.Undisturbed | kernel/mm/slab.c:244-295 | a call that leaves the blocks of others alone leaves another cache backed by the page allocator |
| Slab.AllocBeside | kernel/mm/slab.c:244-295 | an allocation from one cache changes nothing of another one |
| Slab.FreeBeside | kernel/mm/slab.c:253-278 | neither does a release |
| StrNum.NumberOfText | kernel/stdio.c:45-50 | the digits stand for the number |
| StrNum.TextLength | kernel/stdio.c:61-90 | 22 characters are enough for 64 bits |
| StrNum.PutDigits | kernel/stdio.c:88-90 | the digits in the buffer, least significant first, at most 22 |
| StrNum.StrNum | kernel/stdio.c:53-113 | the text is sign, prefix, zeros and digits, padded on the side the flags say |
| StrNum.FormattedLength | kernel/stdio.c:53-113 | the length is the width or that of the content, whichever is larger |
| StrNum.ParsesBack | kernel/stdio.c:53-113 | the text reads back as the signed value that was given |
| StrNum.EitherPad | kernel/stdio.c:95 | the combined test of the two padding flags |
| StrLaws.PaddingSide | kernel/stdio.c:95-110 | padding stands behind the text, or as zeros between prefix and digits, or in front, as the flags say, and fills the width |
| StrLaws.SignStands | kernel/stdio.c:69-81 | the sign: minus, or plus or space if asked for, in front and nowhere else |
| StrLaws.PrefixStands | kernel/stdio.c:98-105 | the prefix 0x, 0X or 0 follows the sign |
| StrLaws.DigitsStand | kernel/stdio.c:88-109 | then digits of the base in the case asked for, as many as the precision demands, without other zeros in front, none for 0 with precision 0; they denote the number |
| StrLaws.TwosComplement | kernel/stdio.c:69-73 | the value that reads back is the one whose two's complement was given |

## Left out

- RbRemove.Remove: covers the paths on which `rb_fixdel` is not called; on the others the code does not restore the conditions, which `BlackLeafNeedsRepair` and `RepairComesTooLate` state.
- RbRemove.Unlink: the same, for the part before the repair would be called.
- `rb_fixdel` itself, and with it `vma_remove`, `vma_remove_by_addr` and `vma_free_area`.
- BuddyRegion.Region.constructor: promises nothing for a region whose bitmaps leave no room, which `kbud_mark_invalid` marks, nor validity for one whose first usable frame is not aligned to its largest block.
- BuddyRegion.Region.Pop: requires a free block whose buddy is not free, as every caller has; the answer `false` for a block outside the bitmap is not reached then.
- BuddyHandover.HandOver: for a region fresh from initialisation whose first usable frame is aligned to its largest block; `BuddyUnaligned` and `BuddyEscapes` show what happens on another one.
- BuddyMaster.Master.MakeRoom: requires that the last slot of the table stays free for the terminator.
- BuddyUnaligned.PageTwice: works on the set of free blocks and the bits that are set; where two blocks share a list, the run takes the one pushed last, as the list does.
- BuddyEscapes.UnalignedLoses: works on the same sets, for any choice among the blocks of the order that the search finds; it needs two blocks of the breaking order, which every region has (`HalfIsUsable`).
- BuddyRaw.KeepsAllIff: on the same sets and for one region of at least two pages and at most 64 TiB.
- BuddyRuns.FreeInRun: for blocks that are held; a release of an address in no region is no step.
- BuddyMaster.Master.FreeRange: covers the first hand-over of memory that no region owns; a second one into an existing region does not coalesce with what is there.
- BuddyMaster.Master.AddRegion: requires room for the terminator behind the new region; the check of the code lets the last slot be taken.
- BuddyMaster.Master.Free: requires that the caller holds the block and gives its order, or that the address is in no region.
- The order tag in a free page, `bitmap_reserved`, `lut.base`, `total_ram` and `usable_ram`, which nothing modelled reads; the arrays inside a region's header are fields of sequence type.
- Vma.Region.constructor: without the record cache it creates and the error when that fails.
- Vma.Region.Assign: without the allocation of the record, which is a parameter; `VmaRecords` takes it from the slab cache.
- Vma.Region.AllocArea: takes the record the slab cache returns as a parameter, which `VmaRecords.AllocArea` does not; the stored ranges are in order only as long as none ends with the address space.
- VmaRecords.AllocArea: asks the cache for a record once the search has found a gap, and then searches again, where the code asks in the middle of its one search; the search has no effect.
- Vma.Region.Insert: an empty range counts as clashing only strictly inside a stored one, as in the code.
- PageSpace.AddressSpace.TableOrAlloc: the pages of `kbud_alloc` are a sequence the address space is given, which `TablePages.DrawPages` draws from the page allocator before the tables are built; a failed allocation or a huge page taken for a table ends the model, where the code writes through the bad pointer.
- Ioremap.RemapTranslates: for physical addresses of 52 bits, which is what an entry holds; the walk is the one of the code, not the one of the processor.
- PageRights.LeafDecides: what the entries say; the control bits of the processor (write protection, execute disable, SMEP, SMAP, protection keys) are not modelled, nor are the accessed and dirty bits it sets.
- IoremapRuns.RemapNext: promises that the run goes on for ranges that are straight, end below the end of the address space and map physical addresses of 52 bits; what a crooked range does to others is shown for one input only (`SecondRangeTakesFirst`).
- IoremapBoot.KernelSurvivesIff: for kernels of at most one GiB and memory of at most 64 TiB, over the tables `BootTables.RebuildTables` leaves.
- Ioremap.Remap: requires a region of whole pages that is at most 64 TiB long, as the kernel's is, and in order, as it is until a range ends with the address space; the record is a parameter.
- VmaRecords.Remap: requires the same of the region.
- KernelCode.RemapKernelCode: requires that the kernel ends within the first GiB, which the code fixes; the arrays of table pointers it keeps are not modelled.
- BootTables.RemapDirectMap: requires at most 64 TiB of memory, which the direct map has room for.
- BootTables.RebuildTables: requires at most 64 TiB of memory; loading cr3 and handing the boot memory to the page allocator are left out.
- TablePages.RebuildFrom: draws all pages before it builds the tables, where the code asks for each one as it needs it.
- `kpt_get_l1` to `kpt_get_l3`, `kpt_unmap_page`, stack guards, TLB flushes and all inline assembly; the stubs `ioremap_prot`, `iounmap`, `kmap` and `kunmap`.
- Slab.ChooseGeometry: requires objects of at least 8 bytes and a positive alignment.
- Slab.Cache.Relink: requires that the slab is on the list it leaves, as it is in every call.
- Slab.Create: requires objects of at least 8 bytes, which the pointer in a free object needs, and a positive alignment; name, flags and page count of the cache are not modelled.
- Slab.Cache.Alloc: the table of the three allocation functions is written out as calls; a null cache is not modelled.
- Slab.Cache.Free: requires an object that is handed out; the counter of empty slabs is the counter of the code, not the length of the list; `SlabTally` says how the two differ.
- SlabTally.AllocCounted: requires fewer than 2^31 slabs, so that the 32-bit counter keeps its sign.
- `kslab_cache_destroy`, the contents of cleared slabs and the unused header fields `prev` and `pool`.
- StrNum.StrNum: returns the text instead of writing it to memory; width and precision are unbounded.
- `vsprintf` and its parsing of formats, the console, boot code, interrupts, drivers and string routines.
