/**
 The page tables the kernel builds for itself at boot (kernel/pagetbl.c): its own pages, and the direct
 map of all memory.
 */
module BootTables {
  import opened Powers
  import opened Bits
  import opened Phys
  import opened Sequences
  import opened PageTables
  import opened PageWalk
  import opened PageRights
  import opened PageSpace
  import opened PageJobs
  import opened PageMaps
  import opened PageMappers
  import opened Ioremap
  import opened KernelCode

  /** 1 GiB pages from PHMMAP on, as many as the memory has, writable. */
  function DirectMap(ramSize: nat): Job { Job(3, PHMMAP / GIB, CeilDiv(ramSize, GIB), 0, Or(PRESENT, WRITABLE)) }

  lemma DirectMapIs(ramSize: nat)
    requires ramSize <= PHYS_MAX
    ensures var job := DirectMap(ramSize);
            && job.Ok() && Countable(job) && Straight(job) && InMemory(job) && job.count <= UnitsIn(3)
            && job.Vaddr() == PHMMAP && job.Bytes() == GIB * CeilDiv(ramSize, GIB) && ramSize <= job.Bytes() <= PHYS_MAX
  {
    PowerTable();
    assert Or(PRESENT, WRITABLE) == 3;
    PresentBit(3);
    assert CeilDiv(ramSize, GIB) <= 0x1_0000;
  }

  /** remap_bootmem_dmap_pages; its loops are those of pt_map_huge. */
  method RemapDirectMap(space: AddressSpace, ramSize: nat) returns (end: End)
    requires space.Valid() && ramSize <= PHYS_MAX
    modifies space`mem, space`supply, space`at
    ensures DirectMap(ramSize).Ok()
    ensures space.Valid() && Ends(end, space, old(space.mem), DirectMap(ramSize))
  {
    DirectMapIs(ramSize);
    end := MapHuge(space, DirectMap(ramSize));
  }

  lemma DirectMapAddress(phy: nat)
    requires phy <= PHYS_MAX
    ensures PhysToVirt(phy) == PHMMAP + phy && VirtToPhys(PHMMAP + phy) == phy
  {
  }

  /** A 1 GiB page that sends v to phy, present, writable and nothing else. */
  ghost predicate DirectTo(m: Mapping, v: nat, phy: nat)
  {
    Resolved(m, v) == phy && m.Mapped? && m.level == 3 && FlagsAre(m.entry, {0, 1, 7})
  }

  /** The byte phy is found in the direct map, may be written to and executed, and is not there for user code. */
  ghost predicate DirectAt(mem: Memory, root: nat, phy: nat)
  {
    var vpn := PageNumber(PhysToVirt(phy));
    DirectTo(MappingOf(mem, root, vpn), PhysToVirt(phy), phy) && RightsOf(mem, root, vpn) == Rights(true, false, true)
  }

  lemma DirectIsHere(mem: Memory, root: nat, phy: nat, vpn: nat)
    requires LeavesDecide(mem, root) && vpn == PageNumber(PhysToVirt(phy))
    requires DirectTo(MappingOf(mem, root, vpn), PhysToVirt(phy), phy)
    ensures DirectAt(mem, root, phy)
  {
    var m := MappingOf(mem, root, vpn);
    assert RightsOf(mem, root, vpn) == LeafRights(m);
    assert TestBit(m.entry, 1) && !TestBit(m.entry, 63);
  }

  /** The walk inverts phys_to_virt_pm for every address below the memory size rounded up to 1 GiB, in
      writable 1 GiB pages. */
  lemma DirectMapIsLinear(mem0: Memory, mem: Memory, root: nat, ramSize: nat, phy: nat)
    requires ramSize <= PHYS_MAX && DirectMap(ramSize).Ok() && LeavesDecide(mem, root)
    requires Completed(mem0, mem, root, DirectMap(ramSize)) && phy < GIB * CeilDiv(ramSize, GIB)
    ensures DirectAt(mem, root, phy)
  {
    DirectMapIs(ramSize);
    var job, v := DirectMap(ramSize), PhysToVirt(phy);
    assert v == PHMMAP + phy by { DirectMapAddress(phy); }
    StraightTranslates(mem0, mem, root, job, v, phy);
    var n := StraightShows(mem0, mem, root, job, v);
    DirectEntry(job, n);
    DirectIsHere(mem, root, phy, PageNumber(v));
  }

  lemma DirectEntry(job: Job, n: nat)
    requires job.Ok() && InMemory(job) && n < job.count && job.level == 3 && job.flags == Or(PRESENT, WRITABLE)
    ensures FlagsAre(job.Entry(n), {0, 1, 7})
  {
    FlagValues();
    forall k: nat | !AddressBit(k) ensures TestBit(job.Entry(n), k) <==> k in {0, 1, 7} { EntryBit(job, n, k); }
  }

  /** And it leaves every other page alone. */
  lemma DirectMapKeeps(mem0: Memory, mem: Memory, root: nat, ramSize: nat, vpn: nat)
    requires ramSize <= PHYS_MAX && DirectMap(ramSize).Ok() && vpn < PAGES
    requires Completed(mem0, mem, root, DirectMap(ramSize))
    requires forall w :: InRange(DirectMap(ramSize), w) ==> PageNumber(w) != vpn
    ensures MappingOf(mem, root, vpn) == MappingOf(mem0, root, vpn)
  {
    DirectMapIs(ramSize);
    OutsideKept(mem0, mem, root, DirectMap(ramSize), vpn);
  }

  // ---- both maps ------------------------------------------------------------------------------------

  /** The page number of PHMMAP */
  const DIRECT_FIRST: nat := 0x8_0000_0000

  function DirectPages(ramSize: nat): nat { 0x4_0000 * CeilDiv(ramSize, GIB) }

  ghost predicate KernelAt(mem: Memory, root: nat, image: Image, phy: nat)
  {
    KernelHere(mem, root, image, PhysToVirtOf(phy), phy)
  }

  /** All of memory is in the direct map, and less than 1 GiB in excess. */
  lemma PagesForMemory(ramSize: nat)
    ensures ramSize <= 4096 * DirectPages(ramSize) < ramSize + GIB
  {
  }

  predicate InNeither(kernelSize: nat, ramSize: nat, vpn: nat)
  {
    && !(FIRST <= vpn < FIRST + KernelPages(kernelSize))
    && !(DIRECT_FIRST <= vpn < DIRECT_FIRST + DirectPages(ramSize))
  }

  /** Kernel and memory are mapped linearly, and nothing else is. */
  ghost predicate Rebuilt(mem: Memory, root: nat, kernelSize: nat, ramSize: nat, image: Image)
  {
    && (forall phy :: 0 <= phy < 4096 * KernelPages(kernelSize) ==> KernelAt(mem, root, image, phy))
    && (forall phy :: 0 <= phy < 4096 * DirectPages(ramSize) ==> DirectAt(mem, root, phy))
    && (forall vpn :: 0 <= vpn < PAGES && InNeither(kernelSize, ramSize, vpn) ==> MappingOf(mem, root, vpn) == Unmapped)
  }

  /** The direct map writes no entry of a page outside its range, so none of the kernel's. */
  lemma OutsideDirectMap(mem1: Memory, mem2: Memory, root: nat, ramSize: nat, vpn: nat)
    requires ramSize <= PHYS_MAX && DirectMap(ramSize).Ok() && Completed(mem1, mem2, root, DirectMap(ramSize))
    requires vpn < PAGES && !(DIRECT_FIRST <= vpn < DIRECT_FIRST + DirectPages(ramSize))
    ensures MappingOf(mem2, root, vpn) == MappingOf(mem1, root, vpn)
  {
    DirectMapIs(ramSize);
    forall w | InRange(DirectMap(ramSize), w) ensures PageNumber(w) != vpn {
      DirectPage(ramSize, w);
    }
    DirectMapKeeps(mem1, mem2, root, ramSize, vpn);
  }

  lemma DirectPage(ramSize: nat, w: nat)
    requires ramSize <= PHYS_MAX && PHMMAP <= w < PHMMAP + GIB * CeilDiv(ramSize, GIB)
    ensures DIRECT_FIRST <= PageNumber(w) < DIRECT_FIRST + DirectPages(ramSize)
  {
    assert CeilDiv(ramSize, GIB) <= 0x1_0000;
    assert w / 4096 == 0xF_FFF8_0000_0000 + (w - PHMMAP) / 4096;
  }

  /** The direct map leaves the kernel where it is. */
  lemma KernelStays(mem0: Memory, mem1: Memory, mem2: Memory, root: nat, kernelSize: nat, ramSize: nat, image: Image,
                    phy: nat, v: nat)
    requires kernelSize <= GIB && ramSize <= PHYS_MAX && DirectMap(ramSize).Ok()
    requires Laid(mem0, mem1, root, image, KernelPages(kernelSize))
    requires Completed(mem1, mem2, root, DirectMap(ramSize)) && LeavesDecide(mem2, root)
    requires phy < 4096 * KernelPages(kernelSize) && v == PhysToVirtOf(phy)
    ensures KernelHere(mem2, root, image, v, phy)
  {
    KernelLaid(mem0, mem1, root, image, kernelSize, phy);
    CountsAre(kernelSize);
    KernelPage(phy);
    OutsideDirectMap(mem1, mem2, root, ramSize, PageNumber(v));
    LinearIsHere(mem2, root, image, v, phy);
  }

  lemma RebuiltIs(mem0: Memory, mem1: Memory, mem2: Memory, root: nat, kernelSize: nat, ramSize: nat, image: Image)
    requires kernelSize <= GIB && ramSize <= PHYS_MAX && DirectMap(ramSize).Ok()
    requires forall vpn :: 0 <= vpn < PAGES ==> MappingOf(mem0, root, vpn) == Unmapped
    requires Laid(mem0, mem1, root, image, KernelPages(kernelSize))
    requires Completed(mem1, mem2, root, DirectMap(ramSize)) && LeavesDecide(mem2, root)
    ensures Rebuilt(mem2, root, kernelSize, ramSize, image)
  {
    forall phy | 0 <= phy < 4096 * KernelPages(kernelSize) ensures KernelAt(mem2, root, image, phy) {
      KernelStays(mem0, mem1, mem2, root, kernelSize, ramSize, image, phy, PhysToVirtOf(phy));
    }
    forall phy | 0 <= phy < 4096 * DirectPages(ramSize) ensures DirectAt(mem2, root, phy) {
      DirectMapIsLinear(mem1, mem2, root, ramSize, phy);
    }
    forall vpn | 0 <= vpn < PAGES && InNeither(kernelSize, ramSize, vpn)
      ensures MappingOf(mem2, root, vpn) == Unmapped
    {
      OutsideDirectMap(mem1, mem2, root, ramSize, vpn);
    }
  }

  /** A page of the kernel or of memory has no table for its entry. */
  ghost predicate BootStarved(mem: Memory, root: nat, kernelSize: nat, ramSize: nat)
  {
    || KernelStarved(mem, root, KernelPages(kernelSize))
    || exists u: nat :: DIRECT_GIB <= u < DIRECT_GIB + CeilDiv(ramSize, GIB) && Tableless(mem, root, 3, u)
  }

  /** The unit of PHMMAP, of 1 GiB */
  const DIRECT_GIB: nat := 0x2_0000

  lemma DirectStarves(mem: Memory, root: nat, kernelSize: nat, ramSize: nat, job: Job, slots: seq<nat>)
    requires ramSize <= PHYS_MAX && job == DirectMap(ramSize) && job.Ok() && slots == Slots(job)
    requires Starved(mem, root, job, slots)
    ensures BootStarved(mem, root, kernelSize, ramSize)
  {
    DirectMapIs(ramSize);
    var n :| 0 <= n < |slots| && Tableless(mem, root, job.level, slots[n]);
    SlotAt(job, n);
    DirectTarget(ramSize, job, n);
  }

  lemma DirectTarget(ramSize: nat, job: Job, n: nat)
    requires ramSize <= PHYS_MAX && job == DirectMap(ramSize) && n < job.count
    ensures job.Target(n) == DIRECT_GIB + n && job.count == CeilDiv(ramSize, GIB) && job.level == 3
  {
    assert CeilDiv(ramSize, GIB) <= 0x1_0000;
  }

  /** The tables of reallocate_bootmem_pages; pages are what the page allocator has to give. */
  method RebuildTables(pages: seq<nat>, offs: nat, kernelSize: nat, ramSize: nat, image: Image)
    returns (space: AddressSpace?, end: End)
    requires offs == KERNEL_OFFS && kernelSize <= GIB && ramSize <= PHYS_MAX
    requires forall i :: 0 <= i < |pages| ==> pages[i] % 4096 == 0 && pages[i] < Pow2(52)
    requires Once(pages)
    ensures space == null <==> pages == []
    ensures space != null ==>
              && space.Valid() && !end.HitHugePage?
              && (end.OutOfPages? ==> space.supply == [] && BootStarved(space.mem, space.root, kernelSize, ramSize))
              && (end.Done? ==> Rebuilt(space.mem, space.root, kernelSize, ramSize, image))
  {
    if pages == [] { return null, OutOfPages; }
    var s := new AddressSpace(pages[0], pages[1..]);
    space := s;
    ghost var mem0 := s.mem;
    end := RemapKernelCode(s, offs, kernelSize, image);
    if !end.Done? { return; }
    ghost var mem1 := s.mem;
    end := RemapDirectMap(s, ramSize);
    if end.OutOfPages? {
      DirectStarves(s.mem, s.root, kernelSize, ramSize, DirectMap(ramSize), Slots(DirectMap(ramSize)));
    }
    s.EntriesDecide();
    if end.Done? { RebuiltIs(mem0, mem1, s.mem, s.root, kernelSize, ramSize, image); }
  }
}
