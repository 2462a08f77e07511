/**
 What ioremap does to the mappings the kernel made at boot. The region of virtual ranges goes up to the
 end of the address space and the kernel's own pages lie in it, without a stored range of their own.
 */
module IoremapBoot {
  import opened Bits
  import opened Phys
  import opened Powers
  import opened PageTables
  import opened PageWalk
  import opened PageRights
  import opened PageSpace
  import opened PageJobs
  import opened PageMaps
  import opened Vma
  import opened Ioremap
  import opened KernelCode
  import opened BootTables

  /** KERNEL_VMMMAP, where the region of virtual ranges begins; it is VMMAP_LEN long. */
  const VMMAP: nat := 0xFFFF_C000_0000_0000

  /** What the tables were built for. */
  datatype Boot = Boot(kernelSize: nat, ramSize: nat, image: Image)
  {
    /** The addresses of the kernel's pages. */
    function Span(): Area { Area(KERNEL_OFFS, KERNEL_OFFS + 4096 * KernelPages(kernelSize)) }

    predicate Ok() { kernelSize <= GIB && ramSize <= PHYS_MAX }
  }

  lemma SpanFits(boot: Boot)
    requires boot.Ok()
    ensures 4096 * KernelPages(boot.kernelSize) <= GIB && VMMAP < KERNEL_OFFS && boot.Span().end < U64
  {
    CountsAre(boot.kernelSize);
  }

  /** The kernel is mapped linearly. */
  ghost predicate KernelWhole(mem: Memory, root: nat, boot: Boot)
  {
    forall phy {:trigger KernelAt(mem, root, boot.image, phy)} ::
      0 <= phy < 4096 * KernelPages(boot.kernelSize) ==> KernelAt(mem, root, boot.image, phy)
  }

  /** The direct map is. */
  ghost predicate MemoryWhole(mem: Memory, root: nat, boot: Boot)
  {
    forall phy {:trigger DirectAt(mem, root, phy)} ::
      0 <= phy < 4096 * DirectPages(boot.ramSize) ==> DirectAt(mem, root, phy)
  }

  ghost predicate MappedAt(mem: Memory, root: nat, w: nat) { MappingOf(mem, root, PageNumber(w)) != Unmapped }

  // ---- pages of the region --------------------------------------------------------------------------

  /** In a region of 64 TiB two addresses with one page number are on one page. */
  lemma OnePage(lo: nat, hi: nat, w: nat, x: nat)
    requires hi <= lo + VMMAP_LEN && lo <= w < hi && lo <= x < hi && PageNumber(w) == PageNumber(x)
    ensures w / 4096 == x / 4096
  {
    SamePageNumber(w / 4096, x / 4096);
  }

  lemma SamePageNumber(p: nat, q: nat)
    requires p % PAGES == q % PAGES && p < q + PAGES && q < p + PAGES
    ensures p == q
  {
    assert p - q == PAGES * (p / PAGES - q / PAGES);
  }

  /** A range of whole pages has all addresses of a page or none. */
  lemma WholePages(start: nat, end: nat, w: nat, x: nat)
    requires start % 4096 == 0 && end % 4096 == 0 && w / 4096 == x / 4096
    ensures start <= w < end <==> start <= x < end
  {
  }

  /** A range of whole pages and an address of the region outside it have no page in common. */
  lemma OtherPage(start: nat, end: nat, lo: nat, hi: nat, w: nat, x: nat)
    requires start % 4096 == 0 && end % 4096 == 0 && lo <= start && end <= hi <= lo + VMMAP_LEN
    requires lo <= w < hi && !(start <= w < end) && start <= x < end
    ensures PageNumber(x) != PageNumber(w)
  {
    if PageNumber(x) == PageNumber(w) {
      OnePage(lo, hi, w, x);
      WholePages(start, end, w, x);
    }
  }

  /** A mapper was done with the range [start, end), and the range is straight. */
  ghost predicate RangeWritten(mem0: Memory, mem: Memory, root: nat, job: Job, start: nat, end: nat)
  {
    && job.Ok() && Straight(job) && job.count <= UnitsIn(job.level) && Completed(mem0, mem, root, job)
    && job.Vaddr() == start && start + job.Bytes() == end && start % 4096 == 0 && end % 4096 == 0
  }

  /** Addresses of the region outside the range keep their mapping. */
  lemma OutsideNew(mem0: Memory, mem: Memory, root: nat, lo: nat, hi: nat, job: Job, start: nat, end: nat,
                   w: nat, vpn: nat)
    requires RangeWritten(mem0, mem, root, job, start, end) && lo <= start && end <= hi <= lo + VMMAP_LEN
    requires lo <= w < hi && !(start <= w < end) && vpn == PageNumber(w)
    ensures MappingOf(mem, root, vpn) == MappingOf(mem0, root, vpn)
  {
    forall x | InRange(job, x) ensures PageNumber(x) != vpn {
      OtherPage(start, end, lo, hi, w, x);
    }
    OutsideKept(mem0, mem, root, job, vpn);
  }

  // ---- the direct map -------------------------------------------------------------------------------

  lemma RegionPage(w: nat)
    requires VMMAP <= w < U64
    ensures PageNumber(w) >= 0xC_0000_0000
  {
    assert w / 4096 >= 0xF_FFFC_0000_0000;
  }

  lemma MemoryPage(ramSize: nat, phy: nat)
    requires ramSize <= PHYS_MAX && phy < 4096 * DirectPages(ramSize)
    ensures PageNumber(PhysToVirt(phy)) < 0xC_0000_0000
  {
    assert CeilDiv(ramSize, GIB) <= 0x1_0000;
    assert PhysToVirt(phy) == PHMMAP + phy by { DirectMapAddress(phy); }
    DirectPage(ramSize, PHMMAP + phy);
  }

  /** No range of the region reaches the direct map of memory. */
  lemma MemoryKept(mem0: Memory, mem: Memory, root: nat, boot: Boot, job: Job, start: nat, end: nat)
    requires RangeWritten(mem0, mem, root, job, start, end) && VMMAP <= start && end <= U64 && LeavesDecide(mem, root)
    requires boot.ramSize <= PHYS_MAX && MemoryWhole(mem0, root, boot)
    ensures MemoryWhole(mem, root, boot)
  {
    forall phy | 0 <= phy < 4096 * DirectPages(boot.ramSize) ensures DirectAt(mem, root, phy) {
      assert DirectAt(mem0, root, phy);
      var vpn := PageNumber(PhysToVirt(phy));
      MemoryPage(boot.ramSize, phy);
      forall x | InRange(job, x) ensures PageNumber(x) != vpn { RegionPage(x); }
      OutsideKept(mem0, mem, root, job, vpn);
      DirectIsHere(mem, root, phy, vpn);
    }
  }

  // ---- the kernel -----------------------------------------------------------------------------------

  /** The range [start, end) and a span have an address in common. */
  predicate Reaches(start: nat, end: nat, span: Area)
  {
    start < end && span.start < span.end && start < span.end && span.start < end
  }

  lemma ReachesIff(start: nat, end: nat, span: Area)
    ensures Reaches(start, end, span) <==> exists w: nat :: start <= w < end && span.Has(w)
  {
    if Reaches(start, end, span) {
      var w := if start < span.start then span.start else start;
      assert start <= w < end && span.Has(w);
    }
  }

  /** An address of the kernel and its physical address. */
  lemma KernelByte(boot: Boot, w: nat, phy: nat)
    requires boot.Ok() && w == KERNEL_OFFS + phy
    ensures boot.Span().Has(w) <==> phy < 4096 * KernelPages(boot.kernelSize)
    ensures phy < GIB ==> PhysToVirtOf(phy) == w
    ensures boot.Span().Has(w) ==> phy < GIB && VMMAP <= w < U64
  {
    SpanFits(boot);
    if phy < GIB { LinkedAt(phy); }
  }

  /** A page of the range shows the kernel's byte after the call only if the range maps it there again. */
  ghost predicate Mirrors(job: Job, image: Image, w: nat)
  {
    && job.level == 1 && job.Vaddr() == KERNEL_OFFS + job.phys
    && FlagsAre(job.flags, KernelBits(image.Sealed(PageOf(w))))
  }

  /** A small page has the flags of the range. */
  lemma SmallEntryFlags(job: Job, n: nat, bits: set<nat>)
    requires job.Ok() && InMemory(job) && n < job.count && job.level == 1
    ensures FlagsAre(job.Entry(n), bits) <==> FlagsAre(job.flags, bits)
  {
    forall k: nat | !AddressBit(k) ensures TestBit(job.Entry(n), k) <==> TestBit(job.flags, k) { EntryBit(job, n, k); }
  }

  /** What a straight range shows at its i-th address. */
  lemma Shown(mem0: Memory, mem: Memory, root: nat, job: Job, start: nat, end: nat, i: nat, n: nat, w: nat, q: nat)
    requires RangeWritten(mem0, mem, root, job, start, end) && InMemory(job)
    requires start <= w < end && i == w - start && q == job.phys + i && n == UnitOf(job.level, i)
    ensures var m := MappingOf(mem, root, PageNumber(w));
            m == Mapped(job.Entry(n), job.level) && Resolved(m, w) == q && n < job.count
  {
    var n' := StraightShows(mem0, mem, root, job, w);
    ByteResolves(job, i, n, w, q);
  }

  /** In a straight range the kernel is found exactly where the range mirrors it. */
  lemma MirrorsIff(mem0: Memory, mem: Memory, root: nat, job: Job, start: nat, end: nat, image: Image, w: nat, phy: nat)
    requires RangeWritten(mem0, mem, root, job, start, end) && InMemory(job)
    requires start <= w < end && w == KERNEL_OFFS + phy
    ensures LinearAt(MappingOf(mem, root, PageNumber(w)), image, w, phy) <==> Mirrors(job, image, w)
  {
    var i := w - start;
    var n, q := UnitOf(job.level, i), job.phys + i;
    Shown(mem0, mem, root, job, start, end, i, n, w, q);
    if job.level == 1 { SmallEntryFlags(job, n, KernelBits(image.Sealed(PageOf(w)))); }
  }

  /** Wherever the range meets the kernel, it mirrors it. */
  ghost predicate MirrorsAll(job: Job, boot: Boot, start: nat, end: nat)
  {
    forall w: nat {:trigger Mirrors(job, boot.image, w)} ::
      start <= w < end && boot.Span().Has(w) ==> Mirrors(job, boot.image, w)
  }

  /** Away from the range the kernel stays. */
  lemma KernelElsewhere(mem0: Memory, mem: Memory, root: nat, job: Job, start: nat, end: nat, boot: Boot,
                        w: nat, phy: nat)
    requires RangeWritten(mem0, mem, root, job, start, end) && VMMAP <= start && end <= U64 && VMMAP <= w < U64
    requires !(start <= w < end) && KernelHere(mem0, root, boot.image, w, phy) && LeavesDecide(mem, root)
    ensures KernelHere(mem, root, boot.image, w, phy)
  {
    OutsideNew(mem0, mem, root, VMMAP, U64, job, start, end, w, PageNumber(w));
    LinearIsHere(mem, root, boot.image, w, phy);
  }

  lemma KernelOfMirror(mem0: Memory, mem: Memory, root: nat, job: Job, start: nat, end: nat, boot: Boot)
    requires RangeWritten(mem0, mem, root, job, start, end) && InMemory(job) && VMMAP <= start && end <= U64
    requires boot.Ok() && KernelWhole(mem0, root, boot) && MirrorsAll(job, boot, start, end) && LeavesDecide(mem, root)
    ensures KernelWhole(mem, root, boot)
  {
    forall phy | 0 <= phy < 4096 * KernelPages(boot.kernelSize) ensures KernelAt(mem, root, boot.image, phy) {
      assert KernelAt(mem0, root, boot.image, phy);
      var w := KERNEL_OFFS + phy;
      KernelByte(boot, w, phy);
      if start <= w < end {
        assert Mirrors(job, boot.image, w);
        MirrorsIff(mem0, mem, root, job, start, end, boot.image, w, phy);
        LinearIsHere(mem, root, boot.image, w, phy);
      } else {
        KernelElsewhere(mem0, mem, root, job, start, end, boot, w, phy);
      }
    }
  }

  lemma MirrorOfKernel(mem0: Memory, mem: Memory, root: nat, job: Job, start: nat, end: nat, boot: Boot)
    requires RangeWritten(mem0, mem, root, job, start, end) && InMemory(job)
    requires boot.Ok() && KernelWhole(mem, root, boot)
    ensures MirrorsAll(job, boot, start, end)
  {
    forall w: nat | start <= w < end && boot.Span().Has(w) ensures Mirrors(job, boot.image, w) {
      var phy := w - KERNEL_OFFS;
      KernelByte(boot, w, phy);
      assert KernelAt(mem, root, boot.image, phy);
      MirrorsIff(mem0, mem, root, job, start, end, boot.image, w, phy);
    }
  }

  /** A straight call leaves the kernel as it is exactly when its range does not meet the kernel's pages, or
      maps those it meets to themselves, with 4 KiB pages and the same flags. */
  lemma KernelSurvivesIff(mem0: Memory, mem: Memory, root: nat, job: Job, start: nat, end: nat, boot: Boot)
    requires RangeWritten(mem0, mem, root, job, start, end) && InMemory(job) && VMMAP <= start && end <= U64
    requires boot.Ok() && KernelWhole(mem0, root, boot) && LeavesDecide(mem, root)
    ensures !Reaches(start, end, boot.Span()) ==> MirrorsAll(job, boot, start, end)
    ensures KernelWhole(mem, root, boot) <==> MirrorsAll(job, boot, start, end)
    ensures job.level != 1 || job.phys + KERNEL_OFFS != start ==>
              (KernelWhole(mem, root, boot) <==> !Reaches(start, end, boot.Span()))
  {
    ReachesIff(start, end, boot.Span());
    if MirrorsAll(job, boot, start, end) { KernelOfMirror(mem0, mem, root, job, start, end, boot); }
    if KernelWhole(mem, root, boot) { MirrorOfKernel(mem0, mem, root, job, start, end, boot); }
    if Reaches(start, end, boot.Span()) && MirrorsAll(job, boot, start, end) {
      var w: nat :| start <= w < end && boot.Span().Has(w);
      assert Mirrors(job, boot.image, w);
    }
  }

  lemma KernelIsMapped(mem: Memory, root: nat, boot: Boot, w: nat)
    requires boot.Ok() && KernelWhole(mem, root, boot) && boot.Span().Has(w)
    ensures var m := MappingOf(mem, root, PageNumber(w)); m.Mapped? && m.level == 1
  {
    var phy := w - KERNEL_OFFS;
    KernelByte(boot, w, phy);
    assert KernelAt(mem, root, boot.image, phy);
  }

  /** Such a range: the kernel's first page, asked for at physical address 0 with the flags it has. */
  lemma FirstPageMirrored(boot: Boot, flags: nat, v: nat, job: Job)
    requires boot.Ok() && boot.kernelSize > 0 && v == KERNEL_OFFS && job == JobFor(0, v, 4096, flags)
    requires TestBit(flags, WRITE_BIT) || TestBit(flags, IO_BIT) <==> !boot.image.Sealed(v)
    requires TestBit(flags, EXEC_BIT) && !TestBit(flags, USER_BIT)
    requires !TestBit(flags, WRITE_THROUGH_BIT) && !TestBit(flags, NOCACHE_BIT)
    ensures Reaches(v, v + 4096, boot.Span()) && MirrorsAll(job, boot, v, v + 4096)
  {
    CountsAre(boot.kernelSize);
    OnePageJob(0, v, 4096, flags, job);
    FlagsLikeKernel(flags, boot.image.Sealed(v));
    forall w: nat | v <= w < v + 4096 ensures Mirrors(job, boot.image, w) { PageStart(v, w); }
  }

  lemma FlagsLikeKernel(flags: nat, isSealed: bool)
    requires TestBit(flags, WRITE_BIT) || TestBit(flags, IO_BIT) <==> !isSealed
    requires TestBit(flags, EXEC_BIT) && !TestBit(flags, USER_BIT)
    requires !TestBit(flags, WRITE_THROUGH_BIT) && !TestBit(flags, NOCACHE_BIT)
    ensures FlagsAre(VmaToPteFlags(flags), KernelBits(isSealed))
  {
    forall k: nat | !AddressBit(k) ensures TestBit(VmaToPteFlags(flags), k) <==> k in KernelBits(isSealed) {
      PteFlagBits(flags, k);
    }
  }

  lemma PageStart(v: nat, w: nat)
    requires v % 4096 == 0 && v <= w < v + 4096
    ensures PageOf(w) == v
  {
    DivModUnique(w, 4096, v / 4096, w - v);
  }

  lemma OnePageJob(phys: nat, v: nat, size: nat, flags: nat, job: Job)
    requires phys == 0 && v == KERNEL_OFFS && size == 4096 && job == JobFor(phys, v, size, flags)
    ensures job.level == 1 && job.Vaddr() == v && job.phys == phys && job.flags == VmaToPteFlags(flags)
  {
  }
}
