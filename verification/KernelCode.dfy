/**
 The kernel's own pages in the tables built at boot (remap_bootmem_kcode_pages in kernel/pagetbl.c):
 4 KiB pages from the kernel offset on, writable outside the code and the constants.
 */
module KernelCode {
  import opened Powers
  import opened Bits
  import opened PageTables
  import opened PageWalk
  import opened PageRights
  import opened PageSpace
  import opened PageMaps

  /** KERNEL_OFFSET, its page number and the upper indices of its 1 GiB */
  const KERNEL_OFFS: nat := 0xFFFF_FFFF_8000_0000
  const FIRST: nat := 0xF_FFF8_0000
  const GIB_PREFIX: nat := 0x3_FFFE

  function PhysToVirtOf(phy: nat): nat { (phy + KERNEL_OFFS) % U64 }

  /** The page of an address. */
  function PageOf(v: nat): nat { 4096 * (v / 4096) }

  /** From _begin to _after_ro nothing is writable. */
  datatype Image = Image(begin: nat, afterRo: nat)
  {
    predicate Sealed(addr: nat) { begin <= addr < afterRo }

    function Flags(phy: nat): nat
    {
      if PhysToVirtOf(phy) < begin || PhysToVirtOf(phy) >= afterRo then Or(PRESENT, WRITABLE) else PRESENT
    }

    /** The entry of the n-th page. */
    function Entry(n: nat): nat { Or(4096 * n, Flags(4096 * n)) }
  }

  /** The first n pages from the kernel offset on are in place, and nothing else happened. */
  ghost predicate Laid(mem0: Memory, mem: Memory, root: nat, image: Image, n: nat)
  {
    forall vpn :: 0 <= vpn < PAGES ==> MappingOf(mem, root, vpn) == LaidAt(mem0, root, image, n, vpn)
  }

  function LaidAt(mem0: Memory, root: nat, image: Image, n: nat, vpn: nat): Mapping
  {
    if FIRST <= vpn < FIRST + n then Mapped(image.Entry(vpn - FIRST), 1) else MappingOf(mem0, root, vpn)
  }

  /** A huge page was in the way. */
  ghost predicate InTheWay(mem0: Memory, root: nat, n: nat)
  {
    exists vpn :: FIRST <= vpn < FIRST + n && vpn < PAGES && HugeAt(mem0, root, vpn)
  }

  /** One of the n pages has no table for its entry. */
  ghost predicate KernelStarved(mem: Memory, root: nat, n: nat)
  {
    exists vpn: nat :: FIRST <= vpn < FIRST + n && Tableless(mem, root, 1, vpn)
  }

  predicate HugeAt(mem: Memory, root: nat, vpn: nat)
  {
    MappingOf(mem, root, vpn).Mapped? && MappingOf(mem, root, vpn).level > 1
  }

  /** The number of pages that are mapped for a kernel of this size. */
  function KernelPages(size: nat): nat { 512 * CeilDiv(size, MIB2) }

  /** The flags of a page of the kernel. */
  function KernelBits(isSealed: bool): set<nat> { if isSealed then {0} else {0, 1} }

  lemma EntryIs(image: Image, n: nat)
    requires n < 0x4_0000
    ensures Maps(image.Entry(n), 1)
    ensures FlagsAre(image.Entry(n), KernelBits(image.Sealed(PhysToVirtOf(4096 * n))))
  {
    FlagValues();
    PowerTable();
    EntryFlags(4096 * n, image.Flags(4096 * n), KernelBits(image.Sealed(PhysToVirtOf(4096 * n))));
    PresentBit(image.Entry(n));
  }

  /** The indices of an address, from its page number. */
  lemma IndicesOf(virt: nat, n: nat)
    requires PageNumber(virt) == n
    ensures L4Idx(virt) == n / 512 / 512 / 512 % 512
    ensures L3Idx(virt) == n / 512 / 512 % 512 && L2Idx(virt) == n / 512 % 512
  {
    IndexBits(virt);
    BlockUnrolled(n);
  }

  /** The indices that lead to the level-2 table of the kernel. */
  lemma KernelIndices(offs: nat)
    requires PageNumber(offs) == FIRST
    ensures L4Idx(offs) == 511 && L3Idx(offs) == 510
  {
    var n := PageNumber(offs);
    FirstDigits(n);
    IndicesOf(offs, n);
  }

  lemma FirstDigits(n: nat)
    requires n == FIRST
    ensures n / 512 / 512 / 512 % 512 == 511 && n / 512 / 512 % 512 == 510
  {
  }

  lemma KernelPrefixes()
    ensures Prefix(3, 511) && Prefix(2, GIB_PREFIX)
  {
    PrefixDown(4, 0, 511);
    PrefixDown(3, 511, 510);
  }

  /** The j-th table below it. */
  lemma TableIndex(offs: nat, j: nat)
    requires offs == KERNEL_OFFS && j < 512
    ensures L2Idx(offs + j * MIB2) == j
  {
    TableNumber(j);
    IndicesOf(offs + j * MIB2, FIRST + 512 * j);
  }

  lemma TableNumber(j: nat)
    requires j < 512
    ensures PageNumber(KERNEL_OFFS + j * MIB2) == FIRST + 512 * j && (FIRST + 512 * j) / 512 % 512 == j
  {
    var v, t := KERNEL_OFFS + j * MIB2, 0xF_FFFF_FFF8_0000 + 512 * j;
    assert v == 4096 * t;
    assert v / 4096 == t;
    assert (FIRST + 512 * j) / 512 == 512 * GIB_PREFIX + j;
  }

  /** p is the prefix of the j-th table, and n the number of its k-th page. */
  predicate Placed(j: nat, k: nat, p: nat, n: nat)
  {
    j < 512 && k < 512 && p == 512 * GIB_PREFIX + j && n == 512 * j + k
  }

  lemma PagePlace(j: nat, k: nat, p: nat, n: nat)
    requires Placed(j, k, p, n)
    ensures Prefix(1, p) && FIRST + n == 512 * p + k && FIRST + n < PAGES
    ensures Block(FIRST + n, 1) == p && Block(FIRST + n, 2) == GIB_PREFIX
  {
    BlockUnrolled(FIRST + n);
    assert (FIRST + n) / 512 == p;
    KernelPrefixes();
    PrefixDown(2, GIB_PREFIX, j);
  }

  lemma LaidNext(mem0: Memory, mem: Memory, mem': Memory, root: nat, image: Image, n: nat)
    requires Laid(mem0, mem, root, image, n) && Remapped(mem, mem', root, 1, FIRST + n, image.Entry(n))
    ensures Laid(mem0, mem', root, image, n + 1)
  {
    forall vpn | 0 <= vpn < PAGES ensures MappingOf(mem', root, vpn) == LaidAt(mem0, root, image, n + 1, vpn) {
      assert Block(vpn, 0) == vpn;
      LaidStep(mem0, root, image, n, vpn, MappingOf(mem, root, vpn), MappingOf(mem', root, vpn), image.Entry(n));
    }
  }

  lemma LaidStep(mem0: Memory, root: nat, image: Image, n: nat, vpn: nat, m: Mapping, m': Mapping, e: nat)
    requires m == LaidAt(mem0, root, image, n, vpn) && e == image.Entry(n)
    requires m' == if vpn == FIRST + n then Mapped(e, 1) else m
    ensures m' == LaidAt(mem0, root, image, n + 1, vpn)
  {
  }

  lemma LaidSame(mem0: Memory, mem: Memory, mem': Memory, root: nat, image: Image, n: nat)
    requires Laid(mem0, mem, root, image, n) && SameMappings(mem, mem', root)
    ensures Laid(mem0, mem', root, image, n)
  {
  }

  /** The first n pages are in place in a valid address space. */
  ghost predicate LaidTo(space: AddressSpace, mem0: Memory, image: Image, n: nat)
    reads space
  {
    space.Valid() && Laid(mem0, space.mem, space.root, image, n)
  }

  /** How a loop leaves the address space, n pages being in place when it is done, of total ones. */
  ghost predicate CodeLeft(end: End, space: AddressSpace, mem0: Memory, image: Image, n: nat, total: nat)
    reads space
  {
    match end
    case Done => LaidTo(space, mem0, image, n)
    case OutOfPages => space.Valid() && space.supply == [] && KernelStarved(space.mem, space.root, total)
    case HitHugePage => space.Valid() && InTheWay(mem0, space.root, total)
  }

  /** One turn of the innermost loop: the k-th page of the j-th table. */
  method PutPage(space: AddressSpace, table: nat, image: Image, phy: nat, k: nat,
                 ghost j: nat, ghost p: nat, ghost n: nat, ghost mem0: Memory)
    requires Placed(j, k, p, n) && phy == 4096 * n && LaidTo(space, mem0, image, n)
    requires TableFor(space.mem, space.root, 1, p) == Some(table)
    modifies space`mem
    ensures LaidTo(space, mem0, image, n + 1) && TablesKept(old(space.mem), space.mem, space.root, 1)
    ensures Prefix(1, p) && TableFor(space.mem, space.root, 1, p) == Some(table)
  {
    PagePlace(j, k, p, n);
    EntryIs(image, n);
    ghost var mem := space.mem;
    space.SetEntry(table, k, Or(phy, image.Flags(phy)), 1, p);
    LaidNext(mem0, mem, space.mem, space.root, image, n);
    StillThere(mem, space.mem, space.root, 1, 1, p);
  }

  /** The innermost loop: the 512 entries of the j-th table. */
  method FillTable(space: AddressSpace, table: nat, image: Image, phy0: nat,
                   ghost j: nat, ghost p: nat, ghost n0: nat, ghost mem0: Memory)
    returns (phy: nat, ghost n: nat)
    requires Placed(j, 0, p, n0) && phy0 == 4096 * n0 && LaidTo(space, mem0, image, n0)
    requires TableFor(space.mem, space.root, 1, p) == Some(table)
    modifies space`mem
    ensures n == n0 + 512 && phy == 4096 * n && LaidTo(space, mem0, image, n)
    ensures TablesKept(old(space.mem), space.mem, space.root, 1)
  {
    phy, n := phy0, n0;
    var k := 0;
    while k < ENTRIES
      invariant k <= ENTRIES && n == n0 + k && phy == 4096 * n && LaidTo(space, mem0, image, n)
      invariant TableFor(space.mem, space.root, 1, p) == Some(table)
      invariant TablesKept(old(space.mem), space.mem, space.root, 1)
    {
      ghost var mem := space.mem;
      PutPage(space, table, image, phy, k, j, p, n, mem0);
      KeptTrans(old(space.mem), mem, space.mem, space.root, 1, 1);
      phy, k, n := phy + 4096, k + 1, n + 1;
    }
  }

  /** The j-th table below the level-2 table of the kernel. */
  method KernelTable(space: AddressSpace, offs: nat, l2: nat, j: nat,
                     ghost image: Image, ghost n: nat, ghost mem0: Memory)
    returns (r: TableResult, ghost p: nat)
    requires offs == KERNEL_OFFS && j < 512 && LaidTo(space, mem0, image, n) && n == 512 * j
    requires TableFor(space.mem, space.root, 2, GIB_PREFIX) == Some(l2)
    modifies space`mem, space`supply, space`at
    ensures LaidTo(space, mem0, image, n) && Placed(j, 0, p, n)
    ensures TablesKept(old(space.mem), space.mem, space.root, 2) && Prefix(2, GIB_PREFIX)
    ensures r.Table? ==> TableFor(space.mem, space.root, 1, p) == Some(r.addr)
    ensures r.NoTable? ==> space.supply == [] && TableFor(space.mem, space.root, 1, p).None?
    ensures r.HugePage? ==> HugeBlock(space.mem, space.root, 2, p)
  {
    KernelPrefixes();
    TableIndex(offs, j);
    ghost var mem := space.mem;
    r, p := space.TableOrAlloc(l2, L2Idx(offs + j * MIB2), 2, GIB_PREFIX);
    LaidSame(mem0, mem, space.mem, space.root, image, n);
  }

  /** A huge page was there from the start. */
  lemma HugeInTheWay(mem0: Memory, mem: Memory, root: nat, image: Image, level: nat, unit: nat, n: nat, total: nat)
    requires Laid(mem0, mem, root, image, n) && 2 <= level <= 3 && HugeBlock(mem, root, level, unit)
    requires n < total && FIRST + n < PAGES && Block(FIRST + n, level - 1) == unit
    ensures InTheWay(mem0, root, total)
  {
    assert MappingOf(mem, root, FIRST + n) == LaidAt(mem0, root, image, n, FIRST + n);
    assert HugeAt(mem0, root, FIRST + n);
  }

  lemma NoKernelTable(mem: Memory, root: nat, p: nat, n: nat, total: nat)
    requires FIRST + n == 512 * p && n < total && TableFor(mem, root, 1, p).None?
    ensures KernelStarved(mem, root, total)
  {
    assert Tableless(mem, root, 1, FIRST + n);
  }

  /** One turn of the middle loop. */
  method MapTable(space: AddressSpace, offs: nat, l2: nat, image: Image, phy0: nat, j: nat,
                  ghost n0: nat, ghost total: nat, ghost mem0: Memory)
    returns (end: End, phy: nat, ghost n: nat)
    requires offs == KERNEL_OFFS && j < 512 && n0 == 512 * j < total
    requires phy0 == 4096 * n0 && LaidTo(space, mem0, image, n0)
    requires TableFor(space.mem, space.root, 2, GIB_PREFIX) == Some(l2)
    modifies space`mem, space`supply, space`at
    ensures CodeLeft(end, space, mem0, image, n, total)
    ensures end.Done? ==> n == n0 + 512 && phy == 4096 * n
    ensures end.Done? ==> TableFor(space.mem, space.root, 2, GIB_PREFIX) == Some(l2)
  {
    phy, n := phy0, n0;
    ghost var mem := space.mem;
    var r, p := KernelTable(space, offs, l2, j, image, n, mem0);
    match r
    case NoTable =>
      PagePlace(j, 0, p, n);
      NoKernelTable(space.mem, space.root, p, n, total);
      end := OutOfPages;
    case HugePage(_) =>
      PagePlace(j, 0, p, n);
      HugeInTheWay(mem0, space.mem, space.root, image, 2, p, n, total);
      end := HitHugePage;
    case Table(l1) =>
      ghost var mem1 := space.mem;
      phy, n := FillTable(space, l1, image, phy, j, p, n, mem0);
      KeptTrans(mem, mem1, space.mem, space.root, 1, 2);
      StillThere(mem, space.mem, space.root, 2, 2, GIB_PREFIX);
      end := Done;
  }

  /** The middle loop. */
  method MapTables(space: AddressSpace, offs: nat, l2: nat, image: Image, count: nat, ghost mem0: Memory)
    returns (end: End, ghost n: nat)
    requires offs == KERNEL_OFFS && count <= 512 && LaidTo(space, mem0, image, 0)
    requires TableFor(space.mem, space.root, 2, GIB_PREFIX) == Some(l2)
    modifies space`mem, space`supply, space`at
    ensures CodeLeft(end, space, mem0, image, n, 512 * count) && (end.Done? ==> n == 512 * count)
  {
    end, n := Done, 0;
    var phy, j := 0, 0;
    while j < count
      invariant j <= count && end.Done? && n == 512 * j && phy == 4096 * n && LaidTo(space, mem0, image, n)
      invariant TableFor(space.mem, space.root, 2, GIB_PREFIX) == Some(l2)
    {
      end, phy, n := MapTable(space, offs, l2, image, phy, j, n, 512 * count, mem0);
      if !end.Done? { return; }
      j := j + 1;
    }
  }

  /** One turn of the outer loop, of which there is one. */
  method MapDirectory(space: AddressSpace, offs: nat, l3: nat, i: nat, image: Image, count: nat, ghost mem0: Memory)
    returns (end: End, ghost n: nat)
    requires offs == KERNEL_OFFS && i == 0 && 0 < count <= 512 && LaidTo(space, mem0, image, 0)
    requires TableFor(space.mem, space.root, 3, 511) == Some(l3)
    modifies space`mem, space`supply, space`at
    ensures CodeLeft(end, space, mem0, image, n, 512 * count) && (end.Done? ==> n == 512 * count)
  {
    var r := Directory(space, offs, l3, i, image, mem0);
    n := 0;
    match r
    case NoTable =>
      NoKernelTable(space.mem, space.root, 512 * GIB_PREFIX, 0, 512 * count);
      end := OutOfPages;
    case HugePage(_) =>
      PagePlace(0, 0, 512 * GIB_PREFIX, 0);
      HugeInTheWay(mem0, space.mem, space.root, image, 3, GIB_PREFIX, 0, 512 * count);
      end := HitHugePage;
    case Table(l2) => end, n := MapTables(space, offs, l2, image, count, mem0);
  }

  /** Without the level-3 or the level-2 table of the kernel there is no first level-1 table. */
  lemma NoneBelow(mem: Memory, root: nat)
    ensures TableFor(mem, root, 3, 511).None? ==> TableFor(mem, root, 2, GIB_PREFIX).None?
    ensures TableFor(mem, root, 2, GIB_PREFIX).None? ==> TableFor(mem, root, 1, 512 * GIB_PREFIX).None?
  {
    NoneUnder(mem, root, 2, GIB_PREFIX, 511);
    NoneUnder(mem, root, 1, 512 * GIB_PREFIX, GIB_PREFIX);
  }

  lemma NoneUnder(mem: Memory, root: nat, k: nat, p: nat, q: nat)
    requires 1 <= k <= 3 && p / 512 == q
    ensures TableFor(mem, root, k + 1, q).None? ==> TableFor(mem, root, k, p).None?
  {
  }

  /** The level-2 table of the kernel. */
  method Directory(space: AddressSpace, offs: nat, l3: nat, i: nat, ghost image: Image, ghost mem0: Memory)
    returns (r: TableResult)
    requires offs == KERNEL_OFFS && i == 0 && LaidTo(space, mem0, image, 0)
    requires TableFor(space.mem, space.root, 3, 511) == Some(l3)
    modifies space`mem, space`supply, space`at
    ensures LaidTo(space, mem0, image, 0)
    ensures r.Table? ==> TableFor(space.mem, space.root, 2, GIB_PREFIX) == Some(r.addr)
    ensures r.NoTable? ==> space.supply == [] && TableFor(space.mem, space.root, 1, 512 * GIB_PREFIX).None?
    ensures r.HugePage? ==> HugeBlock(space.mem, space.root, 3, GIB_PREFIX)
  {
    assert PageNumber(offs) == FIRST;
    KernelIndices(offs);
    KernelPrefixes();
    ghost var mem, q := space.mem, 0;
    r, q := space.TableOrAlloc(l3, L3Idx(offs + i * GIB), 3, 511);
    LaidSame(mem0, mem, space.mem, space.root, image, 0);
    NoneBelow(space.mem, space.root);
  }

  /** The level-3 table of the kernel. */
  method TopTable(space: AddressSpace, offs: nat, ghost image: Image) returns (r: TableResult)
    requires space.Valid() && offs == KERNEL_OFFS
    modifies space`mem, space`supply, space`at
    ensures LaidTo(space, old(space.mem), image, 0) && !r.HugePage?
    ensures r.Table? ==> TableFor(space.mem, space.root, 3, 511) == Some(r.addr)
    ensures r.NoTable? ==> space.supply == [] && TableFor(space.mem, space.root, 1, 512 * GIB_PREFIX).None?
  {
    assert PageNumber(offs) == FIRST;
    KernelIndices(offs);
    ghost var q;
    r, q := space.TableOrAlloc(space.root, L4Idx(offs), 4, 0);
    NoneBelow(space.mem, space.root);
  }

  /** remap_bootmem_kcode_pages, for a kernel that ends within the first GiB. */
  method RemapKernelCode(space: AddressSpace, offs: nat, kernelSize: nat, image: Image) returns (end: End)
    requires space.Valid() && offs == KERNEL_OFFS && kernelSize <= GIB
    modifies space`mem, space`supply, space`at
    ensures space.Valid()
    ensures end.Done? ==> Laid(old(space.mem), space.mem, space.root, image, KernelPages(kernelSize))
    ensures end.OutOfPages? ==> space.supply == [] && KernelStarved(space.mem, space.root, KernelPages(kernelSize))
    ensures end.HitHugePage? ==> InTheWay(old(space.mem), space.root, KernelPages(kernelSize))
  {
    ghost var mem0, n := space.mem, 0;
    CountsAre(kernelSize);
    var l1Count, l2Count := TableCount(kernelSize, MIB2), TableCount(kernelSize, GIB);
    var r := TopTable(space, offs, image);
    end := Done;
    var i := 0;
    while i < l2Count
      invariant i <= l2Count <= 1 && end.Done? && n == (if i == 0 then 0 else 512 * l1Count)
      invariant LaidTo(space, mem0, image, n) && !r.HugePage?
      invariant r.NoTable? ==> space.supply == [] && TableFor(space.mem, space.root, 1, 512 * GIB_PREFIX).None?
      invariant i == 0 && r.Table? ==> TableFor(space.mem, space.root, 3, 511) == Some(r.addr)
    {
      if r.NoTable? {
        NoKernelTable(space.mem, space.root, 512 * GIB_PREFIX, 0, 512 * l1Count);
        return OutOfPages;
      }
      end, n := MapDirectory(space, offs, r.addr, i, image, l1Count, mem0);
      if !end.Done? { return; }
      i := i + 1;
    }
  }

  /** A kernel within 1 GiB takes one level-2 table, if it is not empty. */
  lemma CountsAre(size: nat)
    requires size <= GIB
    ensures TableCount(size, MIB2) == CeilDiv(size, MIB2) <= 512
    ensures TableCount(size, GIB) == if size == 0 then 0 else 1
    ensures size > 0 ==> TableCount(size, MIB2) > 0
  {
    PowerTable();
    TableCountIs(size, MIB2, 21);
    TableCountIs(size, GIB, 30);
  }

  /** A 4 KiB page that sends v to phy, present, writable unless it is sealed, and nothing else. */
  ghost predicate LinearAt(m: Mapping, image: Image, v: nat, phy: nat)
  {
    && Resolved(m, v) == phy && m.Mapped? && m.level == 1
    && FlagsAre(m.entry, KernelBits(image.Sealed(PageOf(v))))
  }

  /** The kernel's byte phy is found at v, may be executed, may be written to unless its page is sealed, and
      is not there for user code. */
  ghost predicate KernelHere(mem: Memory, root: nat, image: Image, v: nat, phy: nat)
  {
    && LinearAt(MappingOf(mem, root, PageNumber(v)), image, v, phy)
    && RightsOf(mem, root, PageNumber(v)) == Rights(!image.Sealed(PageOf(v)), false, true)
  }

  lemma LinearIsHere(mem: Memory, root: nat, image: Image, v: nat, phy: nat)
    requires LeavesDecide(mem, root) && LinearAt(MappingOf(mem, root, PageNumber(v)), image, v, phy)
    ensures KernelHere(mem, root, image, v, phy)
  {
    var m := MappingOf(mem, root, PageNumber(v));
    assert 1 in KernelBits(image.Sealed(PageOf(v))) <==> !image.Sealed(PageOf(v));
    assert RightsOf(mem, root, PageNumber(v)) == LeafRights(m);
    assert !TestBit(m.entry, 63);
  }

  /** Every byte of the kernel is in a page that is mapped, and less than 2 MiB are mapped in excess. */
  lemma PagesForKernel(size: nat)
    ensures size <= 4096 * KernelPages(size) < size + MIB2
  {
  }

  /** The walk inverts phys_to_virt_of over the kernel, and a page is writable exactly when its address
      is outside the sealed part. */
  lemma KernelIsLinear(mem0: Memory, mem: Memory, root: nat, image: Image, size: nat, phy: nat)
    requires size <= GIB && Laid(mem0, mem, root, image, KernelPages(size)) && phy < 4096 * KernelPages(size)
    requires LeavesDecide(mem, root)
    ensures KernelHere(mem, root, image, PhysToVirtOf(phy), phy)
  {
    KernelLaid(mem0, mem, root, image, size, phy);
    LinearIsHere(mem, root, image, PhysToVirtOf(phy), phy);
  }

  lemma KernelLaid(mem0: Memory, mem: Memory, root: nat, image: Image, size: nat, phy: nat)
    requires size <= GIB && Laid(mem0, mem, root, image, KernelPages(size)) && phy < 4096 * KernelPages(size)
    ensures var v := PhysToVirtOf(phy); LinearAt(MappingOf(mem, root, PageNumber(v)), image, v, phy)
  {
    var n := phy / 4096;
    assert n < 0x4_0000 && n < KernelPages(size) by { CountsAre(size); }
    KernelPage(phy);
    KernelEntryAt(image, n, PhysToVirtOf(phy), phy);
  }

  lemma KernelEntryAt(image: Image, n: nat, v: nat, phy: nat)
    requires n < 0x4_0000 && PageOf(v) == PhysToVirtOf(4096 * n) && 4096 * n + v % 4096 == phy
    ensures LinearAt(Mapped(image.Entry(n), 1), image, v, phy)
  {
    EntryIs(image, n);
    KernelEntryAddress(image, n);
    ResolvedTo(image.Entry(n), 4096 * n, 1, v);
  }

  lemma KernelPage(phy: nat)
    requires phy < GIB
    ensures var (v, n) := (PhysToVirtOf(phy), phy / 4096);
            && PageNumber(v) == FIRST + n && FIRST + n < PAGES
            && PageOf(v) == PhysToVirtOf(4096 * n) && 4096 * n + v % 4096 == phy
  {
    var page := 4096 * (phy / 4096);
    LinkedAt(phy);
    LinkedAt(page);
    OffsetInPage(KERNEL_OFFS / 4096, phy);
  }

  lemma LinkedAt(phy: nat)
    requires phy < GIB
    ensures PhysToVirtOf(phy) == KERNEL_OFFS + phy
  {
  }

  lemma OffsetInPage(k: nat, phy: nat)
    ensures (4096 * k + phy) / 4096 == k + phy / 4096 && (4096 * k + phy) % 4096 == phy % 4096
  {
  }

  lemma KernelEntryAddress(image: Image, n: nat)
    requires n < 0x4_0000
    ensures Pow2(12) == 4096 && (4096 * n) % Pow2(12) == 0 && PtRebase(image.Entry(n)) == 4096 * n
  {
    PowerTable();
    assert Or(PRESENT, WRITABLE) == 3;
    AddressOf(4096 * n, image.Flags(4096 * n), 12);
  }
}
