/**
 One ioremap after another in the region of the kernel, over the tables built at boot: nothing is mapped
 in the region but the kernel itself and what lies in a stored range. Writing a straight range leaves
 the ranges handed out earlier and the direct map alone, and the kernel unless the range meets it.
 */
module IoremapRuns {
  import opened Bits
  import opened Phys
  import opened PageTables
  import opened PageWalk
  import opened PageRights
  import opened PageSpace
  import opened PageJobs
  import opened PageMaps
  import opened PageMappers
  import opened RbTrees
  import opened RbHeap
  import opened Vma
  import opened Ioremap
  import opened KernelCode
  import opened BootTables
  import opened IoremapBoot

  /** Some range has the address. */
  ghost predicate Stored(areas: seq<Area>, w: nat) { exists a :: a in areas && a.Has(w) }

  /** Every mapped address of the region [lo, hi) lies in a stored range or in the span mapped at boot. */
  ghost predicate Accounted(mem: Memory, root: nat, areas: seq<Area>, lo: nat, hi: nat, span: Area)
  {
    forall w: nat {:trigger MappedAt(mem, root, w)} ::
      lo <= w < hi && MappedAt(mem, root, w) ==> Stored(areas, w) || span.Has(w)
  }

  /** What a call handed out: so many bytes from v on, for those from phys on, with these flags. */
  datatype Grant = Grant(v: nat, phys: nat, size: nat, flags: nat)

  /** The range is stored, its addresses translate, and its pages have the flags that were asked for. */
  ghost predicate Served(mem: Memory, root: nat, areas: seq<Area>, g: Grant)
  {
    && Area(g.v, g.v + g.size) in areas
    && Translated(mem, root, g.v, g.phys, g.size) && Stamped(mem, root, g.v, g.size, g.flags)
  }

  ghost predicate AllServed(mem: Memory, root: nat, areas: seq<Area>, grants: seq<Grant>)
  {
    forall g {:trigger Served(mem, root, areas, g)} :: g in grants ==> Served(mem, root, areas, g)
  }

  /** Nothing is mapped by accident, all that was handed out translates, and so does all of memory in the
      direct map. */
  ghost predicate Orderly(mem: Memory, root: nat, areas: seq<Area>, lo: nat, hi: nat, boot: Boot, grants: seq<Grant>)
  {
    && Accounted(mem, root, areas, lo, hi, boot.Span()) && AllServed(mem, root, areas, grants)
    && MemoryWhole(mem, root, boot)
  }

  /** And the kernel is where it was put. */
  ghost predicate Serving(mem: Memory, root: nat, areas: seq<Area>, lo: nat, hi: nat, boot: Boot, grants: seq<Grant>)
  {
    Orderly(mem, root, areas, lo, hi, boot, grants) && KernelWhole(mem, root, boot)
  }

  /** The areas of a part of the kernel's region are in order, inside it and made of whole pages. */
  ghost predicate Kept(areas: seq<Area>, lo: nat, hi: nat)
  {
    Ordered(areas) && Within(areas, lo, hi) && Paged(areas, lo) && VMMAP <= lo && hi <= U64
  }

  // ---- the start ------------------------------------------------------------------------------------

  lemma RegionAddress(w: nat, vpn: nat)
    requires VMMAP <= w < U64 && vpn == PageNumber(w)
    ensures vpn >= 0xC_0000_0000
    ensures forall n: nat :: n <= 0x4_0000 && FIRST <= vpn < FIRST + n ==> KERNEL_OFFS <= w < KERNEL_OFFS + 4096 * n
  {
    RegionPage(w);
    assert w / 4096 == 0xF_FFF0_0000_0000 + vpn;
  }

  /** The tables built at boot are where a run may begin: with no range stored and none handed out. */
  lemma ServingAtFirst(mem: Memory, root: nat, boot: Boot)
    requires boot.Ok() && BootTables.Rebuilt(mem, root, boot.kernelSize, boot.ramSize, boot.image)
    ensures Kept([], VMMAP, U64) && Serving(mem, root, [], VMMAP, U64, boot, [])
  {
    var pages := KernelPages(boot.kernelSize);
    SpanFits(boot);
    assert CeilDiv(boot.ramSize, GIB) <= 0x1_0000;
    forall w: nat | VMMAP <= w < U64 && MappedAt(mem, root, w) ensures boot.Span().Has(w) {
      var vpn := PageNumber(w);
      RegionAddress(w, vpn);
      assert !InNeither(boot.kernelSize, boot.ramSize, vpn);
      assert FIRST <= vpn < FIRST + pages;
    }
  }

  // ---- a new range ----------------------------------------------------------------------------------

  lemma InsertedMember(s: seq<Area>, a: Area, s': seq<Area>)
    requires InsertedInto(s, a, s')
    ensures a in s' && forall b :: b in s ==> b in s'
  {
    var k :| 0 <= k <= |s| && InsertedAt(s, a, s', k);
    assert s'[k] == a;
    forall b | b in s ensures b in s' {
      var i :| 0 <= i < |s| && s[i] == b;
      assert s'[if i < k then i else i + 1] == b;
    }
  }

  lemma StoredStays(s: seq<Area>, a: Area, s': seq<Area>, w: nat)
    requires InsertedInto(s, a, s') && (Stored(s, w) || a.Has(w))
    ensures Stored(s', w)
  {
    InsertedMember(s, a, s');
  }

  /** No stored range has an address of a place that is taken. */
  lemma NotStored(s: seq<Area>, lo: nat, hi: nat, size: nat, a: Area, s': seq<Area>, w: nat)
    requires Kept(s, lo, hi) && TakenAs(s, lo, hi, size, a, s') && a.start <= w < a.start + size
    ensures !Stored(s, w)
  {
    var k :| 0 <= k <= |s| && Preferred(s, lo, hi, size, k) && a.start == GapStart(s, lo, k);
    GapIsVacant(s, lo, hi, size, k);
    forall b | b in s ensures !b.Has(w) {
      var i :| 0 <= i < |s| && s[i] == b;
      assert !Clash(Area(a.start, a.start + size), s[i]);
    }
  }

  /** A new range was not mapped before exactly when it does not meet the kernel. */
  lemma NewIsFreshIff(mem: Memory, root: nat, s: seq<Area>, lo: nat, hi: nat, size: nat, a: Area, s': seq<Area>,
                      job: Job, boot: Boot)
    requires Accounted(mem, root, s, lo, hi, boot.Span()) && KernelWhole(mem, root, boot) && boot.Ok()
    requires Kept(s, lo, hi) && TakenAs(s, lo, hi, size, a, s') && job.Vaddr() == a.start && job.Bytes() == size
    ensures Fresh(mem, root, job) <==> !Reaches(a.start, a.start + size, boot.Span())
  {
    ReachesIff(a.start, a.start + size, boot.Span());
    if Reaches(a.start, a.start + size, boot.Span()) {
      var w: nat :| a.start <= w < a.start + size && boot.Span().Has(w);
      KernelIsMapped(mem, root, boot, w);
      assert InRange(job, w);
    } else {
      forall w: nat | InRange(job, w) ensures MappingOf(mem, root, PageNumber(w)) == Unmapped {
        NotStored(s, lo, hi, size, a, s', w);
        assert !MappedAt(mem, root, w);
      }
    }
  }

  /** A straight new range runs into no huge page: in it there are at most the kernel's small ones. */
  lemma NewIsClear(mem: Memory, root: nat, s: seq<Area>, lo: nat, hi: nat, size: nat, a: Area, s': seq<Area>,
                   job: Job, boot: Boot)
    requires Accounted(mem, root, s, lo, hi, boot.Span()) && KernelWhole(mem, root, boot) && boot.Ok()
    requires Kept(s, lo, hi) && TakenAs(s, lo, hi, size, a, s') && job.Vaddr() == a.start && job.Bytes() == size
    requires job.Ok() && Straight(job)
    ensures !Blocked(mem, root, job, Slots(job))
  {
    var slots := Slots(job);
    forall n, vpn | 0 <= n < |slots| && 0 <= vpn < PAGES ensures !BlockedAt(mem, root, job, slots[n], vpn) {
      SlotAt(job, n);
      if Block(vpn, job.level - 1) == slots[n] {
        var w := PageHasByte(job, n, vpn);
        NotStored(s, lo, hi, size, a, s', w);
        if MappedAt(mem, root, w) { KernelIsMapped(mem, root, boot, w); }
      }
    }
  }

  /** Any new range away from the kernel translates exactly when it is straight. */
  lemma NewTranslatesIff(mem0: Memory, mem: Memory, root: nat, s: seq<Area>, lo: nat, hi: nat,
                         size: nat, a: Area, s': seq<Area>, job: Job, boot: Boot)
    requires Accounted(mem0, root, s, lo, hi, boot.Span()) && KernelWhole(mem0, root, boot) && boot.Ok()
    requires Kept(s, lo, hi) && TakenAs(s, lo, hi, size, a, s') && !Reaches(a.start, a.start + size, boot.Span())
    requires job.Ok() && InMemory(job) && job.count <= UnitsIn(job.level)
    requires job.Vaddr() == a.start && job.Bytes() == size && Completed(mem0, mem, root, job)
    ensures Translated(mem, root, a.start, job.phys, size) <==> Straight(job)
  {
    NewIsFreshIff(mem0, root, s, lo, hi, size, a, s', job, boot);
    TranslatesIff(mem0, mem, root, job);
  }

  lemma PageSum(a: nat, b: nat, c: nat)
    requires a % 4096 == 0 && b % 4096 == 0 && c == a + b
    ensures c % 4096 == 0
  {
  }

  lemma RangeWrittenIs(mem0: Memory, mem: Memory, root: nat, lo: nat, hi: nat, s: seq<Area>, size: nat, a: Area,
                  s': seq<Area>, job: Job, end: nat)
    requires TakenAs(s, lo, hi, size, a, s') && end == a.start + size && size % 4096 == 0
    requires job.Ok() && Straight(job) && job.count <= UnitsIn(job.level) && Completed(mem0, mem, root, job)
    requires job.Vaddr() == a.start && job.Bytes() == size
    ensures RangeWritten(mem0, mem, root, job, a.start, end) && end <= hi && lo <= a.start
  {
    PageSum(a.start, size, end);
  }

  /** What is stored does not lie in the new range and keeps its mapping. */
  lemma StoredKept(mem0: Memory, mem: Memory, root: nat, s: seq<Area>, lo: nat, hi: nat,
                   size: nat, a: Area, s': seq<Area>, job: Job, end: nat, w: nat)
    requires Kept(s, lo, hi) && TakenAs(s, lo, hi, size, a, s') && end == a.start + size
    requires RangeWritten(mem0, mem, root, job, a.start, end) && Stored(s, w)
    ensures MappingOf(mem, root, PageNumber(w)) == MappingOf(mem0, root, PageNumber(w))
  {
    if a.start <= w < end { NotStored(s, lo, hi, size, a, s', w); }
    OutsideNew(mem0, mem, root, lo, hi, job, a.start, end, w, PageNumber(w));
  }

  /** A range handed out earlier still translates. */
  lemma StillServed(mem0: Memory, mem: Memory, root: nat, s: seq<Area>, lo: nat, hi: nat,
                    size: nat, a: Area, s': seq<Area>, job: Job, end: nat, earlier: Grant)
    requires Kept(s, lo, hi) && TakenAs(s, lo, hi, size, a, s') && end == a.start + size && LeavesDecide(mem, root)
    requires RangeWritten(mem0, mem, root, job, a.start, end) && Served(mem0, root, s, earlier)
    ensures Served(mem, root, s', earlier)
  {
    InsertedMember(s, a, s');
    var (v, p, n) := (earlier.v, earlier.phys, earlier.size);
    forall w: nat, q: nat | Lands(v, p, n, w, q) ensures TranslatedAt(mem, root, w, q) {
      assert TranslatedAt(mem0, root, w, q);
      assert Area(v, v + n).Has(w);
      StoredKept(mem0, mem, root, s, lo, hi, size, a, s', job, end, w);
    }
    forall w: nat | v <= w < v + n ensures StampedAt(mem, root, w, earlier.flags) {
      assert StampedAt(mem0, root, w, earlier.flags);
      assert Area(v, v + n).Has(w);
      StoredKept(mem0, mem, root, s, lo, hi, size, a, s', job, end, w);
      AskedIsStamped(mem, root, w, earlier.flags);
    }
  }

  lemma StillAccounted(mem0: Memory, mem: Memory, root: nat, s: seq<Area>, lo: nat, hi: nat,
                       size: nat, a: Area, s': seq<Area>, job: Job, end: nat, span: Area)
    requires Kept(s, lo, hi) && TakenAs(s, lo, hi, size, a, s') && a.end == end == a.start + size
    requires RangeWritten(mem0, mem, root, job, a.start, end) && Accounted(mem0, root, s, lo, hi, span)
    ensures Accounted(mem, root, s', lo, hi, span)
  {
    forall w: nat | lo <= w < hi && MappedAt(mem, root, w) ensures Stored(s', w) || span.Has(w) {
      if !(a.start <= w < end) {
        OutsideNew(mem0, mem, root, lo, hi, job, a.start, end, w, PageNumber(w));
        assert MappedAt(mem0, root, w);
      }
      if !span.Has(w) || a.start <= w < end { StoredStays(s, a, s', w); }
    }
  }

  lemma NewIsServed(mem0: Memory, mem: Memory, root: nat, s: seq<Area>, lo: nat, hi: nat,
                    size: nat, a: Area, s': seq<Area>, job: Job, end: nat, g: Grant)
    requires TakenAs(s, lo, hi, size, a, s') && a.end == end && RangeWritten(mem0, mem, root, job, a.start, end)
    requires InMemory(job) && Grants(g, job) && LeavesDecide(mem, root)
    ensures Served(mem, root, s', g)
  {
    StraightRange(mem0, mem, root, job);
    StraightStamps(mem0, mem, root, job, g.flags);
    InsertedMember(s, a, s');
  }

  /** What the job was to do is what was handed out. */
  predicate Grants(g: Grant, job: Job)
  {
    && g.v == job.Vaddr() && g.phys == job.phys && g.size == job.Bytes()
    && VmaToPteFlags(g.flags) == job.flags
  }

  /** A straight call serves its range and goes on serving all ranges handed out before. */
  lemma RemapKeeps(mem0: Memory, mem: Memory, root: nat, s: seq<Area>, lo: nat, hi: nat,
                   size: nat, a: Area, s': seq<Area>, job: Job, end: nat, boot: Boot, grants: seq<Grant>, g: Grant)
    requires Kept(s, lo, hi) && TakenAs(s, lo, hi, size, a, s') && a.end == end == a.start + size
    requires RangeWritten(mem0, mem, root, job, a.start, end) && InMemory(job) && LeavesDecide(mem, root)
    requires Orderly(mem0, root, s, lo, hi, boot, grants) && boot.Ok() && Grants(g, job)
    ensures Orderly(mem, root, s', lo, hi, boot, grants + [g])
  {
    StillAccounted(mem0, mem, root, s, lo, hi, size, a, s', job, end, boot.Span());
    MemoryKept(mem0, mem, root, boot, job, a.start, end);
    NewIsServed(mem0, mem, root, s, lo, hi, size, a, s', job, end, g);
    forall h | h in grants ensures Served(mem, root, s', h) {
      StillServed(mem0, mem, root, s, lo, hi, size, a, s', job, end, h);
    }
  }

  // ---- where vma_alloc_area puts it -----------------------------------------------------------------

  /** The place that vma_alloc_area prefers for a range of this size meets the kernel: what a caller can
      look up before the call. */
  ghost predicate Endangers(s: seq<Area>, lo: nat, hi: nat, size: nat, span: Area)
  {
    exists k :: 0 <= k <= |s| && Preferred(s, lo, hi, size, k)
                && Reaches(GapStart(s, lo, k), GapStart(s, lo, k) + size, span)
  }

  /** The preferred gap is unique. */
  lemma OnePreferred(s: seq<Area>, lo: nat, hi: nat, need: nat, j: nat, k: nat)
    requires j <= |s| && k <= |s| && Preferred(s, lo, hi, need, j) && Preferred(s, lo, hi, need, k)
    ensures j == k
  {
  }

  lemma EndangersIff(s: seq<Area>, lo: nat, hi: nat, size: nat, a: Area, s': seq<Area>, span: Area)
    requires TakenAs(s, lo, hi, size, a, s')
    ensures Endangers(s, lo, hi, size, span) <==> Reaches(a.start, a.start + size, span)
  {
    var k :| 0 <= k <= |s| && Preferred(s, lo, hi, size, k) && a.start == GapStart(s, lo, k);
    forall j | 0 <= j <= |s| && Preferred(s, lo, hi, size, j) ensures j == k {
      OnePreferred(s, lo, hi, size, j, k);
    }
  }

  // ---- the run --------------------------------------------------------------------------------------

  lemma DoneIsCompleted(mem0: Memory, space: AddressSpace, mem: Memory, root: nat, job: Job)
    requires job.Ok() && Ends(Done, space, mem0, job) && mem == space.mem && root == space.root
    ensures Completed(mem0, mem, root, job)
  {
  }

  lemma NoWrap(a: Area, size: nat)
    requires a.end == Plus(a.start, size) && a.start + size < U64
    ensures a.end == a.start + size
  {
  }

  lemma RunGoesOn(mem0: Memory, mem: Memory, root: nat, s: seq<Area>, lo: nat, hi: nat, size: nat, a: Area,
                  s': seq<Area>, job: Job, end: nat, boot: Boot, grants: seq<Grant>, g: Grant)
    requires Kept(s, lo, hi) && TakenAs(s, lo, hi, size, a, s') && end == a.start + size && size % 4096 == 0
    requires Serving(mem0, root, s, lo, hi, boot, grants) && boot.Ok() && LeavesDecide(mem, root)
    requires job.Ok() && job.count <= UnitsIn(job.level) && job.Vaddr() == a.start && job.Bytes() == size
    requires Completed(mem0, mem, root, job) && InMemory(job) && Grants(g, job)
    ensures Straight(job) ==> Translated(mem, root, g.v, g.phys, g.size) && Stamped(mem, root, g.v, g.size, g.flags)
    ensures !Reaches(a.start, end, boot.Span()) ==> (Translated(mem, root, g.v, g.phys, g.size) <==> Straight(job))
    ensures Straight(job) ==> (KernelWhole(mem, root, boot) <==> MirrorsAll(job, boot, a.start, end))
    ensures !Reaches(a.start, end, boot.Span()) ==> MirrorsAll(job, boot, a.start, end)
    ensures Straight(job) && end < U64 ==> Orderly(mem, root, s', lo, hi, boot, grants + [g])
  {
    ReachesIff(a.start, end, boot.Span());
    if !Reaches(a.start, end, boot.Span()) {
      NewTranslatesIff(mem0, mem, root, s, lo, hi, size, a, s', job, boot);
    }
    if Straight(job) {
      StraightRange(mem0, mem, root, job);
      StraightStamps(mem0, mem, root, job, g.flags);
      RangeWrittenIs(mem0, mem, root, lo, hi, s, size, a, s', job, end);
      KernelSurvivesIff(mem0, mem, root, job, a.start, end, boot);
      if end < U64 {
        NoWrap(a, size);
        RemapKeeps(mem0, mem, root, s, lo, hi, size, a, s', job, end, boot, grants, g);
      }
    }
  }

  lemma RegionKept(region: Region)
    requires region.Valid() && region.Inside() && Paged(Areas(region.Records()), region.rStart)
    requires VMMAP <= region.rStart
    ensures Kept(Areas(region.Records()), region.rStart, region.limit)
    ensures region.limit <= region.rStart + VMMAP_LEN
  {
  }

  /** What a call that handed out g leaves behind: a straight range translates and has its flags, and the run
      goes on; the kernel stays exactly when the range mirrors what it meets of it. */
  ghost predicate Goes(mem: Memory, root: nat, s: seq<Area>, lo: nat, hi: nat, s': seq<Area>,
                       job: Job, boot: Boot, grants: seq<Grant>, g: Grant)
    requires job.Ok()
  {
    && (Straight(job) ==> Translated(mem, root, g.v, g.phys, g.size) && Stamped(mem, root, g.v, g.size, g.flags))
    && (Straight(job) ==> (KernelWhole(mem, root, boot) <==> MirrorsAll(job, boot, g.v, g.v + g.size)))
    && (Straight(job) && g.v + g.size < U64 ==> Orderly(mem, root, s', lo, hi, boot, grants + [g]))
    && (!Endangers(s, lo, hi, g.size, boot.Span()) ==>
          && (Translated(mem, root, g.v, g.phys, g.size) <==> Straight(job))
          && (Straight(job) && g.v + g.size < U64 ==> Serving(mem, root, s', lo, hi, boot, grants + [g])))
  }

  /** What ioremap hands out at start for these arguments: whole pages. */
  predicate GrantFor(g: Grant, phy: nat, len: nat, flags: nat, start: nat)
  {
    g.v == start && g.phys + phy % 4096 == phy && g.size == RangeSize(phy, len) && g.flags == flags
  }

  lemma JobGoesOn(mem0: Memory, space: AddressSpace, s: seq<Area>, lo: nat, hi: nat, phy: nat, len: nat, flags: nat,
                  a: Area, stop: nat, s': seq<Area>, job: Job, boot: Boot, grants: seq<Grant>, g: Grant, end: End)
    requires Kept(s, lo, hi) && TakenAs(s, lo, hi, RangeSize(phy, len), a, s') && stop == a.start + RangeSize(phy, len)
    requires Serving(mem0, space.root, s, lo, hi, boot, grants) && boot.Ok() && space.Valid()
    requires JobIs(job, phy, len, flags, a.start) && Ends(end, space, mem0, job)
    requires GrantFor(g, phy, len, flags, a.start)
    ensures Endangers(s, lo, hi, RangeSize(phy, len), boot.Span()) <==> Reaches(a.start, stop, boot.Span())
    ensures Straight(job) ==> !end.HitHugePage?
    ensures end.Done? && InMemory(job) ==> Goes(space.mem, space.root, s, lo, hi, s', job, boot, grants, g)
  {
    var size := RangeSize(phy, len);
    RangeSizeIs(phy, len);
    EndangersIff(s, lo, hi, size, a, s', boot.Span());
    if Straight(job) { NewIsClear(mem0, space.root, s, lo, hi, size, a, s', job, boot); }
    if end.Done? && InMemory(job) {
      DoneIsCompleted(mem0, space, space.mem, space.root, job);
      space.EntriesDecide();
      GrantIs(job, phy, len, flags, a.start, g);
      RunGoesOn(mem0, space.mem, space.root, s, lo, hi, size, a, s', job, stop, boot, grants, g);
    }
  }

  lemma GrantIs(job: Job, phy: nat, len: nat, flags: nat, start: nat, g: Grant)
    requires GrantFor(g, phy, len, flags, start) && JobIs(job, phy, len, flags, start)
    ensures Grants(g, job)
  {
    AlignDown(phy);
  }

  /** One more ioremap in a run. */
  method RemapNext(region: Region, space: AddressSpace, phy: nat, len: nat, flags: nat, record: Node?,
                   ghost boot: Boot, ghost grants: seq<Grant>)
    returns (v: nat, end: End, ghost job: Job, ghost g: Grant)
    requires region.Valid() && region.Inside() && Paged(Areas(region.Records()), region.rStart)
    requires VMMAP <= region.rStart && space.Valid() && boot.Ok()
    requires record != null ==> record !in region.shape.Nodes()
    requires Serving(space.mem, space.root, Areas(region.Records()), region.rStart, region.limit, boot, grants)
    modifies region`shape, region.tree, Only(record), space`mem, space`supply, space`at
    modifies (region.shape.Nodes())`left, (region.shape.Nodes())`right
    modifies (region.shape.Nodes())`parent, (region.shape.Nodes())`red
    ensures v == 0 <==>
              (record == null
               || !HasRoom(old(Areas(region.Records())), region.rStart, region.limit, RangeSize(phy, len)))
    ensures v == 0 ==>
              Serving(space.mem, space.root, Areas(region.Records()), region.rStart, region.limit, boot, grants)
    ensures v != 0 ==>
              && v == g.v + phy % 4096 && GrantFor(g, phy, len, flags, g.v)
              && JobIs(job, phy, len, flags, g.v) && (Straight(job) ==> !end.HitHugePage?)
              && (Endangers(old(Areas(region.Records())), region.rStart, region.limit, g.size, boot.Span())
                  <==> Reaches(g.v, g.v + g.size, boot.Span()))
    ensures v != 0 && end.Done? && InMemory(job) ==>
              Goes(space.mem, space.root, old(Areas(region.Records())), region.rStart, region.limit,
                   Areas(region.Records()), job, boot, grants, g)
    ensures v != 0 && g.v + g.size < U64 ==>
              region.Valid() && region.Inside() && Paged(Areas(region.Records()), region.rStart)
  {
    ghost var s, mem0 := Areas(region.Records()), space.mem;
    RegionKept(region);
    ghost var a;
    v, end, job, a := Remap(region, space, phy, len, flags, record);
    g := Grant(a.start, phy - phy % 4096, RangeSize(phy, len), flags);
    if v != 0 {
      JobGoesOn(mem0, space, s, region.rStart, region.limit, phy, len, flags, a, a.start + RangeSize(phy, len),
                Areas(region.Records()), job, boot, grants, g, end);
    }
  }

  // ---- calls that go wrong --------------------------------------------------------------------------

  /** The first call of all endangers the kernel exactly when it asks for more than there is below it. */
  lemma FirstEndangersIff(size: nat, boot: Boot)
    requires boot.Ok() && boot.kernelSize > 0 && size <= VMMAP_LEN
    ensures Endangers([], VMMAP, U64, size, boot.Span()) <==> size > KERNEL_OFFS - VMMAP
  {
    var s: seq<Area> := [];
    SpanFits(boot);
    CountsAre(boot.kernelSize);
    assert Preferred(s, VMMAP, U64, size, 0);
    assert GapStart(s, VMMAP, 0) == VMMAP;
  }

  /** ioremap(0, 64 TiB) as the first call: the range is there, it is straight, and the kernel is gone. */
  lemma WholeRegionTakesKernel(mem0: Memory, mem: Memory, root: nat, boot: Boot, flags: nat, job: Job)
    requires boot.Ok() && boot.kernelSize > 0 && KernelWhole(mem0, root, boot)
    requires job == JobFor(0, VMMAP, VMMAP_LEN, flags)
    ensures RangeSize(0, VMMAP_LEN) == VMMAP_LEN && HasRoom([], VMMAP, U64, VMMAP_LEN)
    ensures TakenAs([], VMMAP, U64, VMMAP_LEN, Area(VMMAP, 0), [Area(VMMAP, 0)])
    ensures job.Ok() && job.level == 3 && Straight(job) && InMemory(job)
    ensures Completed(mem0, mem, root, job) ==> !KernelWhole(mem, root, boot)
  {
    WholeRegionJob(0, VMMAP, VMMAP_LEN, flags, job);
    TakesAll();
    if Completed(mem0, mem, root, job) { KernelCovered(mem0, mem, root, boot, job, VMMAP, U64); }
  }

  lemma WholeRegionJob(phys: nat, v: nat, size: nat, flags: nat, job: Job)
    requires phys == 0 && v == VMMAP && size == VMMAP_LEN && job == JobFor(phys, v, size, flags)
    ensures RangeSize(phys, size) == size && job.Vaddr() == v && v + job.Bytes() == U64
    ensures job.Ok() && job.level == 3 && Straight(job) && InMemory(job) && job.count <= UnitsIn(job.level)
  {
    WholeSize(phys, size);
    PteFlagsOk(flags);
    HugeJob(phys, v, size, flags, job);
  }

  lemma WholeSize(phys: nat, size: nat)
    requires phys % 4096 == 0 && size % 4096 == 0 && size < U64
    ensures RangeSize(phys, size) == size
  {
    WholePageUp(size);
    assert (size + phys % 4096) % U64 == size;
  }

  lemma HugeJob(phys: nat, v: nat, size: nat, flags: nat, job: Job)
    requires phys == 0 && v == VMMAP && size == VMMAP_LEN && job == JobFor(phys, v, size, flags)
    ensures job == Job(3, 0x3_FFFF_0000, 0x1_0000, phys, VmaToPteFlags(flags))
  {
  }

  /** Larger pages over all of the kernel. */
  lemma KernelCovered(mem0: Memory, mem: Memory, root: nat, boot: Boot, job: Job, start: nat, end: nat)
    requires RangeWritten(mem0, mem, root, job, start, end) && InMemory(job) && job.level > 1
    requires boot.Ok() && boot.kernelSize > 0
    requires VMMAP <= start <= KERNEL_OFFS && end == U64
    ensures !KernelWhole(mem, root, boot)
  {
    SpanFits(boot);
    CountsAre(boot.kernelSize);
    if KernelWhole(mem, root, boot) {
      MirrorOfKernel(mem0, mem, root, job, start, end, boot);
      MirrorIsSmall(job, boot, start, end, KERNEL_OFFS);
    }
  }

  lemma MirrorIsSmall(job: Job, boot: Boot, start: nat, end: nat, w: nat)
    requires MirrorsAll(job, boot, start, end) && start <= w < end && boot.Span().Has(w)
    ensures job.level == 1
  {
    assert Mirrors(job, boot.image, w);
  }

  lemma TakesAll()
    ensures HasRoom([], VMMAP, U64, VMMAP_LEN)
    ensures TakenAs([], VMMAP, U64, VMMAP_LEN, Area(VMMAP, 0), [Area(VMMAP, 0)])
  {
    var s: seq<Area>, a := [], Area(VMMAP, 0);
    assert Roomy(s, VMMAP, U64, VMMAP_LEN, 0) && Preferred(s, VMMAP, U64, VMMAP_LEN, 0);
    assert InsertedAt(s, a, [a], 0);
    assert GapStart(s, VMMAP, 0) == a.start;
  }

  /** The last unit of a 2 MiB range one page above the start of the region. */
  lemma WrapsAround(job: Job, v: nat)
    requires job.Ok() && job.level == 1 && job.start == v == 0xF_FFFC_0000_0001 && job.count == 512
    ensures Slots(job)[511] == 0xC_0000_0000
  {
    LowDigits(v);
    assert Slots(job)[511] == Slot(job, 511);
  }

  lemma LowDigits(v: nat)
    requires v == 0xF_FFFC_0000_0001
    ensures Digit(v, 511, 512) == 0 && Digit(v, 511, 0x4_0000) == 0 && Digit(v, 511, 0x800_0000) == 384
    ensures (v + 511) % 512 == 0
  {
  }

  /** ioremap of one page and then of 2 MiB, as the first two calls: the second, which is crooked, takes the
      page of the first and maps it to the last page of its own physical range. */
  lemma SecondRangeTakesFirst(mem0: Memory, mem: Memory, root: nat, phys: nat, flags: nat, job: Job, w: nat, q: nat)
    requires phys % 4096 == 0 && job == JobFor(phys, VMMAP + 4096, MIB2, flags)
    requires job.Ok() && InMemory(job) && Completed(mem0, mem, root, job)
    requires VMMAP <= w < VMMAP + 4096 && q == phys + 4096 * 511 + (w - VMMAP)
    ensures TranslatedAt(mem, root, w, q)
  {
    var vpn := PageNumber(w);
    SecondJob(phys, VMMAP + 4096, MIB2, flags, job);
    WrapsAround(job, job.start);
    FirstPage(w, vpn);
    AfterWrite(mem0, root, job, Slots(job), 512, 511, vpn);
    EntryResolves(job, 511, w);
  }

  lemma SecondJob(phys: nat, v: nat, size: nat, flags: nat, job: Job)
    requires v == VMMAP + 4096 && size == MIB2 && job == JobFor(phys, v, size, flags)
    ensures job.level == 1 && job.start == 0xF_FFFC_0000_0001 && job.count == 512 && job.phys == phys
  {
  }

  lemma FirstPage(w: nat, vpn: nat)
    requires VMMAP <= w < VMMAP + 4096 && vpn == PageNumber(w)
    ensures vpn == 0xC_0000_0000 && Block(vpn, 0) == vpn && w % 4096 == w - VMMAP
  {
    assert w / 4096 == 0xF_FFFC_0000_0000;
  }
}
