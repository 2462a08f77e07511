/**
 ioremap of kernel/mm/vmalloc.c: a range of kernel addresses from the VMA tree, mapped to a physical
 range, and what kpt_get_phys then answers for it.
 */
module Ioremap {
  import opened Powers
  import opened Bits
  import opened Phys
  import opened PageTables
  import opened PageWalk
  import opened PageRights
  import opened PageSpace
  import opened PageJobs
  import opened PageMaps
  import opened PageMappers
  import opened RbTrees
  import opened RbHeap
  import opened Vma

  // ---- flags ----------------------------------------------------------------------------------------

  const VM_WRITE: nat := 2
  const VM_EXEC: nat := 4
  const VM_USER: nat := 8
  const VM_IO: nat := 32
  const VM_NOCACHE: nat := 64
  const VM_WRITE_THROUGH: nat := 128

  /** The same flags by the number of their bit. */
  const WRITE_BIT: nat := 1
  const EXEC_BIT: nat := 2
  const USER_BIT: nat := 3
  const IO_BIT: nat := 5
  const NOCACHE_BIT: nat := 6
  const WRITE_THROUGH_BIT: nat := 7

  predicate Wants(flags: nat, flag: nat) { And(flags, flag) != 0 }

  lemma WantsBit(flags: nat, flag: nat, b: nat)
    requires flag == Pow2(b)
    ensures Wants(flags, flag) <==> TestBit(flags, b)
  {
    AndBit(flags, b);
  }

  /** The flags with some bits set, when the test that guards them succeeds. */
  function With(f: nat, on: bool, bits: nat): nat { if on then Or(f, bits) else f }

  /** vma_to_pte_flags */
  function VmaToPteFlags(flags: nat): nat
  {
    var f1 := With(PRESENT, Wants(flags, VM_WRITE), WRITABLE);
    var f2 := With(f1, Wants(flags, VM_USER), USER);
    var f3 := With(f2, Wants(flags, VM_IO), Or(PRESENT, WRITABLE));
    var f4 := With(f3, Wants(flags, VM_NOCACHE), PAGECACHE_DISABLE);
    var f5 := With(f4, Wants(flags, VM_WRITE_THROUGH), WRITE_THROUGH);
    With(f5, !Wants(flags, VM_EXEC), NO_EXECUTE)
  }

  lemma BitValues()
    ensures Pow2(0) == 1 && Pow2(1) == 2 && Pow2(2) == 4 && Pow2(3) == 8 && Pow2(4) == 16
    ensures Pow2(63) == NO_EXECUTE
  {
    PowerTable();
    assert Pow2(11) == 2048 by { Pow2Add(9, 2); }
    Pow2Add(52, 11);
  }

  lemma WithBit(f: nat, on: bool, b: nat, k: nat)
    ensures TestBit(With(f, on, Pow2(b)), k) <==> TestBit(f, k) || (on && b == k)
  {
    TestBitOr(f, Pow2(b), k);
    TestBitPow2(b, k);
  }

  lemma WithFlags(f: nat, on: bool, bits: nat)
    requires FlagsOnly(f) && FlagsOnly(bits)
    ensures FlagsOnly(With(f, on, bits))
  {
    FlagsOr(f, bits);
  }

  /** Bit k of an entry is asked for. */
  predicate Wanted(flags: nat, k: nat)
  {
    || k == 0
    || (k == 1 && (TestBit(flags, WRITE_BIT) || TestBit(flags, IO_BIT)))
    || (k == 2 && TestBit(flags, USER_BIT))
    || (k == 3 && TestBit(flags, WRITE_THROUGH_BIT))
    || (k == 4 && TestBit(flags, NOCACHE_BIT))
    || (k == 63 && !TestBit(flags, EXEC_BIT))
  }

  lemma AllWants(flags: nat)
    ensures Wants(flags, VM_WRITE) <==> TestBit(flags, WRITE_BIT)
    ensures Wants(flags, VM_EXEC) <==> TestBit(flags, EXEC_BIT)
    ensures Wants(flags, VM_USER) <==> TestBit(flags, USER_BIT)
    ensures Wants(flags, VM_IO) <==> TestBit(flags, IO_BIT)
    ensures Wants(flags, VM_NOCACHE) <==> TestBit(flags, NOCACHE_BIT)
    ensures Wants(flags, VM_WRITE_THROUGH) <==> TestBit(flags, WRITE_THROUGH_BIT)
  {
    PowerTable();
    WantsBit(flags, VM_WRITE, WRITE_BIT);
    WantsBit(flags, VM_EXEC, EXEC_BIT);
    WantsBit(flags, VM_USER, USER_BIT);
    WantsBit(flags, VM_IO, IO_BIT);
    WantsBit(flags, VM_NOCACHE, NOCACHE_BIT);
    WantsBit(flags, VM_WRITE_THROUGH, WRITE_THROUGH_BIT);
  }

  /** What each bit of the entry says. */
  lemma PteFlagBits(flags: nat, k: nat)
    ensures TestBit(VmaToPteFlags(flags), k) <==> Wanted(flags, k)
  {
    BitValues();
    AllWants(flags);
    var f1 := With(PRESENT, Wants(flags, VM_WRITE), WRITABLE);
    var f2 := With(f1, Wants(flags, VM_USER), USER);
    var f3 := With(f2, Wants(flags, VM_IO), Or(PRESENT, WRITABLE));
    var f4 := With(f3, Wants(flags, VM_NOCACHE), PAGECACHE_DISABLE);
    var f5 := With(f4, Wants(flags, VM_WRITE_THROUGH), WRITE_THROUGH);
    TestBitPow2(0, k);
    WithBit(PRESENT, Wants(flags, VM_WRITE), 1, k);
    WithBit(f1, Wants(flags, VM_USER), 2, k);
    WithBit(PRESENT, true, 1, k);
    TestBitOr(f2, Or(PRESENT, WRITABLE), k);
    WithBit(f3, Wants(flags, VM_NOCACHE), 4, k);
    WithBit(f4, Wants(flags, VM_WRITE_THROUGH), 3, k);
    WithBit(f5, !Wants(flags, VM_EXEC), 63, k);
  }

  lemma PteFlagsOk(flags: nat)
    ensures IsPresent(VmaToPteFlags(flags)) && FlagsOnly(VmaToPteFlags(flags))
  {
    PteFlagBits(flags, 0);
    PresentBit(VmaToPteFlags(flags));
    PowerTable();
    var f1 := With(PRESENT, Wants(flags, VM_WRITE), WRITABLE);
    var f2 := With(f1, Wants(flags, VM_USER), USER);
    var f3 := With(f2, Wants(flags, VM_IO), Or(PRESENT, WRITABLE));
    var f4 := With(f3, Wants(flags, VM_NOCACHE), PAGECACHE_DISABLE);
    var f5 := With(f4, Wants(flags, VM_WRITE_THROUGH), WRITE_THROUGH);
    WithFlags(PRESENT, Wants(flags, VM_WRITE), WRITABLE);
    WithFlags(f1, Wants(flags, VM_USER), USER);
    FlagsOr(PRESENT, WRITABLE);
    WithFlags(f2, Wants(flags, VM_IO), Or(PRESENT, WRITABLE));
    WithFlags(f3, Wants(flags, VM_NOCACHE), PAGECACHE_DISABLE);
    WithFlags(f4, Wants(flags, VM_WRITE_THROUGH), WRITE_THROUGH);
    WithFlags(f5, !Wants(flags, VM_EXEC), NO_EXECUTE);
  }

  // ---- the walk over what was mapped ----------------------------------------------------------------

  /** n addresses from v on translate to those from p on. */
  ghost predicate Translated(mem: Memory, root: nat, v: nat, p: nat, n: nat)
  {
    forall w: nat, q: nat {:trigger TranslatedAt(mem, root, w, q)} ::
      Lands(v, p, n, w, q) ==> TranslatedAt(mem, root, w, q)
  }

  /** w and q are at the same place in the two ranges. */
  predicate Lands(v: nat, p: nat, n: nat, w: nat, q: nat) { v <= w < v + n && q == p + (w - v) }

  predicate TranslatedAt(mem: Memory, root: nat, w: nat, q: nat)
  {
    Resolved(MappingOf(mem, root, PageNumber(w)), w) == q
  }

  /** (x % (m * d)) / d is the quotient of x by d, modulo m. */
  lemma ModDiv(x: nat, d: nat, m: nat)
    requires d > 0 && m > 0
    ensures m * d > 0 && (x % (m * d)) / d == (x / d) % m
  {
    var q, r := x / d, x % d;
    var k, t := q / m, q % m;
    MulMono(1, m, d);
    assert q * d == k * (m * d) + t * d by { MulDistr(k * m, t, d); MulAssoc(k, m, d); }
    assert 0 <= t * d + r < m * d by { MulMono(t + 1, m, d); MulDistr(t, 1, d); MulMono(0, t, d); }
    DivModUnique(x, m * d, k, t * d + r);
    DivModUnique(t * d + r, d, t, r);
  }

  /** The i-th byte of the range: its unit, and its page's. */
  function UnitOf(level: nat, i: nat): nat
  {
    if level == 3 then i / GIB else if level == 2 then i / MIB2 else i / 4096
  }

  lemma ByteInUnit(job: Job, i: nat, w: nat)
    requires job.Ok() && w == job.Vaddr() + i
    ensures InUnit(job, UnitOf(job.level, i), PageNumber(w))
  {
    var a := w / 4096;
    BlockUnrolled(PageNumber(w));
    if job.level == 1 {
      assert a == job.start + i / 4096;
    } else if job.level == 2 {
      ModDiv(a, 512, 0x800_0000);
      assert a / 512 == job.start + i / MIB2;
    } else {
      ModDiv(a, 512, 0x800_0000);
      ModDiv(a / 512, 512, 0x4_0000);
      assert a / 512 / 512 == job.start + i / GIB;
    }
  }

  /** The physical range is aligned to the units and within the 52 address bits of an entry. */
  predicate InMemory(job: Job)
  {
    job.phys % Scaled(job.level, 1) == 0 && job.phys + job.Bytes() <= 0x10_0000_0000_0000
  }

  /** The n-th entry sends every address of a page to the n-th unit of the physical range. */
  lemma EntryResolves(job: Job, n: nat, virt: nat)
    requires job.Ok() && InMemory(job) && n < job.count
    ensures Resolved(Mapped(job.Entry(n), job.level), virt)
         == job.phys + Scaled(job.level, n) + virt % Scaled(job.level, 1)
  {
    UnitSize(job.level);
    UnitAddress(job, n);
    EntryAddress(job.level, job.phys + Scaled(job.level, n), job.flags);
    ResolvedTo(job.Entry(n), job.phys + Scaled(job.level, n), job.level, virt);
  }

  /** The address in an entry. */
  lemma EntryAddress(level: nat, p: nat, flags: nat)
    requires 1 <= level <= 3 && FlagsOnly(flags) && p % Pow2(MapShift(level)) == 0 && p < Pow2(52)
    ensures PhysRebase(EntryFor(level, p, flags), MapShift(level), RangeMask(51, MapShift(level))) == p
  {
    SizeBitIsFlag();
    FlaggedAddress(p, flags, PAGESIZE_BIT, MapShift(level));
  }

  lemma FlaggedAddress(p: nat, f: nat, g: nat, s: nat)
    requires 12 <= s < 52 && FlagsOnly(f) && FlagsOnly(g) && p % Pow2(s) == 0 && p < Pow2(52)
    ensures PhysRebase(Or(p, f), s, RangeMask(51, s)) == p
    ensures PhysRebase(Or(Or(p, f), g), s, RangeMask(51, s)) == p
  {
    AddressOf(p, f, s);
    AddressKept(Or(p, f), g, s);
  }

  lemma SizeBitIsFlag()
    ensures FlagsOnly(PAGESIZE_BIT)
  {
    PowerTable();
  }

  lemma UnitSize(level: nat)
    requires 1 <= level <= 3
    ensures Scaled(level, 1) == Pow2(MapShift(level)) && Pow2(52) == 0x10_0000_0000_0000
  {
    PowerTable();
  }

  lemma UnitAddress(job: Job, n: nat)
    requires job.Ok() && InMemory(job) && n < job.count
    ensures var p := job.phys + Scaled(job.level, n); p % Scaled(job.level, 1) == 0 && p < 0x10_0000_0000_0000
  {
    if job.level == 3 {
      MultipleSum(job.phys, n, GIB);
    } else if job.level == 2 {
      MultipleSum(job.phys, n, MIB2);
    } else {
      MultipleSum(job.phys, n, 4096);
    }
  }

  lemma MultipleSum(a: nat, n: nat, d: nat)
    requires d > 0 && a % d == 0
    ensures (a + d * n) % d == 0
  {
    var q := a / d;
    assert a + d * n == (q + n) * d by { MulDistr(q, n, d); }
    DivModUnique(a + d * n, d, q + n, 0);
  }

  lemma QuotientBelow(i: nat, d: nat, n: nat)
    requires d > 0 && i < d * n
    ensures i / d < n
  {
    if i / d >= n { MulMono(n, i / d, d); }
  }

  lemma ByteParts(job: Job, i: nat)
    requires job.Ok() && i < job.Bytes()
    ensures var n := UnitOf(job.level, i);
            && n < job.count && Scaled(job.level, n) + (job.Vaddr() + i) % Scaled(job.level, 1) == i
  {
    var d := Scaled(job.level, 1);
    QuotientBelow(i, d, job.count);
    DivModUnique(d * job.start + i, d, job.start + i / d, i % d);
  }

  lemma ScaledApart(level: nat, a: nat, b: nat)
    ensures Scaled(level, a) == Scaled(level, b) <==> a == b
  {
  }

  /** What an address w of the range, its i-th, answers when its page has the entry of unit j. */
  lemma ByteResolves(job: Job, i: nat, j: nat, w: nat, q: nat)
    requires job.Ok() && InMemory(job) && i < job.Bytes() && j < job.count
    requires w == job.Vaddr() + i && q == job.phys + i
    ensures Resolved(Mapped(job.Entry(j), job.level), w) == q <==> j == UnitOf(job.level, i)
  {
    var n, off := UnitOf(job.level, i), w % Scaled(job.level, 1);
    assert Scaled(job.level, n) + off == i by { ByteParts(job, i); }
    assert Resolved(Mapped(job.Entry(j), job.level), w) == job.phys + Scaled(job.level, j) + off by {
      EntryResolves(job, j, w);
    }
    ScaledApart(job.level, j, n);
  }

  /** The mapper went through. */
  ghost predicate Completed(mem0: Memory, mem: Memory, root: nat, job: Job)
    requires job.Ok()
  {
    forall vpn :: 0 <= vpn < PAGES ==> MappingOf(mem, root, vpn) == Outcome(mem0, root, job, vpn)
  }

  predicate InRange(job: Job, w: nat) { job.Vaddr() <= w < job.Vaddr() + job.Bytes() }

  /** Nothing was mapped in the range before. */
  ghost predicate Fresh(mem0: Memory, root: nat, job: Job)
  {
    forall w :: InRange(job, w) ==> MappingOf(mem0, root, PageNumber(w)) == Unmapped
  }

  // ---- the bits of the entries ----------------------------------------------------------------------

  /** Outside the address an entry has the bits of the flags, and the size bit for a large page. */
  lemma EntryBit(job: Job, n: nat, k: nat)
    requires job.Ok() && InMemory(job) && n < job.count && !AddressBit(k)
    ensures TestBit(job.Entry(n), k) <==> TestBit(job.flags, k) || (k == 7 && job.level > 1)
  {
    var p := job.phys + Scaled(job.level, n);
    UnitSize(job.level);
    UnitAddress(job, n);
    UnitIsPages(job.level, p);
    AddressHasNoFlags(p);
    TestBitOr(p, job.flags, k);
    TestBitOr(Or(p, job.flags), PAGESIZE_BIT, k);
    FlagValues();
  }

  lemma UnitIsPages(level: nat, p: nat)
    requires 1 <= level <= 3 && p % Scaled(level, 1) == 0
    ensures p % 4096 == 0
  {
  }

  /** What a straight range shows at an address. */
  lemma StraightShows(mem0: Memory, mem: Memory, root: nat, job: Job, w: nat) returns (n: nat)
    requires job.Ok() && job.count <= UnitsIn(job.level) && Completed(mem0, mem, root, job)
    requires Straight(job) && InRange(job, w)
    ensures n == UnitOf(job.level, w - job.Vaddr()) && n < job.count
    ensures MappingOf(mem, root, PageNumber(w)) == Mapped(job.Entry(n), job.level)
  {
    var i := w - job.Vaddr();
    n := UnitOf(job.level, i);
    ByteParts(job, i);
    ByteInUnit(job, i, w);
    StraightMaps(mem0, root, job, n, PageNumber(w));
  }

  /** Outside its address the entry of this page has the bits that the flags of the range ask for, and the
      size bit if it is a large page. */
  ghost predicate BitsAsked(m: Mapping, flags: nat)
  {
    && m.Mapped?
    && forall k: nat ::
         !AddressBit(k) ==> (TestBit(m.entry, k) <==> Wanted(flags, k) || (k == 7 && m.level > 1))
  }

  /** The page of w has these bits, the kernel may do with it what was asked for, and user code nothing. */
  ghost predicate StampedAt(mem: Memory, root: nat, w: nat, flags: nat)
  {
    && BitsAsked(MappingOf(mem, root, PageNumber(w)), flags)
    && RightsOf(mem, root, PageNumber(w))
       == Rights(TestBit(flags, WRITE_BIT) || TestBit(flags, IO_BIT), false, TestBit(flags, EXEC_BIT))
  }

  /** So have n bytes from v on. */
  ghost predicate Stamped(mem: Memory, root: nat, v: nat, n: nat, flags: nat)
  {
    forall w: nat {:trigger StampedAt(mem, root, w, flags)} :: v <= w < v + n ==> StampedAt(mem, root, w, flags)
  }

  lemma EntryAsked(job: Job, n: nat, flags: nat)
    requires job.Ok() && InMemory(job) && n < job.count && job.flags == VmaToPteFlags(flags)
    ensures BitsAsked(Mapped(job.Entry(n), job.level), flags)
  {
    forall k: nat | !AddressBit(k)
      ensures TestBit(job.Entry(n), k) <==> Wanted(flags, k) || (k == 7 && job.level > 1)
    {
      EntryBit(job, n, k);
      PteFlagBits(flags, k);
    }
  }

  lemma AskedIsStamped(mem: Memory, root: nat, w: nat, flags: nat)
    requires LeavesDecide(mem, root) && BitsAsked(MappingOf(mem, root, PageNumber(w)), flags)
    ensures StampedAt(mem, root, w, flags)
  {
    var m := MappingOf(mem, root, PageNumber(w));
    assert RightsOf(mem, root, PageNumber(w)) == LeafRights(m);
    assert TestBit(m.entry, 1) <==> Wanted(flags, 1);
    assert TestBit(m.entry, 63) <==> Wanted(flags, 63);
  }

  /** The flags of a call arrive in the entry of every page of a straight range. */
  lemma StraightStamps(mem0: Memory, mem: Memory, root: nat, job: Job, flags: nat)
    requires job.Ok() && InMemory(job) && job.count <= UnitsIn(job.level) && Completed(mem0, mem, root, job)
    requires Straight(job) && job.flags == VmaToPteFlags(flags) && LeavesDecide(mem, root)
    ensures Stamped(mem, root, job.Vaddr(), job.Bytes(), flags)
  {
    forall w: nat | job.Vaddr() <= w < job.Vaddr() + job.Bytes() ensures StampedAt(mem, root, w, flags) {
      var n := StraightShows(mem0, mem, root, job, w);
      EntryAsked(job, n, flags);
      AskedIsStamped(mem, root, w, flags);
    }
  }

  lemma StraightTranslates(mem0: Memory, mem: Memory, root: nat, job: Job, w: nat, q: nat)
    requires job.Ok() && InMemory(job) && job.count <= UnitsIn(job.level) && Completed(mem0, mem, root, job)
    requires Straight(job) && Lands(job.Vaddr(), job.phys, job.Bytes(), w, q)
    ensures TranslatedAt(mem, root, w, q)
  {
    var i := w - job.Vaddr();
    var n, vpn := UnitOf(job.level, i), PageNumber(w);
    ByteParts(job, i);
    ByteInUnit(job, i, w);
    StraightMaps(mem0, root, job, n, vpn);
    ByteResolves(job, i, n, w, q);
  }

  /** Whichever mapper is taken, a straight range comes out the same. */
  lemma MappersAgree(mem0: Memory, mem1: Memory, root1: nat, job1: Job, mem2: Memory, root2: nat, job2: Job, w: nat)
    requires job1.Ok() && InMemory(job1) && job1.count <= UnitsIn(job1.level) && Straight(job1)
    requires job2.Ok() && InMemory(job2) && job2.count <= UnitsIn(job2.level) && Straight(job2)
    requires Completed(mem0, mem1, root1, job1) && Completed(mem0, mem2, root2, job2)
    requires job1.Vaddr() == job2.Vaddr() && job1.Bytes() == job2.Bytes() && job1.phys == job2.phys
    requires InRange(job1, w)
    ensures Resolved(MappingOf(mem1, root1, PageNumber(w)), w) == Resolved(MappingOf(mem2, root2, PageNumber(w)), w)
    ensures job1.flags == job2.flags ==>
              LeafRights(MappingOf(mem1, root1, PageNumber(w))) == LeafRights(MappingOf(mem2, root2, PageNumber(w)))
  {
    var q := job1.phys + (w - job1.Vaddr());
    StraightTranslates(mem0, mem1, root1, job1, w, q);
    StraightTranslates(mem0, mem2, root2, job2, w, q);
    var n1 := StraightShows(mem0, mem1, root1, job1, w);
    var n2 := StraightShows(mem0, mem2, root2, job2, w);
    RightsOfEntry(job1, n1);
    RightsOfEntry(job2, n2);
  }

  lemma RightsOfEntry(job: Job, n: nat)
    requires job.Ok() && InMemory(job) && n < job.count
    ensures LeafRights(Mapped(job.Entry(n), job.level)) == LeafRights(Mapped(job.flags, job.level))
  {
    EntryBit(job, n, 1);
    EntryBit(job, n, 63);
  }

  /** The first byte of a unit that is missed. */
  lemma CrookedByte(job: Job) returns (i: nat, n: nat, w: nat, q: nat)
    requires job.Ok() && !Straight(job)
    ensures n < job.count && !Meets(job, n) && i < job.Bytes() && UnitOf(job.level, i) == n
    ensures w == job.Vaddr() + i && q == job.phys + i
  {
    n := CrookedMisses(job);
    i := Scaled(job.level, n);
    w, q := job.Vaddr() + i, job.phys + i;
  }

  lemma CrookedDoesNot(mem0: Memory, mem: Memory, root: nat, job: Job) returns (w: nat, q: nat)
    requires job.Ok() && InMemory(job) && Completed(mem0, mem, root, job) && Fresh(mem0, root, job)
    requires !Straight(job)
    ensures Lands(job.Vaddr(), job.phys, job.Bytes(), w, q) && !TranslatedAt(mem, root, w, q)
  {
    var i, n;
    i, n, w, q := CrookedByte(job);
    var m := MappingOf(mem, root, PageNumber(w));
    MissedMapping(mem0, mem, root, job, i, n, w);
    if m == Unmapped {
      OffTheEnd(job, q);
    } else {
      var j :| 0 <= j < job.count && j != n && m == Mapped(job.Entry(j), job.level);
      ByteResolves(job, i, j, w, q);
    }
  }

  lemma OffTheEnd(job: Job, q: nat)
    requires InMemory(job) && q < job.phys + job.Bytes()
    ensures q != KPAGE_ERR
  {
  }

  /** A page whose unit is missed is not mapped, or has the entry of another unit. */
  lemma MissedMapping(mem0: Memory, mem: Memory, root: nat, job: Job, i: nat, n: nat, w: nat)
    requires job.Ok() && Completed(mem0, mem, root, job) && Fresh(mem0, root, job)
    requires n < job.count && !Meets(job, n) && i < job.Bytes() && UnitOf(job.level, i) == n && w == job.Vaddr() + i
    ensures var m := MappingOf(mem, root, PageNumber(w));
            m == Unmapped || exists j :: 0 <= j < job.count && j != n && m == Mapped(job.Entry(j), job.level)
  {
    var vpn := PageNumber(w);
    ByteInUnit(job, i, w);
    SlotIsTarget(job, n);
    AfterMissed(mem0, root, job, Slots(job), job.count, n, vpn);
    assert InRange(job, w);
  }

  /** The walk finds for every byte of the range what was asked for exactly when the range is straight. */
  lemma TranslatesIff(mem0: Memory, mem: Memory, root: nat, job: Job)
    requires job.Ok() && InMemory(job) && job.count <= UnitsIn(job.level)
    requires Completed(mem0, mem, root, job) && Fresh(mem0, root, job)
    ensures Translated(mem, root, job.Vaddr(), job.phys, job.Bytes()) <==> Straight(job)
  {
    if Straight(job) {
      StraightRange(mem0, mem, root, job);
    } else {
      var w, q := CrookedDoesNot(mem0, mem, root, job);
    }
  }

  lemma StraightRange(mem0: Memory, mem: Memory, root: nat, job: Job)
    requires job.Ok() && InMemory(job) && job.count <= UnitsIn(job.level) && Completed(mem0, mem, root, job)
    requires Straight(job)
    ensures Translated(mem, root, job.Vaddr(), job.phys, job.Bytes())
  {
    forall w: nat, q: nat | Lands(job.Vaddr(), job.phys, job.Bytes(), w, q) ensures TranslatedAt(mem, root, w, q) {
      StraightTranslates(mem0, mem, root, job, w, q);
    }
  }

  lemma ModTimes(u: nat, r: nat, m: nat)
    requires r < 512 && m > 0
    ensures (512 * u + r) % (512 * m) == 512 * (u % m) + r
  {
    var q := u / m;
    assert 512 * u == q * (512 * m) + 512 * (u % m) by { MulAssoc(q, m, 512); }
    DivModUnique(512 * u + r, 512 * m, q, 512 * (u % m) + r);
  }

  /** Every page of a unit is the page of an address in it. */
  lemma PageHasByte(job: Job, n: nat, vpn: nat) returns (w: nat)
    requires job.Ok() && n < job.count && vpn < PAGES && InUnit(job, n, vpn)
    ensures InRange(job, w) && PageNumber(w) == vpn
  {
    BlockUnrolled(vpn);
    if job.level == 1 {
      w := 4096 * (job.start + n);
    } else if job.level == 2 {
      w := LargePage(job.start + n, vpn);
    } else {
      w := HugePageOf(job.start + n, vpn);
    }
  }

  lemma LargePage(u: nat, vpn: nat) returns (w: nat)
    requires vpn < PAGES && vpn / 512 == u % 0x800_0000
    ensures MIB2 * u <= w < MIB2 * u + MIB2 && PageNumber(w) == vpn
  {
    var page := 512 * u + vpn % 512;
    w := 4096 * page;
    assert w / 4096 == page;
    ModTimes(u, vpn % 512, 0x800_0000);
  }

  lemma HugePageOf(u: nat, vpn: nat) returns (w: nat)
    requires vpn < PAGES && vpn / 512 / 512 == u % 0x4_0000
    ensures GIB * u <= w < GIB * u + GIB && PageNumber(w) == vpn
  {
    var low, mid := vpn % 512, vpn / 512 % 512;
    var page := 512 * (512 * u + mid) + low;
    w := 4096 * page;
    assert w / 4096 == page;
    ModTimes(512 * u + mid, low, 0x800_0000);
    ModTimes(u, mid, 0x4_0000);
  }

  /** Every page outside a straight range is mapped as before. */
  lemma OutsideKept(mem0: Memory, mem: Memory, root: nat, job: Job, vpn: nat)
    requires job.Ok() && Straight(job) && Completed(mem0, mem, root, job) && vpn < PAGES
    requires forall w :: InRange(job, w) ==> PageNumber(w) != vpn
    ensures MappingOf(mem, root, vpn) == MappingOf(mem0, root, vpn)
  {
    forall n | 0 <= n < job.count ensures !InUnit(job, n, vpn) {
      if InUnit(job, n, vpn) { var w := PageHasByte(job, n, vpn); }
    }
    StraightKeeps(mem0, root, job, vpn);
  }

  // ---- ioremap --------------------------------------------------------------------------------------

  /** KERNEL_VMMAP_LEN */
  const VMMAP_LEN: nat := 0x4000_0000_0000

  /** The region is made of whole pages. */
  ghost predicate Paged(areas: seq<Area>, lo: nat)
  {
    lo % 4096 == 0 && forall a :: a in areas ==> OnPages(a)
  }

  predicate OnPages(a: Area) { a.start % 4096 == 0 && a.end % 4096 == 0 }

  predicate IsAligned(val: nat, align: nat)
    requires align > 0
  {
    And(val, align - 1) == 0
  }

  /** The largest pages that fit. */
  function JobFor(phys: nat, vaddr: nat, size: nat, flags: nat): Job
  {
    var f := VmaToPteFlags(flags);
    if phys % GIB == 0 && vaddr % GIB == 0 && size % GIB == 0 then Job(3, vaddr / GIB, size / GIB, phys, f)
    else if phys % MIB2 == 0 && vaddr % MIB2 == 0 && size % MIB2 == 0 then Job(2, vaddr / MIB2, size / MIB2, phys, f)
    else Job(1, vaddr / 4096, size / 4096, phys, f)
  }

  /** No larger pages would do. */
  predicate LargestUnits(job: Job)
  {
    forall k :: job.level < k <= 3 ==>
      job.Vaddr() % Scaled(k, 1) != 0 || job.phys % Scaled(k, 1) != 0 || job.Bytes() % Scaled(k, 1) != 0
  }

  lemma JobForIs(phys: nat, vaddr: nat, size: nat, flags: nat)
    requires phys % 4096 == 0 && vaddr % 4096 == 0 && size % 4096 == 0 && size <= VMMAP_LEN
    ensures var job := JobFor(phys, vaddr, size, flags);
            && job.Ok() && Countable(job) && job.count <= UnitsIn(job.level)
            && job.Vaddr() == vaddr && job.Bytes() == size && job.phys == phys && phys % Scaled(job.level, 1) == 0
            && LargestUnits(job)
  {
    PteFlagsOk(flags);
  }

  lemma AlignedTests(val: nat)
    ensures IsAligned(val, GIB) <==> val % GIB == 0
    ensures IsAligned(val, MIB2) <==> val % MIB2 == 0
  {
    PowerTable();
    AndMask(val, 30);
    AndMask(val, 21);
  }

  /** The choice of the mapper. */
  method MapRange(space: AddressSpace, phys: nat, vaddr: nat, size: nat, flags: nat)
    returns (end: End, ghost job: Job)
    requires space.Valid() && phys % 4096 == 0 && vaddr % 4096 == 0 && size % 4096 == 0 && size <= VMMAP_LEN
    modifies space`mem, space`supply, space`at
    ensures job == JobFor(phys, vaddr, size, flags) && job.Ok() && job.count <= UnitsIn(job.level)
    ensures job.Vaddr() == vaddr && job.Bytes() == size && job.phys == phys
    ensures space.Valid() && Ends(end, space, old(space.mem), job)
  {
    job := JobFor(phys, vaddr, size, flags);
    JobForIs(phys, vaddr, size, flags);
    AlignedTests(phys);
    AlignedTests(vaddr);
    AlignedTests(size);
    var pteFlags := VmaToPteFlags(flags);
    if IsAligned(phys, GIB) && IsAligned(vaddr, GIB) && IsAligned(size, GIB) {
      end := MapHuge(space, Job(3, vaddr / GIB, size / GIB, phys, pteFlags));
    } else if IsAligned(phys, MIB2) && IsAligned(vaddr, MIB2) && IsAligned(size, MIB2) {
      end := MapLarge(space, Job(2, vaddr / MIB2, size / MIB2, phys, pteFlags));
    } else {
      end := MapNorm(space, Job(1, vaddr / 4096, size / 4096, phys, pteFlags));
    }
  }

  /** The size ioremap asks for. */
  function RangeSize(phy: nat, len: nat): nat { PageAlignUp((len + phy % 4096) % U64) }

  lemma RangeSizeIs(phy: nat, len: nat)
    ensures RangeSize(phy, len) % 4096 == 0 && RangeSize(phy, len) < U64
    ensures PageAlignUp(RangeSize(phy, len)) == RangeSize(phy, len)
    ensures len + phy % 4096 + 4096 <= U64 ==>
              len + phy % 4096 <= RangeSize(phy, len) < len + phy % 4096 + 4096
    ensures len < U64 < len + phy % 4096 + 4096 ==> RangeSize(phy, len) == 0 || RangeSize(phy, len) == 4096
  {
    var x := (len + phy % 4096) % U64;
    AlignDown((x + 4095) % U64);
    WholePageUp(RangeSize(phy, len));
    if len + phy % 4096 + 4096 <= U64 {
      assert x == len + phy % 4096;
      AlignUp(x);
    }
  }

  lemma WholePageUp(size: nat)
    requires size % 4096 == 0 && size < U64
    ensures PageAlignUp(size) == size
  {
    PageFits(size);
    AlignUp(size);
    SamePage(size, PageAlignUp(size));
  }

  lemma PageFits(size: nat)
    requires size % 4096 == 0 && size < U64
    ensures size + 4096 <= U64
  {
    assert U64 == 4096 * 0x10_0000_0000_0000;
  }

  lemma SamePage(a: nat, b: nat)
    requires a % 4096 == 0 && b % 4096 == 0 && a <= b < a + 4096
    ensures a == b
  {
  }

  lemma RoundedIs(phy: nat, len: nat)
    ensures And(phy, PAGESIZE - 1) == phy % 4096
    ensures PageAlignDown(phy) == phy - phy % 4096 && PageAlignDown(phy) % 4096 == 0
    ensures var size := RangeSize(phy, len); size % 4096 == 0 && size < U64 && PageAlignUp(size) == size
    ensures PageAlignUp((len + And(phy, PAGESIZE - 1)) % U64) == RangeSize(phy, len)
  {
    Pow12();
    AndMask(phy, 12);
    AlignDown(phy);
    DownIsMultiple(phy);
    RangeSizeIs(phy, len);
  }

  lemma DownIsMultiple(x: nat)
    ensures (x - x % 4096) % 4096 == 0
  {
    DivModUnique(x - x % 4096, 4096, x / 4096, 0);
  }

  /** A new range starts on a page and fits into the region. */
  lemma PlacedOnPages(s: seq<Area>, lo: nat, hi: nat, need: nat, a: Area, s': seq<Area>)
    requires Ordered(s) && Within(s, lo, hi) && Paged(s, lo) && need % 4096 == 0
    requires Placed(s, lo, hi, need, a, s') && a.end == Plus(a.start, need)
    ensures lo <= a.start && a.start + need <= hi && OnPages(a)
  {
    var k :| 0 <= k <= |s| && Preferred(s, lo, hi, need, k) && a.start == GapStart(s, lo, k);
    GapIsVacant(s, lo, hi, need, k);
    if k > 0 { assert s[k - 1] in s; }
    WordOnPage(a.start, need);
  }

  lemma WordOnPage(x: nat, y: nat)
    requires x % 4096 == 0 && y % 4096 == 0
    ensures Plus(x, y) % 4096 == 0
  {
    ModDiv(x + y, 4096, 0x10_0000_0000_0000);
    var a, b := x / 4096, y / 4096;
    assert x + y == 4096 * (a + b);
    var q := (x + y) / U64;
    assert (x + y) % U64 == 4096 * (a + b - 0x10_0000_0000_0000 * q);
  }

  lemma PagedInsert(s: seq<Area>, lo: nat, a: Area, s': seq<Area>)
    requires Paged(s, lo) && OnPages(a) && InsertedInto(s, a, s')
    ensures Paged(s', lo)
  {
    var j :| 0 <= j <= |s| && InsertedAt(s, a, s', j);
    forall b | b in s' ensures OnPages(b) {
      assert b in s[..j] || b == a || b in s[j..];
    }
  }

  /** A new range of whole pages inside the region, where vma_alloc_area prefers it. */
  ghost predicate TakenAs(s: seq<Area>, lo: nat, hi: nat, size: nat, a: Area, s': seq<Area>)
  {
    && lo <= a.start && a.start + size <= hi && a.end == Plus(a.start, size) && OnPages(a)
    && Placed(s, lo, hi, size, a, s') && Paged(s', lo)
  }

  lemma TakenIs(s: seq<Area>, lo: nat, hi: nat, need: nat, size: nat, a: Area, s': seq<Area>)
    requires Ordered(s) && Within(s, lo, hi) && Paged(s, lo) && need == size && size % 4096 == 0
    requires Placed(s, lo, hi, need, a, s') && a.end == Plus(a.start, need)
    ensures TakenAs(s, lo, hi, size, a, s')
  {
    PlacedOnPages(s, lo, hi, size, a, s');
    PagedInsert(s, lo, a, s');
  }

  /** The call of vma_alloc_area, for a size in whole pages. */
  method TakeRange(region: Region, size: nat, flags: nat, record: Node?) returns (vma: Node?, ghost a: Area)
    requires region.Valid() && region.Inside() && Paged(Areas(region.Records()), region.rStart)
    requires record != null ==> record !in region.shape.Nodes()
    requires size < U64 && size % 4096 == 0 && PageAlignUp(size) == size
    modifies region`shape, region.tree, Only(record)
    modifies (region.shape.Nodes())`left, (region.shape.Nodes())`right
    modifies (region.shape.Nodes())`parent, (region.shape.Nodes())`red
    ensures vma == null <==>
              (record == null || !HasRoom(old(Areas(region.Records())), region.rStart, region.limit, size))
    ensures vma == null ==> Areas(region.Records()) == old(Areas(region.Records()))
    ensures vma != null ==>
              && vma == record && AreaOf(vma) == a && vma.vmFlags == flags
              && TakenAs(old(Areas(region.Records())), region.rStart, region.limit, size, a, Areas(region.Records()))
    ensures vma != null && a.start + size < U64 ==> region.Valid() && region.Inside()
  {
    ghost var areas := Areas(region.Records());
    vma := region.AllocArea(size, flags, record);
    a := Area(0, 0);
    if vma != null {
      a := AreaOf(vma);
      TakenIs(areas, region.rStart, region.limit, PageAlignUp(size), size, a, Areas(region.Records()));
    }
  }

  /** The job of a call: what was mapped where. */
  ghost predicate JobIs(job: Job, phy: nat, len: nat, flags: nat, start: nat)
  {
    && job == JobFor(PageAlignDown(phy), start, RangeSize(phy, len), flags)
    && job.Ok() && job.count <= UnitsIn(job.level) && job.phys == PageAlignDown(phy)
    && job.Vaddr() == start && job.Bytes() == RangeSize(phy, len)
  }

  /** The tables are written; the region of virtual ranges is not. */
  method MapBeside(region: Region, space: AddressSpace, phys: nat, vaddr: nat, size: nat, flags: nat)
    returns (end: End, ghost job: Job)
    requires space.Valid() && phys % 4096 == 0 && vaddr % 4096 == 0 && size % 4096 == 0 && size <= VMMAP_LEN
    modifies space`mem, space`supply, space`at
    ensures job == JobFor(phys, vaddr, size, flags) && job.Ok() && job.count <= UnitsIn(job.level)
    ensures job.Vaddr() == vaddr && job.Bytes() == size && job.phys == phys
    ensures space.Valid() && Ends(end, space, old(space.mem), job)
    ensures Areas(region.Records()) == old(Areas(region.Records()))
    ensures old(region.Valid() && region.Inside()) ==> region.Valid() && region.Inside()
  {
    ghost var nodes := region.shape.Nodes();
    end, job := MapRange(space, phys, vaddr, size, flags);
    region.Untouched(nodes);
  }

  /** ioremap once its arguments are rounded to pages. */
  method RemapPages(region: Region, space: AddressSpace, phys: nat, offs: nat, size: nat, flags: nat, record: Node?)
    returns (v: nat, end: End, ghost job: Job, ghost a: Area)
    requires region.Valid() && region.Inside() && Paged(Areas(region.Records()), region.rStart)
    requires 0 < region.rStart && region.limit <= region.rStart + VMMAP_LEN && space.Valid()
    requires record != null ==> record !in region.shape.Nodes()
    requires phys % 4096 == 0 && size % 4096 == 0 && size < U64 && PageAlignUp(size) == size
    modifies region`shape, region.tree, Only(record), space`mem, space`supply, space`at
    modifies (region.shape.Nodes())`left, (region.shape.Nodes())`right
    modifies (region.shape.Nodes())`parent, (region.shape.Nodes())`red
    ensures v == 0 <==> (record == null || !HasRoom(old(Areas(region.Records())), region.rStart, region.limit, size))
    ensures v == 0 ==> space.mem == old(space.mem) && Areas(region.Records()) == old(Areas(region.Records()))
    ensures v != 0 ==>
              && v == a.start + offs && job == JobFor(phys, a.start, size, flags)
              && job.Ok() && job.count <= UnitsIn(job.level)
              && job.Vaddr() == a.start && job.Bytes() == size && job.phys == phys
              && AreaOf(record) == a && record.vmFlags == flags
              && TakenAs(old(Areas(region.Records())), region.rStart, region.limit, size, a, Areas(region.Records()))
              && space.Valid() && Ends(end, space, old(space.mem), job)
    ensures v != 0 && a.start + size < U64 ==> region.Valid() && region.Inside()
  {
    var vma;
    vma, a := TakeRange(region, size, flags, record);
    if vma == null { return 0, Done, Job(1, 0, 0, 0, 1), a; }
    v := vma.vmStart + offs;
    RangeIsSmall(size, a.start, region.rStart, region.limit);
    end, job := MapBeside(region, space, phys, vma.vmStart, size, flags);
  }

  /** ioremap; record is what the record allocation returns. The job tells what was mapped where, and a is
      the new range. */
  method Remap(region: Region, space: AddressSpace, phy: nat, len: nat, flags: nat, record: Node?)
    returns (v: nat, end: End, ghost job: Job, ghost a: Area)
    requires region.Valid() && region.Inside() && Paged(Areas(region.Records()), region.rStart)
    requires 0 < region.rStart && region.limit <= region.rStart + VMMAP_LEN && space.Valid()
    requires record != null ==> record !in region.shape.Nodes()
    modifies region`shape, region.tree, Only(record), space`mem, space`supply, space`at
    modifies (region.shape.Nodes())`left, (region.shape.Nodes())`right
    modifies (region.shape.Nodes())`parent, (region.shape.Nodes())`red
    ensures v == 0 <==>
              (record == null
               || !HasRoom(old(Areas(region.Records())), region.rStart, region.limit, RangeSize(phy, len)))
    ensures v == 0 ==> space.mem == old(space.mem) && Areas(region.Records()) == old(Areas(region.Records()))
    ensures v != 0 ==>
              && v == a.start + phy % 4096 && JobIs(job, phy, len, flags, a.start)
              && AreaOf(record) == a && record.vmFlags == flags
              && TakenAs(old(Areas(region.Records())), region.rStart, region.limit, RangeSize(phy, len), a,
                         Areas(region.Records()))
              && space.Valid() && Ends(end, space, old(space.mem), job)
    ensures v != 0 && a.start + RangeSize(phy, len) < U64 ==> region.Valid() && region.Inside()
  {
    RoundedIs(phy, len);
    var offs := And(phy, PAGESIZE - 1);
    var alignedSize := PageAlignUp((len + offs) % U64);
    v, end, job, a := RemapPages(region, space, PageAlignDown(phy), offs, alignedSize, flags, record);
  }

  lemma RangeIsSmall(size: nat, start: nat, lo: nat, hi: nat)
    requires 0 < lo <= start && start + size <= hi <= lo + VMMAP_LEN
    ensures size <= VMMAP_LEN && start > 0
  {
  }

  /** A straight range that was not mapped does not run into a huge page. */
  lemma StraightIsClear(mem0: Memory, root: nat, job: Job)
    requires job.Ok() && Straight(job) && Fresh(mem0, root, job)
    ensures !Blocked(mem0, root, job, Slots(job))
  {
    var slots := Slots(job);
    forall n, vpn | 0 <= n < |slots| && 0 <= vpn < PAGES ensures !BlockedAt(mem0, root, job, slots[n], vpn) {
      SlotAt(job, n);
      if Block(vpn, job.level - 1) == slots[n] { var w := PageHasByte(job, n, vpn); }
    }
  }

  /** Map, then walk: the bytes asked for are found behind the address v that was returned. */
  lemma RemapTranslates(mem0: Memory, mem: Memory, root: nat, job: Job, phy: nat, len: nat, v: nat)
    requires job.Ok() && InMemory(job) && job.count <= UnitsIn(job.level) && Completed(mem0, mem, root, job)
    requires Straight(job) && job.phys == PageAlignDown(phy) && job.Bytes() == RangeSize(phy, len)
    requires v == job.Vaddr() + phy % 4096 && len + phy % 4096 + 4096 <= U64
    ensures Translated(mem, root, v, phy, len)
  {
    AlignDown(phy);
    RangeSizeIs(phy, len);
    forall w: nat, q: nat | Lands(v, phy, len, w, q) ensures TranslatedAt(mem, root, w, q) {
      StraightTranslates(mem0, mem, root, job, w, q);
    }
  }

  /** And their pages have the flags of the call. */
  lemma RemapStamps(mem0: Memory, mem: Memory, root: nat, job: Job, phy: nat, len: nat, flags: nat, start: nat, v: nat)
    requires JobIs(job, phy, len, flags, start) && InMemory(job) && Completed(mem0, mem, root, job)
    requires Straight(job) && LeavesDecide(mem, root)
    requires v == start + phy % 4096 && len + phy % 4096 + 4096 <= U64
    ensures Stamped(mem, root, v, len, flags)
  {
    RangeSizeIs(phy, len);
    JobFlags(PageAlignDown(phy), start, RangeSize(phy, len), flags, job);
    StraightStamps(mem0, mem, root, job, flags);
  }

  lemma JobFlags(phys: nat, vaddr: nat, size: nat, flags: nat, job: Job)
    requires job == JobFor(phys, vaddr, size, flags)
    ensures job.flags == VmaToPteFlags(flags)
  {
  }

  /** 512 GiB in the units of each level, and down to groups of those. */
  lemma SpanGroups(q: nat)
    ensures L4_SPAN * q / GIB == 512 * q && L4_SPAN * q / MIB2 == 0x4_0000 * q && L4_SPAN * q / 4096 == 0x800_0000 * q
    ensures 512 * q % 512 == 0 && 0x4_0000 * q % 512 == 0 && 0x800_0000 * q % 512 == 0
    ensures 0x4_0000 * q % 0x4_0000 == 0 && 0x800_0000 * q % 0x4_0000 == 0 && 0x800_0000 * q % 0x800_0000 == 0
  {
    DivModUnique(L4_SPAN * q, GIB, 512 * q, 0);
    DivModUnique(L4_SPAN * q, MIB2, 0x4_0000 * q, 0);
    DivModUnique(L4_SPAN * q, 4096, 0x800_0000 * q, 0);
    DivModUnique(512 * q, 512, q, 0);
    DivModUnique(0x4_0000 * q, 512, 512 * q, 0);
    DivModUnique(0x800_0000 * q, 512, 0x4_0000 * q, 0);
    DivModUnique(0x4_0000 * q, 0x4_0000, q, 0);
    DivModUnique(0x800_0000 * q, 0x4_0000, 512 * q, 0);
    DivModUnique(0x800_0000 * q, 0x800_0000, q, 0);
  }

  /** A range that begins on a multiple of 512 GiB is straight, but for one too long for pt_map_large. */
  lemma AlignedIsStraight(phys: nat, q: nat, size: nat, flags: nat)
    requires phys % 4096 == 0 && size % 4096 == 0
    ensures var job := JobFor(phys, L4_SPAN * q, size, flags);
            job.Ok() && (Straight(job) <==> job.level != 2 || size <= L4_SPAN)
  {
    PteFlagsOk(flags);
    SpanGroups(q);
    var job := JobFor(phys, L4_SPAN * q, size, flags);
    if job.level == 2 { assert size == MIB2 * job.count; }
  }

  /** The first mapping of one page puts the next range one page above the start of the region. If that
      one is 2 MiB long, it is not straight. */
  lemma SecondRangeIsCrooked(phys: nat, flags: nat)
    requires phys % 4096 == 0
    ensures var job := JobFor(phys, 0xFFFF_C000_0000_1000, MIB2, flags); job.Ok() && !Straight(job)
  {
    PteFlagsOk(flags);
  }
}
