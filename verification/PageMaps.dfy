/** The mappers of kernel/mm/vmalloc.c: pt_map_norm, pt_map_large, pt_map_huge. */
module PageMaps {
  import opened Powers
  import opened Bits
  import opened PageTables
  import opened PageWalk
  import opened PageSpace
  import opened PageJobs

  /** How a mapper ends: it is done, or it stores through the error pointer of a failed table allocation,
      or into a huge page that return_pt_or_alloc took for a table. */
  datatype End = Done | OutOfPages | HitHugePage

  /** PT_L4_ENTRYSZ */
  const L4_SPAN: nat := 0x80_0000_0000

  /** get_pagetbl_count_l1, l2 and l3, for a size of 2 MiB, 1 GiB and 512 GiB */
  function TableCount(bytes: nat, size: nat): nat
    requires size > 0
  {
    var rounded := AndNot((bytes + (size - 1)) % U64, size - 1);
    DivNonNegative(rounded, size);
    rounded / size
  }

  function CeilDiv(n: nat, d: nat): nat
    requires d > 0
  {
    (n + (d - 1)) / d
  }

  lemma RoundedQuotient(n: nat, d: nat)
    requires d > 0
    ensures (n - n % d) / d == n / d
  {
    DivModUnique(n - n % d, d, n / d, 0);
  }

  lemma TableCountIs(bytes: nat, d: nat, s: nat)
    requires d == Pow2(s) && bytes + d <= U64
    ensures TableCount(bytes, d) == CeilDiv(bytes, d)
  {
    var n := bytes + (d - 1);
    assert n % U64 == n;
    assert AndNot(n, d - 1) == n - n % d by { AndNotMask(n, s); }
    RoundedQuotient(n, d);
  }

  /** Close to the end of the address space the sum wraps and the count is 0. */
  lemma TableCountWraps(bytes: nat, d: nat, s: nat)
    requires d == Pow2(s) && d <= U64 && bytes < U64 < bytes + d
    ensures TableCount(bytes, d) == 0
  {
    var n := bytes + (d - 1) - U64;
    assert (bytes + (d - 1)) % U64 == n by { WrappedSum(bytes, d); }
    assert AndNot(n, d - 1) == 0 by {
      AndNotMask(n, s);
      DivModUnique(n, d, 0, n);
    }
    DivModUnique(0, d, 0, 0);
  }

  lemma WrappedSum(a: nat, d: nat)
    requires a < U64 < a + d && d <= U64
    ensures (a + (d - 1)) % U64 == a + (d - 1) - U64
  {
    DivModUnique(a + (d - 1), U64, 1, a + (d - 1) - U64);
  }

  /** page_l1_idx to page_l4_idx, by level */
  function IdxAt(level: nat, virt: nat): nat
  {
    if level == 4 then L4Idx(virt) else if level == 3 then L3Idx(virt) else if level == 2 then L2Idx(virt)
    else L1Idx(virt)
  }

  /** The running addresses before the n-th write. */
  predicate Running(job: Job, n: nat, vbase: nat, pbase: nat)
  {
    vbase == Scaled(job.level, job.start + n) && pbase == job.phys + Scaled(job.level, n)
  }

  /** The indices that are read from the running address. */
  lemma RunningIndices(level: nat, u: nat)
    requires 1 <= level <= 3
    ensures var vbase := Scaled(level, u);
            && IdxAt(level, vbase) == u % 512 && IdxAt(level + 1, vbase) == u / 512 % 512
            && (level <= 2 ==> IdxAt(level + 2, vbase) == u / 512 / 512 % 512)
            && (level == 1 ==> IdxAt(4, vbase) == u / 512 / 512 / 512 % 512)
  {
    var vbase := Scaled(level, u);
    var v := vbase / 4096;
    IndexBits(vbase);
    BlockUnrolled(PageNumber(vbase));
    PageDigits(v);
    ScaledPages(level, u);
  }

  lemma ScaledPages(level: nat, u: nat)
    ensures var v := Scaled(level, u) / 4096;
            if level == 3 then v / 512 / 512 == u else if level == 2 then v / 512 == u else v == u
  {
    if level == 3 {
      assert GIB * u / 4096 == 0x4_0000 * u;
      assert 0x4_0000 * u / 512 == 512 * u;
    } else if level == 2 {
      assert MIB2 * u / 4096 == 512 * u;
    }
  }

  lemma EntryMaps(job: Job, n: nat)
    requires job.Ok()
    ensures Maps(job.Entry(n), job.level)
  {
    var p := job.phys + Scaled(job.level, n);
    var e1 := Or(p, job.flags);
    PresentBit(job.flags);
    TestBitOr(p, job.flags, 0);
    PresentBit(job.Entry(n));
    HugeBit(job.Entry(n));
    TestBitOr(e1, PAGESIZE_BIT, 0);
    TestBitOr(e1, PAGESIZE_BIT, 7);
    assert Pow2(7) == PAGESIZE_BIT by { assert Pow2(4) == 16; }
    TestBitPow2(7, 7);
  }

  /** What a mapper works through: where its writes go, in order, and the tables it began with. */
  datatype Trail = Trail(job: Job, slots: seq<nat>, mem0: Memory)
  {
    predicate Ok() { job.Ok() && |slots| == job.count }

    /** The n-th write goes to the entry the running address names, in the table with prefix p. */
    predicate InTable(n: nat, p: nat) { n < |slots| && slots[n] == 512 * p + (job.start + n) % 512 }

    /** The n-th write goes below the entry the running address named when its group of 512 began, in the
        table of the next level with prefix q. */
    predicate InDirectory(n: nat, q: nat)
    {
      n < |slots| && slots[n] == 512 * (512 * q + Digit(job.start, n, 512)) + (job.start + n) % 512
    }
  }

  /** The first n writes are in place, and nothing else happened. */
  ghost predicate Tracks(mem: Memory, root: nat, t: Trail, n: nat)
    requires t.Ok() && n <= |t.slots|
  {
    forall vpn :: 0 <= vpn < PAGES ==> MappingOf(mem, root, vpn) == After(t.mem0, root, t.job, t.slots, n, vpn)
  }

  lemma TracksSame(mem: Memory, mem': Memory, root: nat, t: Trail, n: nat)
    requires t.Ok() && n <= |t.slots| && Tracks(mem, root, t, n) && SameMappings(mem, mem', root)
    ensures Tracks(mem', root, t, n)
  {
  }

  lemma TracksNext(mem: Memory, mem': Memory, root: nat, t: Trail, n: nat)
    requires t.Ok() && n < |t.slots| && Tracks(mem, root, t, n)
    requires Remapped(mem, mem', root, t.job.level, t.slots[n], t.job.Entry(n))
    ensures Tracks(mem', root, t, n + 1)
  {
  }

  /** The first n writes are in place, and the running addresses are those of the next. */
  ghost predicate Reached(space: AddressSpace, t: Trail, n: nat, vbase: nat, pbase: nat)
    reads space
  {
    space.Valid() && t.Ok() && n <= |t.slots| && Tracks(space.mem, space.root, t, n) && Running(t.job, n, vbase, pbase)
  }

  /** The entry of some unit lies behind a huge page. */
  ghost predicate Blocked(mem: Memory, root: nat, job: Job, slots: seq<nat>)
    requires job.Ok()
  {
    exists n, vpn :: 0 <= n < |slots| && 0 <= vpn < PAGES && BlockedAt(mem, root, job, slots[n], vpn)
  }

  ghost predicate BlockedAt(mem: Memory, root: nat, job: Job, slot: nat, vpn: nat)
    requires job.Ok()
  {
    && Block(vpn, job.level - 1) == slot
    && MappingOf(mem, root, vpn).Mapped? && MappingOf(mem, root, vpn).level > job.level
  }

  /** A table that a mapper asks for is missing: the one of some unit's entry, or one of those that lead to
      it; or the one that pt_map_large asks for behind the last of more than 0x4_0000 units. */
  ghost predicate Starved(mem: Memory, root: nat, job: Job, slots: seq<nat>)
    requires job.Ok()
  {
    || (exists n :: 0 <= n < |slots| && Tableless(mem, root, job.level, slots[n]))
    || (job.level == 2 && job.count > 0x4_0000
        && TableFor(mem, root, 3, (job.start + job.count) / 0x4_0000 % 512).None?)
  }

  /** The entry of this unit has no table to be in. */
  predicate Tableless(mem: Memory, root: nat, level: nat, unit: nat)
    requires 1 <= level <= 4
  {
    TableFor(mem, root, level, unit / 512).None?
  }

  /** Without the table of its entry a unit is without a table. */
  lemma MissingTable(mem: Memory, root: nat, t: Trail, n: nat, p: nat)
    requires t.Ok() && t.InTable(n, p) && TableFor(mem, root, t.job.level, p).None?
    ensures Starved(mem, root, t.job, t.slots)
  {
    assert t.slots[n] / 512 == p;
    assert Tableless(mem, root, t.job.level, t.slots[n]);
  }

  /** And without the one above. */
  lemma MissingDirectory(mem: Memory, root: nat, t: Trail, n: nat, q: nat)
    requires t.Ok() && t.job.level <= 2 && t.InDirectory(n, q) && TableFor(mem, root, t.job.level + 1, q).None?
    ensures Starved(mem, root, t.job, t.slots)
  {
    var p := 512 * q + Digit(t.job.start, n, 512);
    assert t.slots[n] / 512 == p && p / 512 == q;
    assert TableFor(mem, root, t.job.level, p).None?;
    assert Tableless(mem, root, t.job.level, t.slots[n]);
  }

  /** How a part of a mapper leaves the address space; it is complete when n writes are in place. */
  ghost predicate Left(end: End, space: AddressSpace, t: Trail, n: nat, vbase: nat, pbase: nat)
    reads space
  {
    && space.Valid() && t.Ok()
    && match end
       case Done => Reached(space, t, n, vbase, pbase)
       case OutOfPages => space.supply == [] && Starved(space.mem, space.root, t.job, t.slots)
       case HitHugePage => Blocked(t.mem0, space.root, t.job, t.slots)
  }

  lemma StoreIs(t: Trail, n: nat, p: nat, vbase: nat, pbase: nat)
    requires t.Ok() && Running(t.job, n, vbase, pbase) && t.InTable(n, p)
    ensures IdxAt(t.job.level, vbase) < ENTRIES && t.slots[n] == 512 * p + IdxAt(t.job.level, vbase)
    ensures EntryFor(t.job.level, pbase, t.job.flags) == t.job.Entry(n) && Maps(t.job.Entry(n), t.job.level)
  {
    assert IdxAt(t.job.level, vbase) == (t.job.start + n) % 512 by { RunningIndices(t.job.level, t.job.start + n); }
    EntryMaps(t.job, n);
  }

  lemma RunningNext(job: Job, n: nat, vbase: nat, pbase: nat)
    requires Running(job, n, vbase, pbase)
    ensures Running(job, n + 1, vbase + Scaled(job.level, 1), pbase + Scaled(job.level, 1))
  {
  }

  /** One turn of the innermost loop of the three mappers. */
  method PutOne(space: AddressSpace, job: Job, table: nat, vbase0: nat, pbase0: nat,
                ghost p: nat, ghost t: Trail, ghost n: nat)
    returns (vbase: nat, pbase: nat)
    requires Reached(space, t, n, vbase0, pbase0) && t.job == job && t.InTable(n, p)
    requires Prefix(job.level, p) && TableFor(space.mem, space.root, job.level, p) == Some(table)
    modifies space`mem
    ensures Reached(space, t, n + 1, vbase, pbase)
    ensures TablesKept(old(space.mem), space.mem, space.root, job.level)
  {
    var idx, entry := IdxAt(job.level, vbase0), EntryFor(job.level, pbase0, job.flags);
    StoreIs(t, n, p, vbase0, pbase0);
    ghost var mem := space.mem;
    space.SetEntry(table, idx, entry, job.level, p);
    TracksNext(mem, space.mem, space.root, t, n);
    RunningNext(job, n, vbase0, pbase0);
    vbase, pbase := vbase0 + Scaled(job.level, 1), pbase0 + Scaled(job.level, 1);
  }

  /** The innermost loop of the three mappers: entries of one table. */
  method PutRun(space: AddressSpace, job: Job, table: nat, count: nat, vbase0: nat, pbase0: nat,
                ghost p: nat, ghost t: Trail, ghost n0: nat)
    returns (vbase: nat, pbase: nat, ghost n: nat)
    requires Reached(space, t, n0, vbase0, pbase0) && t.job == job
    requires Prefix(job.level, p) && TableFor(space.mem, space.root, job.level, p) == Some(table)
    requires forall n :: n0 <= n < n0 + count ==> t.InTable(n, p)
    modifies space`mem
    ensures n == n0 + count && Reached(space, t, n, vbase, pbase)
    ensures TablesKept(old(space.mem), space.mem, space.root, job.level)
  {
    vbase, pbase := vbase0, pbase0;
    var l := 0;
    n := n0;
    while l < count
      invariant l <= count && n == n0 + l && Reached(space, t, n, vbase, pbase)
      invariant TableFor(space.mem, space.root, job.level, p) == Some(table)
      invariant TablesKept(old(space.mem), space.mem, space.root, job.level)
    {
      ghost var mem := space.mem;
      vbase, pbase := PutOne(space, job, table, vbase, pbase, p, t, n);
      StillThere(mem, space.mem, space.root, job.level, job.level, p);
      KeptTrans(old(space.mem), mem, space.mem, space.root, job.level, job.level);
      l, n := l + 1, n + 1;
    }
  }

  // ---- runs of tables -------------------------------------------------------------------------------

  /** Within a group of b units the index that was read at its start is still the one in use. */
  lemma GroupDigit(v: nat, n: nat, m: nat, b: nat)
    requires b > 0 && n % b == 0 && n <= m < n + b
    ensures Digit(v, m, b) == (v + n) / b % 512
  {
    DivModUnique(m, b, n / b, m - n);
  }

  lemma WholeGroups(n: nat, b: nat, c: nat)
    requires b > 0 && c > 0 && n % (c * b) == 0
    ensures n % b == 0
  {
    var q := n / (c * b);
    MulAssoc(q, c, b);
    DivModUnique(n, b, q * c, 0);
  }

  /** The number of units below one entry of a table that is d levels up. */
  function Group(d: nat): nat { if d == 1 then 512 else if d == 2 then 0x4_0000 else 0x800_0000 }

  lemma RunningIndex(low: nat, level: nat, u: nat)
    requires 1 <= low <= 3 && low < level <= 4
    ensures IdxAt(level, Scaled(low, u)) == u / Group(level - low) % 512
  {
    RunningIndices(low, u);
    assert u / 512 / 512 == u / 0x4_0000;
    assert u / 512 / 512 / 512 == u / 0x800_0000;
  }

  /** The index for a table of a level above the job's, read from the running address. */
  method ReadIndex(job: Job, level: nat, vbase: nat, ghost pbase: nat, ghost n: nat, ghost up: nat)
    returns (idx: nat)
    requires job.Ok() && 0 < up && job.level + up == level <= 4 && Running(job, n, vbase, pbase)
    ensures idx < ENTRIES && idx == (job.start + n) / Group(up) % 512
  {
    idx := IdxAt(level, vbase);
    RunningIndex(job.level, level, job.start + n);
  }

  /** The table behind the entry of the running address, in a table of a level above the job's. */
  method NextTable(space: AddressSpace, job: Job, level: nat, table: nat, vbase: nat,
                   ghost pbase: nat, ghost q: nat, ghost t: Trail, ghost n: nat, ghost up: nat)
    returns (r: TableResult, ghost p: nat)
    requires Reached(space, t, n, vbase, pbase) && t.job == job && 0 < up && job.level + up == level <= 4
    requires Prefix(level, q) && TableFor(space.mem, space.root, level, q) == Some(table)
    modifies space`mem, space`supply, space`at
    ensures Reached(space, t, n, vbase, pbase) && TablesKept(old(space.mem), space.mem, space.root, level)
    ensures p == 512 * q + (job.start + n) / Group(up) % 512 && Prefix(level - 1, p)
    ensures r.Table? ==> TableFor(space.mem, space.root, level - 1, p) == Some(r.addr)
    ensures r.NoTable? ==> space.supply == [] && TableFor(space.mem, space.root, level - 1, p).None?
    ensures r.HugePage? ==> level < 4 && HugeBlock(space.mem, space.root, level, p)
  {
    var idx := ReadIndex(job, level, vbase, pbase, n, up);
    PrefixDown(level, q, idx);
    ghost var mem := space.mem;
    r, p := FindTable(space, table, idx, level, q);
    TracksSame(mem, space.mem, space.root, t, n);
  }

  /** The call of return_pt_or_alloc. */
  method FindTable(space: AddressSpace, table: nat, idx: nat, level: nat, ghost q: nat)
    returns (r: TableResult, ghost p: nat)
    requires space.Valid() && 2 <= level <= 4 && idx < ENTRIES
    requires Prefix(level, q) && TableFor(space.mem, space.root, level, q) == Some(table)
    modifies space`mem, space`supply, space`at
    ensures space.Valid() && SameMappings(old(space.mem), space.mem, space.root)
    ensures TablesKept(old(space.mem), space.mem, space.root, level)
    ensures p == 512 * q + idx && (r.Table? ==> TableFor(space.mem, space.root, level - 1, p) == Some(r.addr))
    ensures r.NoTable? ==> space.supply == [] && TableFor(space.mem, space.root, level - 1, p).None?
    ensures r.HugePage? ==> level < 4 && HugeBlock(space.mem, space.root, level, p)
  {
    r, p := space.TableOrAlloc(table, idx, level, q);
  }

  /** One group of writes is in one table, the one behind the entry of the running address. */
  lemma GroupInTable(t: Trail, job: Job, n: nat, c: nat, q: nat, p: nat)
    requires t.job == job && p == 512 * q + (job.start + n) / Group(1) % 512
    requires (c == 0 || n % 512 == 0) && c <= 512
    requires forall m :: n <= m < n + c ==> t.InDirectory(m, q)
    ensures forall m :: n <= m < n + c ==> t.InTable(m, p)
  {
    forall m | n <= m < n + c ensures t.InTable(m, p) {
      assert t.InDirectory(m, q);
      GroupDigit(t.job.start, n, m, 512);
    }
  }

  /** A huge page where a table is looked for was there from the start. */
  lemma BlockedHere(mem: Memory, root: nat, t: Trail, n: nat, p: nat)
    requires t.Ok() && t.job.level <= 2 && Prefix(t.job.level, p) && t.InTable(n, p)
    requires Tracks(mem, root, t, n) && HugeBlock(mem, root, t.job.level + 1, p)
    ensures Blocked(t.mem0, root, t.job, t.slots)
  {
    PrefixDown(t.job.level, p, (t.job.start + n) % 512);
    var vpn := PageOfUnit(t.job.level, t.slots[n]);
    assert Block(vpn, t.job.level) == p;
    AfterIs(t.mem0, root, t.job, t.slots, n, vpn);
    assert BlockedAt(t.mem0, root, t.job, t.slots[n], vpn);
  }

  lemma KeptTrans(m0: Memory, m1: Memory, m2: Memory, root: nat, j: nat, k: nat)
    requires j <= k && TablesKept(m0, m1, root, k) && TablesKept(m1, m2, root, j)
    ensures TablesKept(m0, m2, root, k)
  {
    forall i, p | k <= i <= 4 && 1 <= i && 0 <= p && Prefix(i, p) ensures TableKept(m0, m2, root, i, p) {
      assert TableKept(m0, m1, root, i, p) && TableKept(m1, m2, root, i, p);
    }
  }

  /** What remains of rem units after n. */
  function Rest(rem: nat, n: nat): nat { if rem <= n then 0 else rem - n }

  /** At most 512 of the entries that remain are in one table. */
  function Entries(rem: nat): nat { if rem > 512 then 512 else rem }

  /** Counting down by groups of g, what remains is at the start of a group. */
  predicate Grouped(count: nat, rem: nat, g: nat)
    requires g > 0
  {
    rem <= count && (rem == 0 || (count - rem) % g == 0)
  }

  /** One group less, or all that is left. */
  lemma GroupLess(count: nat, rem0: nat, k: nat, rem: nat, g: nat)
    requires g > 0 && rem0 <= count && rem == Rest(rem0, g * k) && Grouped(count, rem, g)
    ensures Rest(rem, g) == Rest(rem0, g * (k + 1)) && Grouped(count, Rest(rem, g), g)
  {
    MulDistr(k, 1, g);
    if rem > g {
      var q := (count - rem) / g;
      MulDistr(q, 1, g);
      DivModUnique(count - rem + g, g, q + 1, 0);
    }
  }

  /** The remainder before the k-th turn of a loop over tables. */
  predicate LoopAt(count: nat, rem0: nat, k: nat, rem: nat)
  {
    rem0 <= count && rem == Rest(rem0, 512 * k) && Grouped(count, rem, 512)
  }

  lemma LoopStep(count: nat, rem0: nat, k: nat, rem: nat)
    requires LoopAt(count, rem0, k, rem)
    ensures LoopAt(count, rem0, k + 1, rem - Entries(rem))
    ensures Entries(rem) <= 512 && (Entries(rem) == 0 || (count - rem) % 512 == 0)
  {
    GroupLess(count, rem0, k, rem, 512);
  }

  lemma DirectoryHere(t: Trail, q: nat, total: nat, rem0: nat, k: nat, rem: nat, n0: nat, n: nat, count: nat)
    requires LoopAt(total, rem0, k, rem) && k < count && n0 == total - rem0 && n == total - rem
    requires forall m :: n0 <= m < total && m < n0 + 512 * count ==> t.InDirectory(m, q)
    ensures forall m :: n <= m < n + Entries(rem) ==> t.InDirectory(m, q)
  {
    assert 512 * k + 512 <= 512 * count;
  }

  /** A loop over the entries of a table of the level above: find or make the next table, fill it. */
  method PutTables(space: AddressSpace, job: Job, table: nat, count: nat, rem0: nat, vbase0: nat, pbase0: nat,
                   ghost q: nat, ghost t: Trail, ghost n0: nat)
    returns (end: End, rem: nat, vbase: nat, pbase: nat, ghost n: nat)
    requires n0 == job.count - rem0 && Reached(space, t, n0, vbase0, pbase0)
    requires t.job == job && job.level <= 2 && Grouped(job.count, rem0, 512)
    requires Prefix(job.level + 1, q) && TableFor(space.mem, space.root, job.level + 1, q) == Some(table)
    requires forall m :: n0 <= m < job.count && m < n0 + 512 * count ==> t.InDirectory(m, q)
    modifies space`mem, space`supply, space`at
    ensures rem <= rem0 && (end.Done? ==> n == job.count - rem && rem == Rest(rem0, 512 * count))
    ensures Left(end, space, t, n, vbase, pbase)
    ensures TablesKept(old(space.mem), space.mem, space.root, job.level + 1)
  {
    vbase, pbase, rem, end, n := vbase0, pbase0, rem0, Done, n0;
    var k := 0;
    while k < count
      invariant k <= count && end.Done? && LoopAt(job.count, rem0, k, rem)
      invariant n == job.count - rem && Reached(space, t, n, vbase, pbase)
      invariant TableFor(space.mem, space.root, job.level + 1, q) == Some(table)
      invariant TablesKept(old(space.mem), space.mem, space.root, job.level + 1)
    {
      DirectoryHere(t, q, job.count, rem0, k, rem, n0, n, count);
      end, rem, vbase, pbase, n := PutNext(space, job, table, rem, vbase, pbase, q, t, n, rem0, k, old(space.mem));
      if !end.Done? { return; }
      k := k + 1;
    }
  }

  /** One turn in a row of them, since mem0, with the remainder going down. */
  method PutNext(space: AddressSpace, job: Job, table: nat, rem: nat, vbase0: nat, pbase0: nat,
                 ghost q: nat, ghost t: Trail, ghost n0: nat, ghost rem0: nat, ghost k: nat, ghost mem0: Memory)
    returns (end: End, left: nat, vbase: nat, pbase: nat, ghost n: nat)
    requires Reached(space, t, n0, vbase0, pbase0) && t.job == job && job.level <= 2
    requires LoopAt(job.count, rem0, k, rem) && n0 == job.count - rem
    requires Prefix(job.level + 1, q) && TableFor(space.mem, space.root, job.level + 1, q) == Some(table)
    requires forall m :: n0 <= m < n0 + Entries(rem) ==> t.InDirectory(m, q)
    requires TablesKept(mem0, space.mem, space.root, job.level + 1)
    modifies space`mem, space`supply, space`at
    ensures Left(end, space, t, n, vbase, pbase) && left <= rem
    ensures end.Done? ==> LoopAt(job.count, rem0, k + 1, left) && n == job.count - left
    ensures TableFor(space.mem, space.root, job.level + 1, q) == Some(table)
    ensures TablesKept(mem0, space.mem, space.root, job.level + 1)
  {
    var entries := Entries(rem);
    LoopStep(job.count, rem0, k, rem);
    left := rem - entries;
    end, vbase, pbase, n := PutGroup(space, job, table, entries, vbase0, pbase0, q, t, n0, mem0);
  }

  /** The table of the turn stays, as do those above. */
  method PutGroup(space: AddressSpace, job: Job, table: nat, count: nat, vbase0: nat, pbase0: nat,
                  ghost q: nat, ghost t: Trail, ghost n0: nat, ghost mem0: Memory)
    returns (end: End, vbase: nat, pbase: nat, ghost n: nat)
    requires Reached(space, t, n0, vbase0, pbase0) && t.job == job && job.level <= 2
    requires count <= 512 && (count == 0 || n0 % 512 == 0)
    requires Prefix(job.level + 1, q) && TableFor(space.mem, space.root, job.level + 1, q) == Some(table)
    requires forall m :: n0 <= m < n0 + count ==> t.InDirectory(m, q)
    requires TablesKept(mem0, space.mem, space.root, job.level + 1)
    modifies space`mem, space`supply, space`at
    ensures Left(end, space, t, n, vbase, pbase) && (end.Done? ==> n == n0 + count)
    ensures TableFor(space.mem, space.root, job.level + 1, q) == Some(table)
    ensures TablesKept(mem0, space.mem, space.root, job.level + 1)
  {
    ghost var mem := space.mem;
    end, vbase, pbase, n := PutTable(space, job, table, count, vbase0, pbase0, q, t, n0);
    StillThere(mem, space.mem, space.root, job.level + 1, job.level + 1, q);
    KeptTrans(mem0, mem, space.mem, space.root, job.level + 1, job.level + 1);
  }

  /** One turn: the table behind the entry of the running address, and its entries. */
  method PutTable(space: AddressSpace, job: Job, table: nat, count: nat, vbase0: nat, pbase0: nat,
                  ghost q: nat, ghost t: Trail, ghost n0: nat)
    returns (end: End, vbase: nat, pbase: nat, ghost n: nat)
    requires Reached(space, t, n0, vbase0, pbase0) && t.job == job && job.level <= 2
    requires count <= 512 && (count == 0 || n0 % 512 == 0)
    requires Prefix(job.level + 1, q) && TableFor(space.mem, space.root, job.level + 1, q) == Some(table)
    requires forall m :: n0 <= m < n0 + count ==> t.InDirectory(m, q)
    modifies space`mem, space`supply, space`at
    ensures Left(end, space, t, n, vbase, pbase) && (end.Done? ==> n == n0 + count)
    ensures TablesKept(old(space.mem), space.mem, space.root, job.level + 1)
  {
    vbase, pbase, end, n := vbase0, pbase0, Done, n0;
    var r, p := NextTable(space, job, job.level + 1, table, vbase, pbase, q, t, n, 1);
    if count == 0 { return; }
    GroupInTable(t, job, n, count, q, p);
    ghost var mem := space.mem;
    end, vbase, pbase, n := PutInto(space, job, r, count, vbase, pbase, p, t, n);
    KeptTrans(old(space.mem), mem, space.mem, space.root, job.level, job.level + 1);
  }

  /** The entries of the table that was found, if one was. */
  method PutInto(space: AddressSpace, job: Job, r: TableResult, count: nat, vbase0: nat, pbase0: nat,
                 ghost p: nat, ghost t: Trail, ghost n0: nat)
    returns (end: End, vbase: nat, pbase: nat, ghost n: nat)
    requires Reached(space, t, n0, vbase0, pbase0) && t.job == job && job.level <= 2 && count > 0
    requires Prefix(job.level, p) && forall m :: n0 <= m < n0 + count ==> t.InTable(m, p)
    requires r.Table? ==> TableFor(space.mem, space.root, job.level, p) == Some(r.addr)
    requires r.NoTable? ==> space.supply == [] && TableFor(space.mem, space.root, job.level, p).None?
    requires r.HugePage? ==> HugeBlock(space.mem, space.root, job.level + 1, p)
    modifies space`mem
    ensures Left(end, space, t, n, vbase, pbase) && (end.Done? ==> n == n0 + count)
    ensures TablesKept(old(space.mem), space.mem, space.root, job.level)
  {
    vbase, pbase, end, n := vbase0, pbase0, Done, n0;
    match r
    case NoTable =>
      MissingTable(space.mem, space.root, t, n, p);
      end := OutOfPages;
    case HugePage(_) =>
      BlockedHere(space.mem, space.root, t, n, p);
      end := HitHugePage;
    case Table(x) => vbase, pbase, n := PutRun(space, job, x, count, vbase, pbase, p, t, n);
  }
}
