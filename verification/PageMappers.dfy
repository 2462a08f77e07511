/**
 pt_map_norm, pt_map_large and pt_map_huge of kernel/mm/vmalloc.c: the nested loops, and what they leave
 in the tables for every job, straight or not.
 */
module PageMappers {
  import opened Bits
  import opened PageTables
  import opened PageWalk
  import opened PageSpace
  import opened PageJobs
  import opened PageMaps

  /** The counts of page_ctx_t do not wrap. */
  predicate Countable(job: Job) { job.Bytes() + L4_SPAN <= U64 }

  /** What a mapper promises when it has its counts right. */
  ghost predicate Ends(end: End, space: AddressSpace, mem0: Memory, job: Job)
    requires job.Ok()
    reads space
  {
    match end
    case Done => forall vpn :: 0 <= vpn < PAGES ==>
                   MappingOf(space.mem, space.root, vpn) == Outcome(mem0, space.root, job, vpn)
    case OutOfPages => space.supply == [] && Starved(space.mem, space.root, job, Slots(job))
    case HitHugePage => Blocked(mem0, space.root, job, Slots(job))
  }

  /** What a mapper promises: when the count of level-4 entries wraps it is 0, and nothing is mapped. */
  ghost predicate Finished(end: End, space: AddressSpace, mem0: Memory, job: Job)
    requires job.Ok()
    reads space
  {
    && space.Valid()
    && if Countable(job) then Ends(end, space, mem0, job) else end.Done? && space.mem == mem0
  }

  /** The counts of page_ctx_t: entries of the level-4, 3, 2 and 1 tables the range needs. */
  method Counts(job: Job) returns (l4: nat, l3: nat, l2: nat, l1: nat)
    requires job.Ok() && job.Bytes() < U64
    ensures Countable(job) ==> RightCounts(job, l4, l3, l2, l1)
    ensures !Countable(job) ==> l4 == 0
  {
    var b := job.Bytes();
    PowerTable();
    if Countable(job) {
      TableCountIs(b, MIB2, 21);
      TableCountIs(b, GIB, 30);
      TableCountIs(b, L4_SPAN, 39);
      CountsFromBytes(job);
    } else {
      TableCountWraps(b, L4_SPAN, 39);
    }
    l4, l3, l2, l1 := TableCount(b, L4_SPAN), TableCount(b, GIB), TableCount(b, MIB2), b / 4096;
  }

  predicate RightCounts(job: Job, l4: nat, l3: nat, l2: nat, l1: nat)
  {
    var n := job.count;
    if job.level == 3 then l3 == n && l4 == CeilDiv(n, 512)
    else if job.level == 2 then l2 == n && l3 == CeilDiv(n, 512) && l4 == CeilDiv(n, 0x4_0000)
    else l1 == n && l2 == CeilDiv(n, 512) && l3 == CeilDiv(n, 0x4_0000) && l4 == CeilDiv(n, 0x800_0000)
  }

  /** The number of units, and of groups of them, from the size in bytes. */
  lemma CountsFromBytes(job: Job)
    requires job.Ok()
    ensures var b := job.Bytes();
            RightCounts(job, CeilDiv(b, L4_SPAN), CeilDiv(b, GIB), CeilDiv(b, MIB2), b / 4096)
  {
  }

  lemma Begun(space: AddressSpace, t: Trail)
    requires space.Valid() && t.Ok() && t.mem0 == space.mem
    ensures Reached(space, t, 0, t.job.Vaddr(), t.job.phys)
  {
  }

  /** The loops have done their work, or had no turn at all. */
  lemma EndsDone(space: AddressSpace, t: Trail, n: nat, vbase: nat, pbase: nat, job: Job, mem0: Memory)
    requires Reached(space, t, n, vbase, pbase) && t.job == job && t.slots == Slots(job) && t.mem0 == mem0
    requires if Countable(job) then n == job.count else space.mem == mem0
    ensures Finished(Done, space, mem0, job)
  {
    if Countable(job) {
      forall vpn | 0 <= vpn < PAGES
        ensures MappingOf(space.mem, space.root, vpn) == Outcome(mem0, space.root, job, vpn)
      {
        assert MappingOf(space.mem, space.root, vpn) == After(mem0, space.root, job, t.slots, n, vpn);
      }
    }
  }

  // ---- 1 GiB pages ----------------------------------------------------------------------------------

  /** pt_map_huge */
  method MapHuge(space: AddressSpace, job: Job) returns (end: End)
    requires space.Valid() && job.Ok() && job.level == 3 && job.Bytes() < U64
    modifies space`mem, space`supply, space`at
    ensures Finished(end, space, old(space.mem), job)
  {
    ghost var t, n := Trail(job, Slots(job), space.mem), 0;
    var vbase, pbase := job.Vaddr(), job.phys;
    var l4Count, l3Rem, _, _ := Counts(job);
    Begun(space, t);
    end := Done;
    var i := 0;
    while i < l4Count
      invariant i <= l4Count && end.Done? && (i == 0 ==> space.mem == old(space.mem))
      invariant Countable(job) ==> LoopAt(job.count, job.count, i, l3Rem) && n == job.count - l3Rem
      invariant Reached(space, t, n, vbase, pbase)
    {
      end, l3Rem, vbase, pbase, n := HugeTurn(space, job, i, l3Rem, vbase, pbase, t, n);
      if !end.Done? { return; }
      i := i + 1;
    }
    if Countable(job) { NoneLeft(job, i, l4Count, l3Rem, n); }
    EndsDone(space, t, n, vbase, pbase, job, t.mem0);
  }

  lemma NoneLeft(job: Job, i: nat, l4Count: nat, rem: nat, n: nat)
    requires i == l4Count == CeilDiv(job.count, 512) && LoopAt(job.count, job.count, i, rem) && n == job.count - rem
    ensures n == job.count
  {
  }

  /** One turn of the outer loop. */
  method HugeTurn(space: AddressSpace, job: Job, ghost i: nat, rem0: nat, vbase0: nat, pbase0: nat,
                  ghost t: Trail, ghost n0: nat)
    returns (end: End, rem: nat, vbase: nat, pbase: nat, ghost n: nat)
    requires Reached(space, t, n0, vbase0, pbase0) && t.job == job && job.level == 3 && t.slots == Slots(job)
    requires LoopAt(job.count, job.count, i, rem0) && n0 == job.count - rem0
    modifies space`mem, space`supply, space`at
    ensures Left(end, space, t, n, vbase, pbase) && !end.HitHugePage?
    ensures end.Done? ==> LoopAt(job.count, job.count, i + 1, rem) && n == job.count - rem
  {
    var entries := Entries(rem0);
    LoopStep(job.count, job.count, i, rem0);
    end, vbase, pbase, n := HugeGroup(space, job, entries, vbase0, pbase0, t, n0);
    rem := rem0 - entries;
  }

  /** The table behind one entry of the top table, and its entries. */
  method HugeGroup(space: AddressSpace, job: Job, entries: nat, vbase0: nat, pbase0: nat, ghost t: Trail, ghost n0: nat)
    returns (end: End, vbase: nat, pbase: nat, ghost n: nat)
    requires Reached(space, t, n0, vbase0, pbase0) && t.job == job && job.level == 3 && t.slots == Slots(job)
    requires entries <= 512 && n0 + entries <= job.count && (entries == 0 || n0 % 512 == 0)
    modifies space`mem, space`supply, space`at
    ensures Left(end, space, t, n, vbase, pbase) && !end.HitHugePage? && (end.Done? ==> n == n0 + entries)
  {
    end, vbase, pbase, n := Done, vbase0, pbase0, n0;
    var r, p := NextTable(space, job, 4, space.root, vbase, pbase, 0, t, n, 1);
    if entries > 0 {
      HugeInTable(t, job, n, entries, p);
      if r.NoTable? {
        MissingTable(space.mem, space.root, t, n, p);
        return OutOfPages, vbase, pbase, n;
      }
      vbase, pbase, n := PutRun(space, job, r.addr, entries, vbase, pbase, p, t, n);
    }
  }

  lemma HugeInTable(t: Trail, job: Job, n: nat, c: nat, p: nat)
    requires job.Ok() && job.level == 3 && t.job == job && t.slots == Slots(job)
    requires n % 512 == 0 && c <= 512 && n + c <= job.count && p == 512 * 0 + (job.start + n) / Group(1) % 512
    ensures forall m :: n <= m < n + c ==> t.InTable(m, p)
  {
    forall m | n <= m < n + c ensures t.InTable(m, p) {
      HugeSlot(t, job, n, m, p);
    }
  }

  lemma HugeSlot(t: Trail, job: Job, n: nat, m: nat, p: nat)
    requires job.Ok() && job.level == 3 && t.job == job && t.slots == Slots(job)
    requires n % 512 == 0 && n <= m < n + 512 && m < job.count && p == (job.start + n) / 512 % 512
    ensures t.InTable(m, p)
  {
    GroupDigit(job.start, n, m, 512);
    assert t.slots[m] == Slot(job, m);
  }

  // ---- 2 MiB pages ----------------------------------------------------------------------------------

  /** pt_map_large. Its middle loop runs over what is left of all tables, so the first turn of the outer
      loop does everything, and any further turns make tables only. */
  method MapLarge(space: AddressSpace, job: Job) returns (end: End)
    requires space.Valid() && job.Ok() && job.level == 2 && job.Bytes() < U64
    modifies space`mem, space`supply, space`at
    ensures Finished(end, space, old(space.mem), job)
  {
    ghost var t, n := Trail(job, Slots(job), space.mem), 0;
    var vbase, pbase := job.Vaddr(), job.phys;
    var l4Count, l3Rem, l2Rem, _ := Counts(job);
    Begun(space, t);
    end := Done;
    var i := 0;
    while i < l4Count
      invariant i <= l4Count && end.Done? && (i == 0 ==> space.mem == old(space.mem))
      invariant Countable(job) ==> LargeLeft(job, i == 0, l3Rem, l2Rem) && n == job.count - l2Rem
      invariant Reached(space, t, n, vbase, pbase)
    {
      end, l3Rem, l2Rem, vbase, pbase, n := LargeTurn(space, job, i == 0, l3Rem, l2Rem, vbase, pbase, t, n);
      if !end.Done? { return; }
      i := i + 1;
    }
    if Countable(job) { FirstDidAll(job, i, l4Count, l3Rem, l2Rem, n); }
    EndsDone(space, t, n, vbase, pbase, job, t.mem0);
  }

  /** What remains before the first turn of the outer loop, and before any other. */
  predicate LargeLeft(job: Job, first: bool, l3Rem: nat, l2Rem: nat)
  {
    if first then l2Rem == job.count && l3Rem == CeilDiv(job.count, 512)
    else l2Rem == 0 && (l3Rem > 0 ==> job.count > 0x4_0000)
  }

  lemma FirstDidAll(job: Job, i: nat, l4Count: nat, l3Rem: nat, l2Rem: nat, n: nat)
    requires i == l4Count == CeilDiv(job.count, 0x4_0000) && LargeLeft(job, i == 0, l3Rem, l2Rem)
    requires n == job.count - l2Rem
    ensures n == job.count
  {
  }

  /** One turn of the outer loop. */
  method LargeTurn(space: AddressSpace, job: Job, ghost first: bool, l3Rem0: nat, l2Rem0: nat, vbase0: nat, pbase0: nat,
                   ghost t: Trail, ghost n0: nat)
    returns (end: End, l3Rem: nat, l2Rem: nat, vbase: nat, pbase: nat, ghost n: nat)
    requires Reached(space, t, n0, vbase0, pbase0) && t.job == job && job.level == 2 && t.slots == Slots(job)
    requires LargeLeft(job, first, l3Rem0, l2Rem0) && n0 == job.count - l2Rem0
    modifies space`mem, space`supply, space`at
    ensures Left(end, space, t, n, vbase, pbase)
    ensures end.Done? ==> LargeLeft(job, false, l3Rem, l2Rem) && n == job.count - l2Rem
  {
    end, l3Rem, l2Rem, vbase, pbase, n := Done, l3Rem0, l2Rem0, vbase0, pbase0, n0;
    var r, q := NextTable(space, job, 4, space.root, vbase, pbase, 0, t, n, 2);
    var entries := Entries(l3Rem);
    if l3Rem > 0 {
      LargeInDirectory(t, job, l2Rem, n, q);
      if r.NoTable? {
        LargeMissing(space.mem, space.root, t, job, first, l3Rem, l2Rem, n, q);
        return OutOfPages, l3Rem, l2Rem, vbase, pbase, n;
      }
      end, l2Rem, vbase, pbase, n := PutTables(space, job, r.addr, l3Rem, l2Rem, vbase, pbase, q, t, n);
      if !end.Done? { return; }
    }
    LargeDone(job, first, l3Rem, l2Rem0, l2Rem);
    l3Rem := l3Rem - entries;
  }

  lemma LargeMissing(mem: Memory, root: nat, t: Trail, job: Job, first: bool, l3Rem: nat, l2Rem: nat, n: nat, q: nat)
    requires t.Ok() && t.job == job && job.level == 2 && LargeLeft(job, first, l3Rem, l2Rem) && l3Rem > 0
    requires n == job.count - l2Rem && q == 512 * 0 + (job.start + n) / Group(2) % 512
    requires (forall m :: n <= m < job.count ==> t.InDirectory(m, q)) && TableFor(mem, root, 3, q).None?
    ensures Starved(mem, root, job, t.slots)
  {
    if first {
      assert t.InDirectory(n, q);
      MissingDirectory(mem, root, t, n, q);
    }
  }

  lemma ComposedIs(d4: nat, d3: nat, d2: nat, d1: nat)
    ensures Composed(d4, d3, d2, d1) == 512 * (512 * (512 * d4 + d3) + d2) + d1
  {
  }

  lemma LargeSlot(t: Trail, job: Job, m: nat, q: nat)
    requires t.job == job && job.Ok() && job.level == 2 && t.slots == Slots(job) && m < job.count
    requires q == job.start / 0x4_0000 % 512
    ensures t.InDirectory(m, q)
  {
    assert t.slots[m] == Slot(job, m);
    ComposedIs(0, q, Digit(job.start, m, 512), (job.start + m) % 512);
  }

  lemma LargeInDirectory(t: Trail, job: Job, rem: nat, n: nat, q: nat)
    requires t.job == job && job.Ok() && job.level == 2 && t.slots == Slots(job)
    requires (rem == 0 || rem == job.count) && n == job.count - rem && q == 512 * 0 + (job.start + n) / Group(2) % 512
    ensures Grouped(job.count, rem, 512)
    ensures forall m :: n <= m < job.count ==> t.InDirectory(m, q)
  {
    forall m | n <= m < job.count ensures t.InDirectory(m, q) {
      LargeSlot(t, job, m, q);
    }
  }

  /** The tables of the first turn hold all units. */
  lemma LargeDone(job: Job, first: bool, l3Rem: nat, rem0: nat, rem: nat)
    requires LargeLeft(job, first, l3Rem, rem0) && (if l3Rem > 0 then rem == Rest(rem0, 512 * l3Rem) else rem == rem0)
    ensures LargeLeft(job, false, l3Rem - Entries(l3Rem), rem)
  {
  }

  // ---- 4 KiB pages ----------------------------------------------------------------------------------

  /** The n-th write goes below the entry of a level-3 table, the one with prefix p. */
  predicate InTop(t: Trail, n: nat, p: nat)
  {
    && n < |t.slots|
    && t.slots[n] == Composed(p, Digit(t.job.start, n, 0x4_0000), Digit(t.job.start, n, 512), (t.job.start + n) % 512)
  }

  /** A counter of groups of g units and the counter of the units themselves stay in step. */
  lemma CeilStep(rem: nat, g: nat)
    requires g == 512 || g == 0x4_0000
    ensures Entries(CeilDiv(rem, g)) == 0 <==> rem == 0
    ensures var rem' := Rest(rem, g * Entries(CeilDiv(rem, g)));
            rem' == Rest(rem, 512 * g) && CeilDiv(rem', g) == CeilDiv(rem, g) - Entries(CeilDiv(rem, g))
  {
  }

  /** pt_map_norm */
  method MapNorm(space: AddressSpace, job: Job) returns (end: End)
    requires space.Valid() && job.Ok() && job.level == 1 && job.Bytes() < U64
    modifies space`mem, space`supply, space`at
    ensures Finished(end, space, old(space.mem), job)
  {
    ghost var t, n := Trail(job, Slots(job), space.mem), 0;
    var vbase, pbase := job.Vaddr(), job.phys;
    var l4Count, l3Rem, l2Rem, l1Rem := Counts(job);
    Begun(space, t);
    if Countable(job) { NormStart(job); }
    end := Done;
    var i := 0;
    while i < l4Count
      invariant i <= l4Count && end.Done? && (i == 0 ==> space.mem == old(space.mem))
      invariant Countable(job) ==> NormLeft(job, i, l3Rem, l2Rem, l1Rem) && n == job.count - l1Rem
      invariant Reached(space, t, n, vbase, pbase)
    {
      end, l3Rem, l2Rem, l1Rem, vbase, pbase, n :=
        NormTurn(space, job, i, l3Rem, l2Rem, l1Rem, vbase, pbase, t, n);
      if !end.Done? { return; }
      i := i + 1;
    }
    if Countable(job) { NothingLeft(job, i, l4Count, l3Rem, l2Rem, l1Rem, n); }
    EndsDone(space, t, n, vbase, pbase, job, t.mem0);
  }

  /** What remains before the i-th turn of the outer loop. */
  predicate NormLeft(job: Job, i: nat, l3Rem: nat, l2Rem: nat, l1Rem: nat)
  {
    && l1Rem == Rest(job.count, 0x800_0000 * i) && Grouped(job.count, l1Rem, 0x800_0000)
    && l2Rem == CeilDiv(l1Rem, 512) && l3Rem == CeilDiv(l1Rem, 0x4_0000)
  }

  lemma NormStart(job: Job)
    ensures NormLeft(job, 0, CeilDiv(job.count, 0x4_0000), CeilDiv(job.count, 512), job.count)
  {
  }

  /** The outer loop has as many turns as the units need. */
  lemma NothingLeft(job: Job, i: nat, l4Count: nat, l3Rem: nat, l2Rem: nat, l1Rem: nat, n: nat)
    requires i == l4Count == CeilDiv(job.count, 0x800_0000) && NormLeft(job, i, l3Rem, l2Rem, l1Rem)
    requires n == job.count - l1Rem
    ensures n == job.count
  {
  }

  lemma NormStep(job: Job, i: nat, l3Rem: nat, l2Rem: nat, l1Rem: nat)
    requires NormLeft(job, i, l3Rem, l2Rem, l1Rem)
    ensures Entries(l3Rem) == 0 <==> l1Rem == 0
    ensures var rem' := Rest(l1Rem, 0x4_0000 * Entries(l3Rem));
            NormLeft(job, i + 1, l3Rem - Entries(l3Rem), CeilDiv(rem', 512), rem')
  {
    CeilStep(l1Rem, 0x4_0000);
    GroupLess(job.count, job.count, i, l1Rem, 0x800_0000);
  }

  /** One turn of the outer loop. */
  method NormTurn(space: AddressSpace, job: Job, ghost i: nat, l3Rem0: nat, l2Rem0: nat, l1Rem0: nat,
                  vbase0: nat, pbase0: nat, ghost t: Trail, ghost n0: nat)
    returns (end: End, l3Rem: nat, l2Rem: nat, l1Rem: nat, vbase: nat, pbase: nat, ghost n: nat)
    requires Reached(space, t, n0, vbase0, pbase0) && t.job == job && job.level == 1 && t.slots == Slots(job)
    requires NormLeft(job, i, l3Rem0, l2Rem0, l1Rem0) && n0 == job.count - l1Rem0
    modifies space`mem, space`supply, space`at
    ensures Left(end, space, t, n, vbase, pbase)
    ensures end.Done? ==> NormLeft(job, i + 1, l3Rem, l2Rem, l1Rem) && n == job.count - l1Rem
  {
    end, l3Rem, l2Rem, l1Rem, vbase, pbase, n := Done, l3Rem0, l2Rem0, l1Rem0, vbase0, pbase0, n0;
    var r, p := NextTable(space, job, 4, space.root, vbase, pbase, 0, t, n, 3);
    var entries := Entries(l3Rem);
    NormStep(job, i, l3Rem, l2Rem, l1Rem);
    if entries > 0 {
      NormInTop(t, job, l1Rem, n, entries, p);
      if r.NoTable? {
        MissingTop(space.mem, space.root, t, n, p);
        return OutOfPages, l3Rem, l2Rem, l1Rem, vbase, pbase, n;
      }
      end, l2Rem, l1Rem, vbase, pbase, n :=
        PutDirectories(space, job, r.addr, entries, l2Rem, l1Rem, vbase, pbase, p, t, n);
      if !end.Done? { return; }
    }
    l3Rem := l3Rem - entries;
  }

  /** Without a level-3 table for its entry a unit is without a table. */
  lemma MissingTop(mem: Memory, root: nat, t: Trail, n: nat, p: nat)
    requires t.Ok() && t.job.level == 1 && InTop(t, n, p) && TableFor(mem, root, 3, p).None?
    ensures Starved(mem, root, t.job, t.slots)
  {
    var q := 512 * p + Digit(t.job.start, n, 0x4_0000);
    ComposedIs(p, Digit(t.job.start, n, 0x4_0000), Digit(t.job.start, n, 512), (t.job.start + n) % 512);
    assert q / 512 == p;
    assert TableFor(mem, root, 2, q).None?;
    MissingDirectory(mem, root, t, n, q);
  }

  lemma SlotInTop(t: Trail, job: Job, n: nat, m: nat, p: nat)
    requires t.job == job && job.Ok() && job.level == 1 && t.slots == Slots(job)
    requires n % 0x800_0000 == 0 && n <= m < n + 0x800_0000 && m < job.count
    requires p == (job.start + n) / Group(3) % 512
    ensures InTop(t, m, p)
  {
    GroupDigit(job.start, n, m, 0x800_0000);
    assert t.slots[m] == Slot(job, m);
  }

  lemma NormInTop(t: Trail, job: Job, rem: nat, n: nat, c: nat, p: nat)
    requires t.job == job && job.Ok() && job.level == 1 && t.slots == Slots(job) && c <= 512
    requires 0 < rem && Grouped(job.count, rem, 0x800_0000) && n == job.count - rem
    requires p == 512 * 0 + (job.start + n) / Group(3) % 512
    ensures Grouped(job.count, rem, 0x4_0000)
    ensures forall m :: n <= m < job.count && m < n + 0x4_0000 * c ==> InTop(t, m, p)
  {
    SmallerGroups(n);
    assert 0x4_0000 * c <= 0x800_0000;
    forall m | n <= m < job.count && m < n + 0x4_0000 * c ensures InTop(t, m, p) {
      SlotInTop(t, job, n, m, p);
    }
  }

  lemma SmallerGroups(n: nat)
    requires n % 0x800_0000 == 0
    ensures n % 0x4_0000 == 0
  {
    WholeGroups(n, 0x4_0000, 512);
  }

  /** The remainders before the j-th turn of the loop over the entries of a level-3 table. */
  predicate DirectoriesAt(count: nat, rem0: nat, j: nat, l2Rem: nat, l1Rem: nat)
  {
    && rem0 <= count && l1Rem == Rest(rem0, 0x4_0000 * j) && Grouped(count, l1Rem, 0x4_0000)
    && l2Rem == CeilDiv(l1Rem, 512)
  }

  lemma DirectoriesStep(count: nat, rem0: nat, j: nat, l2Rem: nat, l1Rem: nat)
    requires DirectoriesAt(count, rem0, j, l2Rem, l1Rem)
    ensures var rem' := Rest(l1Rem, 0x4_0000); DirectoriesAt(count, rem0, j + 1, CeilDiv(rem', 512), rem')
  {
    GroupLess(count, rem0, j, l1Rem, 0x4_0000);
  }

  /** The loop of pt_map_norm over the entries of a level-3 table. */
  method PutDirectories(space: AddressSpace, job: Job, table: nat, count: nat, l2Rem0: nat, l1Rem0: nat,
                        vbase0: nat, pbase0: nat, ghost p: nat, ghost t: Trail, ghost n0: nat)
    returns (end: End, l2Rem: nat, l1Rem: nat, vbase: nat, pbase: nat, ghost n: nat)
    requires Reached(space, t, n0, vbase0, pbase0) && t.job == job && job.level == 1 && n0 == job.count - l1Rem0
    requires l2Rem0 == CeilDiv(l1Rem0, 512) && Grouped(job.count, l1Rem0, 0x4_0000)
    requires Prefix(3, p) && TableFor(space.mem, space.root, 3, p) == Some(table)
    requires forall m :: n0 <= m < job.count && m < n0 + 0x4_0000 * count ==> InTop(t, m, p)
    modifies space`mem, space`supply, space`at
    ensures Left(end, space, t, n, vbase, pbase)
    ensures end.Done? ==>
              l1Rem == Rest(l1Rem0, 0x4_0000 * count) && l2Rem == CeilDiv(l1Rem, 512) && n == job.count - l1Rem
  {
    end, l2Rem, l1Rem, vbase, pbase, n := Done, l2Rem0, l1Rem0, vbase0, pbase0, n0;
    var j := 0;
    while j < count
      invariant j <= count && end.Done? && DirectoriesAt(job.count, l1Rem0, j, l2Rem, l1Rem)
      invariant n == job.count - l1Rem && Reached(space, t, n, vbase, pbase)
      invariant TableFor(space.mem, space.root, 3, p) == Some(table)
    {
      DirectoriesStep(job.count, l1Rem0, j, l2Rem, l1Rem);
      TopHere(t, p, job.count, l1Rem0, j, l1Rem, n0, n, count);
      ghost var mem := space.mem;
      end, l2Rem, l1Rem, vbase, pbase, n := PutDirectory(space, job, table, l2Rem, l1Rem, vbase, pbase, p, t, n);
      if !end.Done? { return; }
      StillThere(mem, space.mem, space.root, 3, 3, p);
      j := j + 1;
    }
  }

  lemma TopHere(t: Trail, p: nat, total: nat, rem0: nat, j: nat, rem: nat, n0: nat, n: nat, count: nat)
    requires j < count && rem0 <= total && rem == Rest(rem0, 0x4_0000 * j) && n0 == total - rem0 && n == total - rem
    requires forall m :: n0 <= m < total && m < n0 + 0x4_0000 * count ==> InTop(t, m, p)
    ensures forall m :: n <= m < total && m < n + 0x4_0000 ==> InTop(t, m, p)
  {
    assert 0x4_0000 * j + 0x4_0000 <= 0x4_0000 * count;
  }

  /** One turn: the level-2 table behind the entry of the running address, and its tables. */
  method PutDirectory(space: AddressSpace, job: Job, table: nat, l2Rem0: nat, l1Rem0: nat,
                      vbase0: nat, pbase0: nat, ghost p: nat, ghost t: Trail, ghost n0: nat)
    returns (end: End, l2Rem: nat, l1Rem: nat, vbase: nat, pbase: nat, ghost n: nat)
    requires Reached(space, t, n0, vbase0, pbase0) && t.job == job && job.level == 1 && n0 == job.count - l1Rem0
    requires l2Rem0 == CeilDiv(l1Rem0, 512) && Grouped(job.count, l1Rem0, 0x4_0000)
    requires Prefix(3, p) && TableFor(space.mem, space.root, 3, p) == Some(table)
    requires forall m :: n0 <= m < job.count && m < n0 + 0x4_0000 ==> InTop(t, m, p)
    modifies space`mem, space`supply, space`at
    ensures Left(end, space, t, n, vbase, pbase)
    ensures end.Done? ==> l1Rem == Rest(l1Rem0, 0x4_0000) && l2Rem == CeilDiv(l1Rem, 512) && n == job.count - l1Rem
    ensures TablesKept(old(space.mem), space.mem, space.root, 3)
  {
    end, l2Rem, l1Rem, vbase, pbase, n := Done, l2Rem0, l1Rem0, vbase0, pbase0, n0;
    var r, q := NextTable(space, job, 3, table, vbase, pbase, p, t, n, 2);
    var entries := Entries(l2Rem);
    CeilStep(l1Rem, 512);
    if entries > 0 {
      DirectoryGroup(t, job, l1Rem, n, entries, p, q);
      match r
      case NoTable =>
        MissingDirectory(space.mem, space.root, t, n, q);
        return OutOfPages, l2Rem, l1Rem, vbase, pbase, n;
      case HugePage(_) =>
        BlockedByDirectory(space.mem, space.root, t, n, q);
        return HitHugePage, l2Rem, l1Rem, vbase, pbase, n;
      case Table(x) =>
        ghost var mem := space.mem;
        end, l1Rem, vbase, pbase, n := PutTables(space, job, x, entries, l1Rem, vbase, pbase, q, t, n);
        KeptTrans(old(space.mem), mem, space.mem, space.root, 2, 3);
        if !end.Done? { return; }
    }
    l2Rem := l2Rem - entries;
  }

  lemma DirectoryGroup(t: Trail, job: Job, rem: nat, n: nat, c: nat, p: nat, q: nat)
    requires t.job == job && 0 < rem && Grouped(job.count, rem, 0x4_0000) && n == job.count - rem && 0 < c <= 512
    requires q == 512 * p + (job.start + n) / Group(2) % 512
    requires forall m :: n <= m < job.count && m < n + 0x4_0000 ==> InTop(t, m, p)
    ensures Grouped(job.count, rem, 512)
    ensures forall m :: n <= m < job.count && m < n + 512 * c ==> t.InDirectory(m, q)
    ensures t.InDirectory(n, q)
  {
    WholeGroups(n, 512, 512);
    forall m | n <= m < job.count && m < n + 512 * c ensures t.InDirectory(m, q) {
      assert InTop(t, m, p);
      GroupDigit(job.start, n, m, 0x4_0000);
      ComposedIs(p, Digit(job.start, m, 0x4_0000), Digit(job.start, m, 512), (job.start + m) % 512);
    }
  }

  /** A 1 GiB page where a level-2 table is looked for was there from the start. */
  lemma BlockedByDirectory(mem: Memory, root: nat, t: Trail, n: nat, q: nat)
    requires t.Ok() && t.job.level == 1 && Prefix(2, q) && t.InDirectory(n, q)
    requires Tracks(mem, root, t, n) && HugeBlock(mem, root, 3, q)
    ensures Blocked(t.mem0, root, t.job, t.slots)
  {
    var d := Digit(t.job.start, n, 512);
    PrefixDown(2, q, d);
    PrefixDown(1, 512 * q + d, (t.job.start + n) % 512);
    var vpn := PageOfUnit(1, t.slots[n]);
    BlockUnrolled(vpn);
    assert Block(vpn, 2) == q;
    AfterIs(t.mem0, root, t.job, t.slots, n, vpn);
    assert BlockedAt(t.mem0, root, t.job, t.slots[n], vpn);
  }
}
