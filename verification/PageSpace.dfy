/**
 An address space: the tables in memory, the walk of kpt_get_phys and the table allocation of
 return_pt_or_alloc (kernel/pagetbl.c).
 */
module PageSpace {
  import opened Powers
  import opened Bits
  import opened Phys
  import opened Sequences
  import opened PageTables
  import opened PageWalk
  import opened PageRights

  const GIB: nat := 0x4000_0000
  const MIB2: nat := 0x20_0000

  /** page_l1_idx to page_l4_idx */
  function L4Idx(virt: nat): nat { And(Shr(virt, 39), 0x1FF) }
  function L3Idx(virt: nat): nat { And(Shr(virt, 30), 0x1FF) }
  function L2Idx(virt: nat): nat { And(Shr(virt, 21), 0x1FF) }
  function L1Idx(virt: nat): nat { And(Shr(virt, 12), 0x1FF) }

  function PageNumber(virt: nat): nat { virt / 4096 % PAGES }

  lemma PowerTable()
    ensures Pow2(9) == 512 && Pow2(12) == 4096 && Pow2(21) == MIB2 && Pow2(30) == GIB
    ensures Pow2(39) == 0x80_0000_0000 && Pow2(52) == 0x10_0000_0000_0000
  {
    assert Pow2(4) == 16 && Pow2(5) == 32;
    Pow2Add(4, 5);
    Pow12();
    Pow2Add(12, 9);
    Pow2Add(21, 9);
    Pow2Add(30, 9);
    assert Pow2(13) == 8192;
    Pow2Add(39, 13);
  }

  lemma PageDigits(v: nat)
    ensures var n := v % PAGES;
            && v % 512 == n % 512 && v / 512 % 512 == n / 512 % 512
            && v / 512 / 512 % 512 == n / 512 / 512 % 512
            && v / 512 / 512 / 512 % 512 == n / 512 / 512 / 512 % 512
  {
    var n, h := v % PAGES, v / PAGES;
    assert v == PAGES * h + n;
    assert v / 512 == 134217728 * h + n / 512;
    assert v / 512 / 512 == 262144 * h + n / 512 / 512;
    assert v / 512 / 512 / 512 == 512 * h + n / 512 / 512 / 512;
  }

  lemma ShrSteps(virt: nat)
    ensures Shr(virt, 12) == virt / 4096 && Shr(virt, 21) == virt / 4096 / 512
    ensures Shr(virt, 30) == virt / 4096 / 512 / 512 && Shr(virt, 39) == virt / 4096 / 512 / 512 / 512
  {
    PowerTable();
    assert virt / MIB2 == virt / 4096 / 512;
    assert virt / GIB == virt / MIB2 / 512;
    assert virt / 0x80_0000_0000 == virt / GIB / 512;
  }

  /** The index bits of an address are the indices of its page. */
  lemma IndexBits(virt: nat)
    ensures L1Idx(virt) == Index(PageNumber(virt), 1) && L2Idx(virt) == Index(PageNumber(virt), 2)
    ensures L3Idx(virt) == Index(PageNumber(virt), 3) && L4Idx(virt) == Index(PageNumber(virt), 4)
  {
    ShrSteps(virt);
    PageDigits(virt / 4096);
    assert Pow2(9) == 512 by { PowerTable(); }
    AndMask(Shr(virt, 12), 9);
    AndMask(Shr(virt, 21), 9);
    AndMask(Shr(virt, 30), 9);
    AndMask(Shr(virt, 39), 9);
    var n := PageNumber(virt);
    BlockUnrolled(n);
  }

  /** The address a mapping gives to a virtual address in its page. */
  function Resolved(m: Mapping, virt: nat): nat
  {
    match m
    case Unmapped => KPAGE_ERR
    case Mapped(e, k) =>
      if k == 3 then Or(PhysRebase(e, 30, RangeMask(51, 30)), And(virt, RangeMask(29, 0)))
      else if k == 2 then Or(PhysRebase(e, 21, RangeMask(51, 21)), And(virt, RangeMask(20, 0)))
      else Or(PtRebase(e), And(virt, RangeMask(11, 0)))
  }

  /** The size of what an entry of a level-k table maps. */
  function MapShift(k: nat): nat { if k == 3 then 30 else if k == 2 then 21 else 12 }

  /** An entry with the address p resolves to p plus the offset in the page. */
  lemma ResolvedTo(e: nat, p: nat, k: nat, virt: nat)
    requires 1 <= k <= 3 && p % Pow2(MapShift(k)) == 0
    requires PhysRebase(e, MapShift(k), RangeMask(51, MapShift(k))) == p
    ensures Resolved(Mapped(e, k), virt) == p + virt % Pow2(MapShift(k))
  {
    var s := MapShift(k);
    assert And(virt, RangeMask(s - 1, 0)) == virt % Pow2(s) by { OffsetBits(virt, s); }
    OrDisjoint(p, virt % Pow2(s), s);
  }

  /** The address in an entry has 52 bits and is a multiple of the size of its page. */
  lemma RebasedIs(e: nat, s: nat, p: nat)
    requires 12 <= s < 52 && p == PhysRebase(e, s, RangeMask(51, s))
    ensures p % Pow2(s) == 0 && p + Pow2(s) <= Pow2(52)
  {
    var t := 52 - s;
    var q := Shr(e, s) % Pow2(t);
    AndMask(Shr(e, s), t);
    assert p == q * Pow2(s);
    DivModUnique(p, Pow2(s), q, 0);
    MulGap(q, Pow2(t), Pow2(s));
    Pow2Add(t, s);
  }

  /** The answer for an unmapped page is no physical address, and no mapped page gets it. */
  lemma OnlyUnmappedFails(m: Mapping, virt: nat)
    requires m.Mapped? ==> 1 <= m.level <= 3
    ensures Resolved(m, virt) == KPAGE_ERR <==> m == Unmapped
    ensures m.Mapped? ==> Resolved(m, virt) < Pow2(52)
  {
    PowerTable();
    if m.Mapped? {
      var s := MapShift(m.level);
      var p := PhysRebase(m.entry, s, RangeMask(51, s));
      RebasedIs(m.entry, s, p);
      ResolvedTo(m.entry, p, m.level, virt);
    }
  }

  lemma OffsetBits(virt: nat, s: nat)
    requires s > 0
    ensures And(virt, RangeMask(s - 1, 0)) == virt % Pow2(s)
  {
    AndMask(virt, s);
  }

  /** What a call of return_pt_or_alloc comes to: a table, none because the page allocator has none left,
      or the memory of a huge page, which it takes for a table. */
  datatype TableResult = Table(addr: nat) | NoTable | HugePage(addr: nat)

  class AddressSpace {
    const root: nat                      // the address in cr3
    var mem: Memory
    var supply: seq<nat>                 // the pages kbud_alloc will hand out
    ghost var at: map<nat, Place>
    ghost const pool: set<nat>           // all pages it was ever given

    /** A zeroed top table, and the pages that are left for others. */
    constructor (page: nat, pages: seq<nat>)
      requires forall i :: 0 <= i < |pages| ==> pages[i] != page && pages[i] % 4096 == 0 && pages[i] < Pow2(52)
      requires Once(pages)
      ensures Valid() && root == page && supply == pages && pool == {page} + Members(pages)
      ensures forall vpn :: 0 <= vpn < PAGES ==> MappingOf(mem, root, vpn) == Unmapped
    {
      root, supply := page, pages;
      mem, at := map[page := EmptyTable()], map[page := Place(4, 0)];
      pool := {page} + Members(pages);
      new;
      assert !IsPresent(0);
      forall vpn | 0 <= vpn < PAGES ensures MappingOf(mem, root, vpn) == Unmapped {
        EmptyMapsNothing(mem, root, vpn, 4);
      }
    }

    ghost predicate Valid()
      reads this
    {
      WellFormed(mem, root, at) && Unused(mem, supply) && PlainLinks(mem, at) && pool == mem.Keys + Members(supply)
    }

    /** What the walk permits is what the entry of the page says, but never to user code. */
    lemma EntriesDecide()
      requires Valid()
      ensures LeavesDecide(mem, root)
    {
      LeafDecides(mem, root, at);
    }

    /** kpt_get_phys */
    method GetPhys(vaddr: nat) returns (phys: nat)
      requires Valid()
      ensures phys == Resolved(MappingOf(mem, root, PageNumber(vaddr)), vaddr)
      ensures phys == KPAGE_ERR <==> MappingOf(mem, root, PageNumber(vaddr)) == Unmapped
      ensures phys != KPAGE_ERR ==> phys < Pow2(52)
    {
      phys := Walk(vaddr);
      TopMapsNothing(mem, root, PageNumber(vaddr));
      OnlyUnmappedFails(MappingOf(mem, root, PageNumber(vaddr)), vaddr);
    }

    /** The walk itself. */
    method Walk(vaddr: nat) returns (phys: nat)
      requires Valid()
      ensures phys == Resolved(MappingOf(mem, root, PageNumber(vaddr)), vaddr)
    {
      IndexBits(vaddr);
      ghost var vpn := PageNumber(vaddr);
      BlockPrefix(vpn, 4);
      var entry := mem[root][L4Idx(vaddr)];
      assert ChildOk(mem, at, root, L4Idx(vaddr));
      if !IsPresent(entry) { return KPAGE_ERR; }
      var pdpt := PtRebase(entry);
      entry := mem[pdpt][L3Idx(vaddr)];
      assert ChildOk(mem, at, pdpt, L3Idx(vaddr));
      if !IsPresent(entry) { return KPAGE_ERR; }
      if IsHuge(entry) {
        return Or(PhysRebase(entry, 30, RangeMask(51, 30)), And(vaddr, RangeMask(29, 0)));
      }
      var pd := PtRebase(entry);
      entry := mem[pd][L2Idx(vaddr)];
      assert ChildOk(mem, at, pd, L2Idx(vaddr));
      if !IsPresent(entry) { return KPAGE_ERR; }
      if IsHuge(entry) {
        return Or(PhysRebase(entry, 21, RangeMask(51, 21)), And(vaddr, RangeMask(20, 0)));
      }
      var pt := PtRebase(entry);
      entry := mem[pt][L1Idx(vaddr)];
      if !IsPresent(entry) { return KPAGE_ERR; }
      return Or(PtRebase(entry), And(vaddr, RangeMask(11, 0)));
    }

    /** One store of a mapper into table f, which serves the pages with prefix p. */
    method SetEntry(f: nat, i: nat, e: nat, ghost k: nat, ghost p: nat)
      requires Valid() && 1 <= k < 4 && Prefix(k, p) && TableFor(mem, root, k, p) == Some(f)
      requires i < ENTRIES && Maps(e, k)
      modifies this`mem
      ensures Valid() && TablesKept(old(mem), mem, root, k)
      ensures Remapped(old(mem), mem, root, k, 512 * p + i, e)
    {
      TablePlace(mem, root, at, k, p);
      ghost var mem0 := mem;
      mem := Written(mem, f, i, e);
      EntryWritten(mem0, root, at, f, k, p, i, e, mem);
      WrittenStaysPlain(mem0, root, at, f, i, e);
      WrittenKeeps(mem0, root, at, f, i, e);
    }

    /** What is stored for a new table. */
    method EntryOfTable(page: nat, ghost k: nat) returns (e: nat)
      requires page % 4096 == 0 && page < Pow2(52)
      ensures Points(e, k) && PtRebase(e) == page && FlagsAre(e, {0, 1})
    {
      TableEntry(page, k);
      e := Or(Or(page, PRESENT), WRITABLE);
    }

    /** The branch of return_pt_or_alloc for an entry that is not present. */
    method NewTable(f: nat, i: nat, ghost k: nat, ghost p: nat, ghost q: nat) returns (r: TableResult)
      requires Valid() && 2 <= k <= 4 && Prefix(k, p) && TableFor(mem, root, k, p) == Some(f)
      requires i < ENTRIES && q == 512 * p + i && f in mem && !IsPresent(mem[f][i])
      modifies this`mem, this`supply, this`at
      ensures Valid() && SameMappings(old(mem), mem, root)
      ensures TablesKept(old(mem), mem, root, k)
      ensures r.Table? ==> TableFor(mem, root, k - 1, q) == Some(r.addr) && old(supply) == [r.addr] + supply
      ensures r.NoTable? <==> old(supply) == []
      ensures r.NoTable? ==> mem == old(mem) && supply == []
      ensures !r.HugePage?
    {
      if supply == [] { return NoTable; }
      var page, rest := supply[0], supply[1..];
      HeadAndRest(supply, page, rest);
      assert supply[0] == page;
      var entry := EntryOfTable(page, k);
      HangTable(f, i, page, rest, entry, Hook(f, i, k, p, q, page, entry));
      return Table(page);
    }

    /** The page becomes an empty table, and the entry that leads to it is stored. */
    method HangTable(f: nat, i: nat, page: nat, rest: seq<nat>, entry: nat, ghost h: Hook)
      requires Valid() && supply == [page] + rest && Members(supply) == {page} + Members(rest)
      requires h.Ok() && h.f == f && h.i == i && h.child == page && h.e == entry && FlagsAre(entry, {0, 1})
      requires TableFor(mem, root, h.k, h.p) == Some(h.f) && h.f in mem && !IsPresent(mem[h.f][h.i])
      modifies this`mem, this`supply, this`at
      ensures Valid() && supply == rest && SameMappings(old(mem), mem, root) && TablesKept(old(mem), mem, root, h.k)
      ensures TableFor(mem, root, h.k - 1, h.q) == Some(page)
    {
      assert supply[0] == page;
      ghost var at' := at[page := h.Spot()];
      var mem' := WithTable(mem, f, i, page, entry);
      HookUp(mem, root, at, h, supply, rest, mem', at');
      PoolKept(pool, mem, supply, page, rest, mem');
      mem, supply, at := mem', rest, at';
    }

    /** return_pt_or_alloc on entry i of the level-k table f, which serves the pages with prefix p. The
        function itself does not know k; here it only tells a table from a huge page in the result. */
    method TableOrAlloc(f: nat, i: nat, k: nat, ghost p: nat) returns (r: TableResult, ghost q: nat)
      requires Valid() && 2 <= k <= 4 && Prefix(k, p) && TableFor(mem, root, k, p) == Some(f) && i < ENTRIES
      modifies this`mem, this`supply, this`at
      ensures Valid() && SameMappings(old(mem), mem, root)
      ensures TablesKept(old(mem), mem, root, k)
      ensures q == 512 * p + i && (r.Table? ==> TableFor(mem, root, k - 1, q) == Some(r.addr))
      ensures TableFor(old(mem), root, k - 1, q).Some? ==> r.Table? && mem == old(mem) && supply == old(supply)
      ensures TableFor(old(mem), root, k - 1, q).None? && r.Table? ==> old(supply) == [r.addr] + supply
      ensures r.NoTable? ==> supply == old(supply) == [] && mem == old(mem)
      ensures r.HugePage? <==> k < 4 && HugeBlock(old(mem), root, k, q)
      ensures r.HugePage? ==> supply == old(supply) && mem == old(mem)
    {
      TablePlace(mem, root, at, k, p);
      q := 512 * p + i;
      var e := mem[f][i];
      HugeIff(mem, root, f, k, p, i, q);
      if !IsPresent(e) {
        r := NewTable(f, i, k, p, q);
        return;
      }
      if k < 4 && IsHuge(e) { return HugePage(PtRebase(e)), q; }
      return Table(PtRebase(e)), q;
    }
  }

  /** Whole pages, none of them a table and none twice. */
  ghost predicate Unused(mem: Memory, pages: seq<nat>)
  {
    && (forall i :: 0 <= i < |pages| ==> pages[i] !in mem && pages[i] % 4096 == 0 && pages[i] < Pow2(52))
    && Once(pages)
  }

  lemma HeadAndRest(pages: seq<nat>, page: nat, rest: seq<nat>)
    requires pages != [] && page == pages[0] && rest == pages[1..]
    ensures pages == [page] + rest && Members(pages) == {page} + Members(rest)
  {
    assert pages == [page] + rest;
  }

  lemma PoolKept(pool: set<nat>, mem: Memory, pages: seq<nat>, page: nat, rest: seq<nat>, mem': Memory)
    requires pool == mem.Keys + Members(pages) && Members(pages) == {page} + Members(rest)
    requires mem'.Keys == mem.Keys + {page}
    ensures pool == mem'.Keys + Members(rest)
  {
  }

  ghost function Members(pages: seq<nat>): set<nat> { set p | p in pages }

  /** The first page became a table. */
  lemma RestUnused(mem: Memory, pages: seq<nat>, page: nat, rest: seq<nat>, mem': Memory)
    requires Unused(mem, pages) && pages == [page] + rest && mem'.Keys == mem.Keys + {page}
    ensures Unused(mem', rest)
  {
    forall i | 0 <= i < |rest| ensures rest[i] !in mem' && rest[i] % 4096 == 0 && rest[i] < Pow2(52) {
      assert pages[i + 1] == rest[i] && pages[0] == page;
    }
    assert Once(rest) by {
      forall i, j | 0 <= i < j < |rest| ensures rest[i] != rest[j] {
        assert pages[i + 1] == rest[i] && pages[j + 1] == rest[j];
      }
    }
  }

  /** Every page is mapped as before. */
  ghost predicate SameMappings(mem: Memory, mem': Memory, root: nat)
  {
    forall vpn :: 0 <= vpn < PAGES ==> MappingOf(mem', root, vpn) == MappingOf(mem, root, vpn)
  }

  /** One unit of level k got a new entry, and every other page is mapped as before. */
  ghost predicate Remapped(mem: Memory, mem': Memory, root: nat, k: nat, unit: nat, e: nat)
    requires k > 0
  {
    forall vpn :: 0 <= vpn < PAGES ==>
      MappingOf(mem', root, vpn) == if Block(vpn, k - 1) == unit then Mapped(e, k) else MappingOf(mem, root, vpn)
  }

  /** The pages of a unit of level k are in a huge page of level k. */
  ghost predicate HugeBlock(mem: Memory, root: nat, k: nat, unit: nat)
    requires k > 0
  {
    forall vpn :: 0 <= vpn < PAGES && Block(vpn, k - 1) == unit ==>
      MappingOf(mem, root, vpn).Mapped? && MappingOf(mem, root, vpn).level == k
  }

  /** The tables of level k and above that were there are still there. */
  ghost predicate TablesKept(mem: Memory, mem': Memory, root: nat, k: nat)
  {
    forall j, p {:trigger TableKept(mem, mem', root, j, p)} ::
      k <= j <= 4 && 1 <= j && 0 <= p && Prefix(j, p) ==> TableKept(mem, mem', root, j, p)
  }

  predicate TableKept(mem: Memory, mem': Memory, root: nat, j: nat, p: nat)
    requires 1 <= j <= 4
  {
    TableFor(mem, root, j, p).Some? ==> TableFor(mem', root, j, p) == TableFor(mem, root, j, p)
  }

  lemma StillThere(mem: Memory, mem': Memory, root: nat, k: nat, j: nat, p: nat)
    requires TablesKept(mem, mem', root, k) && k <= j <= 4 && 1 <= j && Prefix(j, p) && TableFor(mem, root, j, p).Some?
    ensures TableFor(mem', root, j, p) == TableFor(mem, root, j, p)
  {
    assert TableKept(mem, mem', root, j, p);
  }

  lemma WrittenKeeps(mem: Memory, root: nat, at: map<nat, Place>, f: nat, i: nat, e: nat)
    requires WellFormed(mem, root, at) && f in mem && i < ENTRIES
    ensures TablesKept(mem, Written(mem, f, i, e), root, at[f].level)
  {
    var mem' := Written(mem, f, i, e);
    forall j, q | at[f].level <= j <= 4 && 0 <= q && Prefix(j, q) ensures TableKept(mem, mem', root, j, q) {
      if TableFor(mem, root, j, q).Some? { TableSame(mem, mem', root, at, f, i, j, q); }
    }
  }

  lemma TableFlags(page: nat)
    requires page % 4096 == 0 && page < Pow2(52)
    ensures FlagsAre(Or(Or(page, PRESENT), WRITABLE), {0, 1})
  {
    FlagValues();
    EntryFlags(page, PRESENT, {0});
    FlagsOfOr(Or(page, PRESENT), WRITABLE, {0}, {1});
    assert {0} + {1} == {0, 1};
  }

  lemma TableEntry(page: nat, k: nat)
    requires page % 4096 == 0 && page < Pow2(52)
    ensures var e := Or(Or(page, PRESENT), WRITABLE); Points(e, k) && PtRebase(e) == page && FlagsAre(e, {0, 1})
  {
    TableFlags(page);
    PowerTable();
    var e1, e := Or(page, PRESENT), Or(Or(page, PRESENT), WRITABLE);
    AddressKept(e1, WRITABLE, 12);
    AddressKept(page, PRESENT, 12);
    AddressAlone(page, 12);
    PresentBit(e);
    HugeBit(e);
    TestBitOr(e1, WRITABLE, 0);
    TestBitOr(page, PRESENT, 0);
    TestBitOr(e1, WRITABLE, 7);
    TestBitOr(page, PRESENT, 7);
    assert Pow2(7) == 128 by { assert Pow2(4) == 16; }
  }

  lemma HungKeeps(mem: Memory, root: nat, at: map<nat, Place>, h: Hook, mem': Memory, at': map<nat, Place>)
    requires Hung(mem, root, at, h, mem', at')
    ensures WellFormed(mem', root, at') && TableFor(mem', root, h.k - 1, h.q) == Some(h.child)
    ensures SameMappings(mem, mem', root) && TablesKept(mem, mem', root, h.k)
  {
    HungWellFormed(mem, root, at, h, mem', at');
    forall vpn | 0 <= vpn < PAGES ensures MappingOf(mem', root, vpn) == MappingOf(mem, root, vpn) {
      HungSame(mem, root, at, h, mem', at', vpn);
    }
    forall j, q | h.k <= j <= 4 && 0 <= q && Prefix(j, q) ensures TableKept(mem, mem', root, j, q) {
      if TableFor(mem, root, j, q).Some? { TableSame(mem, mem', root, at, h.f, h.i, j, q); }
    }
  }

  /** The first of the unused pages becomes a table. */
  lemma HookUp(mem: Memory, root: nat, at: map<nat, Place>, h: Hook, pages: seq<nat>, rest: seq<nat>,
               mem': Memory, at': map<nat, Place>)
    requires WellFormed(mem, root, at) && Unused(mem, pages) && pages == [h.child] + rest && h.Ok()
    requires TableFor(mem, root, h.k, h.p) == Some(h.f) && h.f in mem && !IsPresent(mem[h.f][h.i])
    requires PlainLinks(mem, at) && FlagsAre(h.e, {0, 1}) && h.child != h.f
    requires mem' == WithTable(mem, h.f, h.i, h.child, h.e) && at' == at[h.child := h.Spot()]
    ensures WellFormed(mem', root, at') && Unused(mem', rest) && PlainLinks(mem', at')
    ensures mem'.Keys == mem.Keys + {h.child} && TableFor(mem', root, h.k - 1, h.q) == Some(h.child)
    ensures SameMappings(mem, mem', root) && TablesKept(mem, mem', root, h.k)
  {
    assert pages[0] == h.child;
    RestUnused(mem, pages, h.child, rest, mem');
    HungKeeps(mem, root, at, h, mem', at');
    HungStaysPlain(mem, root, at, h, mem', at');
  }

  /** What entry i of a table says about the pages behind it. */
  lemma HugeIff(mem: Memory, root: nat, f: nat, k: nat, p: nat, i: nat, q: nat)
    requires 2 <= k <= 4 && Prefix(k, p) && TableFor(mem, root, k, p) == Some(f)
    requires f in mem && |mem[f]| == ENTRIES && i < ENTRIES && q == 512 * p + i
    ensures TableFor(mem, root, k - 1, q) == if Points(mem[f][i], k) then Some(PtRebase(mem[f][i])) else None
    ensures k < 4 ==> (HugeBlock(mem, root, k, q) <==> IsPresent(mem[f][i]) && IsHuge(mem[f][i]))
  {
    assert q / 512 == p && q % 512 == i;
    if k < 4 {
      PrefixDown(k, p, i);
      var vpn := PageOfUnit(k, q);
      HugeThere(mem, root, f, k, p, i, vpn);
      forall v | 0 <= v < PAGES && Block(v, k - 1) == q
        ensures MappingOf(mem, root, v) == MappingOf(mem, root, vpn) || !(IsPresent(mem[f][i]) && IsHuge(mem[f][i]))
      {
        HugeThere(mem, root, f, k, p, i, v);
      }
    }
  }

  /** A page behind entry i is in a huge page of this level exactly when the entry says so. */
  lemma HugeThere(mem: Memory, root: nat, f: nat, k: nat, p: nat, i: nat, vpn: nat)
    requires 2 <= k <= 3 && TableFor(mem, root, k, p) == Some(f)
    requires f in mem && |mem[f]| == ENTRIES && i < ENTRIES && Block(vpn, k - 1) == 512 * p + i
    ensures var m := MappingOf(mem, root, vpn);
            if IsPresent(mem[f][i]) && IsHuge(mem[f][i]) then m == Mapped(mem[f][i], k)
            else m.Mapped? ==> m.level < k
  {
    assert Block(vpn, k) == p && Index(vpn, k) == i;
    WalkThrough(mem, root, vpn, k);
    if Points(mem[f][i], k) { LevelBelow(mem, PtRebase(mem[f][i]), vpn, k - 1); }
  }
}
