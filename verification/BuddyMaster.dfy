/**
 The allocator proper (MASTER_BUDDY in kernel/mm/buddy.c): a sorted table of regions, searched by
 bisection when a block comes back and scanned in order when one is asked for.
 */
module BuddyMaster {
  import opened Powers
  import opened Bits
  import opened Phys
  import opened BuddyBlocks
  import opened BuddyLayout
  import opened BuddyRegion
  import opened BuddyHandover

  /** PFRAME_MAX_REGIONS */
  const MAX_REGIONS: nat := 128

  // ---- tables of regions ----------------------------------------------------------------------

  /** Regions are sorted by address and do not overlap. */
  ghost predicate Sorted(t: seq<Region>)
  {
    && (forall i :: 0 <= i < |t| ==> t[i].Shape())
    && forall i, j {:trigger Before(t[i], t[j])} :: 0 <= i < j < |t| ==> Before(t[i], t[j])
  }

  ghost predicate Before(r: Region, q: Region) { r.rbase + 4096 * r.rpages <= q.rbase }

  /** The physical addresses that bisection and bound check attribute to a region. */
  ghost predicate Spans(r: Region, phy: nat) { r.rbase <= phy < r.mbase + 4096 * r.totalPages }

  /** [phy, phy + len) meets no region of the table. */
  ghost predicate Unclaimed(t: seq<Region>, phy: nat, len: nat)
  {
    forall i :: 0 <= i < |t| ==> phy + len <= t[i].rbase || t[i].rbase + 4096 * t[i].rpages <= phy
  }

  /** The abstract states of the regions of a table. */
  ghost function States(t: seq<Region>): (hs: seq<Heap>)
    reads t
    ensures |hs| == |t| && forall i :: 0 <= i < |t| ==> hs[i] == t[i].H()
  {
    seq(|t|, i requires 0 <= i < |t| reads t => t[i].H())
  }

  lemma StatesUpdated(t: seq<Region>, hs: seq<Heap>, k: nat)
    requires |hs| == |t| && k < |t| && forall i :: 0 <= i < |t| && i != k ==> t[i].H() == hs[i]
    ensures States(t) == hs[k := t[k].H()]
  {
  }

  function Inserted<T>(t: seq<T>, k: nat, r: T): seq<T>
    requires k <= |t|
  {
    t[..k] + [r] + t[k..]
  }

  lemma InsertedMembers<T>(t: seq<T>, k: nat, r: T)
    requires k <= |t|
    ensures forall q :: q in Inserted(t, k, r) <==> q in t || q == r
  {
    assert t == t[..k] + t[k..];
  }

  lemma SortedDistinct(t: seq<Region>)
    requires Sorted(t)
    ensures forall i, j :: 0 <= i < j < |t| ==> t[i] != t[j] && t[i].rbase < t[j].rbase
  {
    forall i, j | 0 <= i < j < |t| ensures t[i] != t[j] && t[i].rbase < t[j].rbase {
      assert Before(t[i], t[j]) && t[i].Shape();
    }
  }

  /** The last region that starts at or below an address is the only one that can hold it. */
  lemma OnlyTheLast(t: seq<Region>, phy: nat, k: int)
    requires Sorted(t) && -1 <= k < |t| && forall i :: 0 <= i < |t| ==> (t[i].rbase <= phy <==> i <= k)
    ensures forall i :: 0 <= i < |t| && Spans(t[i], phy) ==> i == k
  {
    forall i | 0 <= i < k ensures !Spans(t[i], phy) {
      assert Before(t[i], t[k]);
    }
  }

  lemma SortedInsert(t: seq<Region>, k: nat, r: Region)
    requires Sorted(t) && r.Shape() && k <= |t| && Unclaimed(t, r.rbase, 4096 * r.rpages)
    requires forall i :: 0 <= i < k ==> t[i].rbase <= r.rbase
    requires forall i :: k <= i < |t| ==> r.rbase < t[i].rbase
    ensures Sorted(Inserted(t, k, r))
  {
    var t' := Inserted(t, k, r);
    forall i | 0 <= i < |t'| ensures t'[i].Shape() {
      InsertedAt(t, k, r, i);
    }
    forall i, j | 0 <= i < j < |t'| ensures Before(t'[i], t'[j]) {
      InsertedAt(t, k, r, i);
      InsertedAt(t, k, r, j);
      if i != k && j != k { assert Before(t[if i < k then i else i - 1], t[if j < k then j else j - 1]); }
    }
  }

  lemma InsertedAt<T>(t: seq<T>, k: nat, r: T, i: nat)
    requires k <= |t| && i <= |t|
    ensures Inserted(t, k, r)[i] == if i < k then t[i] else if i == k then r else t[i - 1]
  {
  }

  lemma RoundedPages(offs: nat, len: nat)
    requires offs % 4096 == 0 && offs < len
    ensures AndNot(offs + (PAGESIZE - 1), PAGESIZE - 1) == offs
    ensures PageAlignDown(len) - offs == 4096 * (len / 4096 - offs / 4096)
  {
    DivModUnique(offs + 4095, 4096, offs / 4096, 4095);
    AlignDown(offs + 4095);
    AlignDown(len);
  }

  lemma ReservedPages(rpages: nat)
    ensures ReservedFor(rpages) % 4096 == 0
  {
    var q := (EndAfter(rpages, ORDERS) + 4095) / 4096;
    DivModUnique(ReservedFor(rpages), 4096, q, 0);
  }

  /** Memory that initialises to a region with usable pages whose buddies split and merge alike. */
  ghost predicate Usable(phy: nat, len: nat)
  {
    && phy % 4096 == 0 && phy + len <= PHYS_MAX
    && ReservedFor(len / 4096) < len
    && (phy + ReservedFor(len / 4096)) / 4096 % Pow2(MaxOrderFor(len / 4096)) == 0
  }

  /** A region has nothing of order req or above. */
  ghost predicate Exhausted(h: Heap, req: nat)
  {
    forall c :: c in h.free ==> c.ord < req
  }

  /** Region k popped b, its smallest block of sufficient order, and split it down to req; no other
      region changed. */
  ghost predicate AllocatedIn(hs: seq<Heap>, hs': seq<Heap>, k: nat, b: Block, req: nat)
  {
    && k < |hs| && Enabled(hs[k], Event.Alloc(b, req))
    && hs' == hs[k := Step(hs[k], Event.Alloc(b, req))]
    && Block(b.pfn, req) !in hs[k].out && hs'[k].out == hs[k].out + {Block(b.pfn, req)}
  }

  /** Block b of region k was released; no other region changed. */
  ghost predicate ReleasedIn(hs: seq<Heap>, hs': seq<Heap>, k: nat, b: Block)
  {
    && k < |hs| && b.Aligned() && b.ord <= TOP
    && hs' == hs[k := Release(hs[k], b)]
    && hs'[k].out == hs[k].out - {b}
  }

  /** The blocks that callers hold, with their regions. */
  ghost function Outstanding(hs: seq<Heap>): set<(nat, Block)>
  {
    set k: nat, b | k < |hs| && b in hs[k].out :: (k, b)
  }

  lemma OutstandingAllocated(hs: seq<Heap>, hs': seq<Heap>, k: nat, b: Block, req: nat, x: (nat, Block))
    requires AllocatedIn(hs, hs', k, b, req) && x == (k, Block(b.pfn, req))
    ensures x !in Outstanding(hs) && Outstanding(hs') == Outstanding(hs) + {x}
  {
  }

  lemma OutstandingReleased(hs: seq<Heap>, hs': seq<Heap>, k: nat, b: Block, x: (nat, Block))
    requires ReleasedIn(hs, hs', k, b) && x == (k, b)
    ensures Outstanding(hs') == Outstanding(hs) - {x}
  {
  }

  // ---- requests in bytes ----------------------------------------------------------------------

  /** kbud_byte_order */
  function ByteOrder(sz: nat): nat
  {
    var frames := (sz + PAGESIZE - 1) % U64 / 4096;
    if frames <= 1 then 0 else Log2(frames - 1) + 1
  }

  /** The order is the least one whose blocks hold n pages. */
  lemma LeastOrder(n: nat)
    requires n > 1
    ensures Pow2(Log2(n - 1)) < n <= Pow2(Log2(n - 1) + 1)
  {
    Log2Bounds(n - 1);
  }

  /** A request rounds up to the smallest sufficient block, up to the last page of the address
      space, beyond which the rounding wraps and every request becomes one page. */
  lemma RequestOrder(sz: nat)
    requires sz < U64
    ensures var ord := ByteOrder(PageAlignUp(sz));
            && (sz <= U64 - 4096 <==> sz <= 4096 * Pow2(ord))
            && (sz <= U64 - 4096 && ord > 0 ==> 4096 * Pow2(ord - 1) < sz)
  {
    if sz <= U64 - 4096 {
      AlignUp(sz);
      PageRequest(PageAlignUp(sz) / 4096);
    } else {
      AlignDown((sz + 4095) % U64);
    }
  }

  lemma PageRequest(pages: nat)
    requires 4096 * pages + 4096 <= U64
    ensures pages <= Pow2(ByteOrder(4096 * pages))
    ensures ByteOrder(4096 * pages) > 0 ==> Pow2(ByteOrder(4096 * pages) - 1) < pages
  {
    assert (4096 * pages + PAGESIZE - 1) % U64 / 4096 == pages;
    if pages > 1 { LeastOrder(pages); }
  }

  // ---- the allocator object -------------------------------------------------------------------

  class Master {
    const regions: array<Region?>    // null stands for the KPAGE_ERR terminator
    var count: nat                   // region_count
    ghost var table: seq<Region>     // the regions in use

    /** No region yet. */
    constructor ()
      ensures Valid() && count == 0 && table == []
    {
      regions := new Region?[MAX_REGIONS](_ => null);
      count, table := 0, [];
    }

    ghost predicate TableOk()
      reads this, regions
    {
      && regions.Length == MAX_REGIONS && count < MAX_REGIONS && |table| == count
      && (forall i :: 0 <= i < count ==> regions[i] == table[i])
      && regions[count] == null
    }

    ghost predicate Valid()
      reads this, regions, table
    {
      TableOk() && Sorted(table) && forall r :: r in table ==> r.Valid()
    }

    ghost function Heaps(): seq<Heap>
      reads this, table
    {
      States(table)
    }

    // ---- finding a region -----------------------------------------------------------------------

    /** Bisection for the last region that starts at or below phy (find_buddy_slave). */
    method FindBuddySlave(phy: nat) returns (s: Region?, ghost k: int)
      requires TableOk() && Sorted(table)
      ensures s == null <==> k == -1
      ensures -1 <= k < count && (k >= 0 ==> s == table[k])
      ensures forall i :: 0 <= i < count ==> (table[i].rbase <= phy <==> i <= k)
    {
      SortedDistinct(table);
      if count == 0 || count > MAX_REGIONS {
        return null, -1;
      }
      ghost var t := table;
      var lo, hi, owner := 0, count - 1, -1;
      while lo <= hi
        invariant 0 <= lo <= hi + 1 <= count && owner == lo - 1
        invariant forall i :: 0 <= i < lo ==> t[i].rbase <= phy
        invariant forall i :: hi < i < count ==> phy < t[i].rbase
        decreases hi - lo
      {
        var mid := (lo + hi) / 2;
        assert t[mid] == regions[mid];
        if regions[mid].rbase <= phy {
          owner := mid;
          lo := mid + 1;
        } else {
          hi := mid - 1;
        }
      }
      s := if owner != -1 then regions[owner] else null;
      k := owner;
    }

    /** find_valid_slave finds what a linear scan of the table would find. */
    method FindValidSlave(phy: nat) returns (s: Region?, ghost k: int)
      requires TableOk() && Sorted(table)
      ensures s != null ==> 0 <= k < count && s == table[k] && Spans(s, phy)
      ensures forall i :: 0 <= i < count && Spans(table[i], phy) ==> s == table[i] && k == i
    {
      s, k := FindBuddySlave(phy);
      OnlyTheLast(table, phy, k);
      if s == null || phy >= s.mbase + s.totalPages * PAGESIZE {
        s := null;
      }
    }

    // ---- growing the table ----------------------------------------------------------------------

    /** The insertion loop of kbud_add_region: opens a gap in front of every region above rbase. */
    method MakeRoom(rbase: nat) returns (k: nat)
      requires TableOk() && Sorted(table) && count + 1 < MAX_REGIONS
      modifies regions
      ensures k <= count
      ensures forall j :: 0 <= j < k ==> regions[j] == table[j] && table[j].rbase <= rbase
      ensures forall j :: k <= j < count ==> regions[j + 1] == table[j] && rbase < table[j].rbase
    {
      SortedDistinct(table);
      ghost var t := table;
      k := count;
      while k > 0 && regions[k - 1].rbase > rbase
        invariant 0 <= k <= count
        invariant forall j :: 0 <= j < k ==> regions[j] == t[j]
        invariant forall j :: k <= j < count ==> regions[j + 1] == t[j] && rbase < t[j].rbase
      {
        regions[k] := regions[k - 1];
        k := k - 1;
      }
    }

    method InsertRegion(r: Region) returns (ghost k: nat)
      requires TableOk() && Sorted(table) && count + 1 < MAX_REGIONS
      modifies this, regions
      ensures TableOk() && k <= old(count)
      ensures table == Inserted(old(table), k, r)
      ensures forall i :: 0 <= i < k ==> old(table)[i].rbase <= r.rbase
      ensures forall i :: k <= i < old(count) ==> r.rbase < old(table)[i].rbase
    {
      var i := MakeRoom(r.rbase);
      regions[i] := r;
      count := count + 1;
      regions[count] := null;
      table := Inserted(table, i, r);
      k := i;
    }

    /** kbud_add_region keeps the table sorted, terminated and without overlaps. */
    method AddRegion(phy: nat, len: nat) returns (r: Region, ghost k: nat)
      requires Valid() && count + 1 < MAX_REGIONS && Usable(phy, len) && Unclaimed(table, phy, len)
      modifies this, regions
      ensures fresh(r) && r.rbase == phy && r.rpages == len / 4096
      ensures r.mbase == phy + ReservedFor(len / 4096) && r.maxOrder == MaxOrderFor(len / 4096)
      ensures r.totalPages == len / 4096 - ReservedFor(len / 4096) / 4096
      ensures r.avail == r.out == r.accepted == {} && r.Valid()
      ensures forall q :: q in old(table) ==> q.Valid()
      ensures TableOk() && Sorted(table) && k <= old(count)
      ensures table == Inserted(old(table), k, r)
    {
      r := new Region(phy, len);
      k := InsertRegion(r);
      SortedInsert(old(table), k, r);
    }

    /** The header and the bitmaps, in whole pages. */
    method RoundedOffset(r: Region, len: nat) returns (offs: nat)
      requires r.rbase <= r.mbase < r.rbase + len && (r.mbase - r.rbase) % 4096 == 0
      requires r.totalPages == len / 4096 - (r.mbase - r.rbase) / 4096
      ensures offs == r.mbase - r.rbase && PageAlignDown(len) - offs == 4096 * r.totalPages
    {
      offs := AndNot(r.mbase - r.rbase + (PAGESIZE - 1), PAGESIZE - 1);
      RoundedPages(r.mbase - r.rbase, len);
    }

    /** The hand-over of one region does not concern the others. */
    method HandOverBeside(r: Region, phys: nat, size: nat, ghost others: seq<Region>)
      requires r.Consistent() && r.avail == r.out == r.accepted == {}
      requires phys == r.mbase > 0 && size == 4096 * r.totalPages
      requires r !in others && forall q :: q in others ==> q.Valid()
      modifies r
      ensures r.accepted == r.avail == Taken(r, Greedy(r.mbase / 4096, 0, r.totalPages, r.maxOrder)) && r.out == {}
      ensures r.Valid() <==> Restorable(r.maxOrder, r.totalPages)
      ensures forall q :: q in others ==> q.Valid()
    {
      HandOver(r, phys, size);
    }

    /** kbud_free_range on memory that no region owns yet: the new region's accepted blocks are the
        greedy cut, and the allocator is sound with it exactly when the region is restorable. */
    method FreeRange(vaddr: nat, len: nat) returns (r: Region?, ghost k: nat)
      requires Valid() && count + 1 < MAX_REGIONS
      requires var phy := PageAlignDown(VirtToPhys(vaddr));
               Usable(phy, len) && Unclaimed(table, phy, len)
      modifies this, regions
      ensures r != null && fresh(r) && k <= old(count)
      ensures TableOk() && table == Inserted(old(table), k, r)
      ensures r.rbase == PageAlignDown(VirtToPhys(vaddr)) && r.Shape() && r.out == {}
      ensures r.accepted == r.avail == Taken(r, Greedy(r.mbase / 4096, 0, r.totalPages, r.maxOrder))
      ensures Valid() <==> Restorable(r.maxOrder, r.totalPages)
    {
      var phys := PageAlignDown(VirtToPhys(vaddr));
      var s, i := FindValidSlave(phys);
      if s != null {
        assert false;
      }
      r, k := AddRegion(phys, len);
      ReservedPages(len / 4096);
      var offs := RoundedOffset(r, len);
      HandOverBeside(r, phys + offs, PageAlignDown(len) - offs, old(table));
      InsertedMembers(old(table), k, r);
    }

    // ---- allocation -----------------------------------------------------------------------------

    /** One turn of the region loop of kbud_alloc. */
    method TryRegion(i: nat, req: nat) returns (addr: nat, ghost b: Block)
      requires Valid() && i < count && req <= TOP
      modifies table[i]
      ensures Valid()
      ensures addr == KPAGE_ERR <==> Exhausted(old(Heaps())[i], req)
      ensures addr == KPAGE_ERR ==> Heaps() == old(Heaps())
      ensures addr != KPAGE_ERR ==> AllocatedIn(old(Heaps()), Heaps(), i, b, req) && addr == table[i].Virt(b.pfn)
    {
      SortedDistinct(table);
      ghost var t, hs := table, Heaps();
      var s := regions[i];
      assert s == t[i];
      addr, b := s.AllocFrom(req);
      assert forall j :: 0 <= j < count && j != i ==> t[j] != s;
      if addr == KPAGE_ERR {
        assert Heaps() == hs;
      } else {
        assert b in hs[i].free;
        StatesUpdated(t, hs, i);
        StepKeepsInv(s.accepted, hs[i], Event.Alloc(b, req));
      }
    }

    /** kbud_alloc: refuses exactly when no region has a block of order req or above; otherwise the
        first region that has one gives up its smallest such block. */
    method Alloc(req: nat) returns (addr: nat, ghost k: nat, ghost b: Block)
      requires Valid()
      modifies table
      ensures Valid() && table == old(table)
      ensures addr == KPAGE_ERR <==> req > TOP || forall i :: 0 <= i < count ==> Exhausted(old(Heaps())[i], req)
      ensures addr == KPAGE_ERR ==> Heaps() == old(Heaps())
      ensures addr != KPAGE_ERR ==>
                && k < count && addr == table[k].Virt(b.pfn)
                && (forall i :: 0 <= i < k ==> Exhausted(old(Heaps())[i], req))
                && AllocatedIn(old(Heaps()), Heaps(), k, b, req)
    {
      k, b := 0, Block(0, 0);
      if req > TOP {
        return KPAGE_ERR, k, b;
      }
      ghost var hs := Heaps();
      var i := 0;
      while i < count
        invariant 0 <= i <= count && Valid() && Heaps() == hs
        invariant forall j :: 0 <= j < i ==> Exhausted(hs[j], req)
      {
        addr, b := TryRegion(i, req);
        if addr != KPAGE_ERR {
          k := i;
          return;
        }
        i := i + 1;
      }
      addr := KPAGE_ERR;
    }

    /** kbud_alloc_range repeats the region loop of kbud_alloc for the order of a byte count. */
    method AllocRange(sz: nat) returns (addr: nat, ghost k: nat, ghost b: Block)
      requires Valid() && sz < U64
      modifies table
      ensures Valid() && table == old(table)
      ensures var req := ByteOrder(PageAlignUp(sz));
              && (addr == KPAGE_ERR <==>
                  req > TOP || forall i :: 0 <= i < count ==> Exhausted(old(Heaps())[i], req))
              && (addr == KPAGE_ERR ==> Heaps() == old(Heaps()))
              && (addr != KPAGE_ERR ==>
                    && k < count && addr == table[k].Virt(b.pfn)
                    && (forall i :: 0 <= i < k ==> Exhausted(old(Heaps())[i], req))
                    && AllocatedIn(old(Heaps()), Heaps(), k, b, req))
    {
      var req := ByteOrder(PageAlignUp(sz));
      addr, k, b := Alloc(req);
    }

    // ---- release --------------------------------------------------------------------------------

    /** The caller holds block b of region k, at vaddr. */
    ghost predicate Held(k: nat, b: Block, vaddr: nat)
      requires TableOk()
      reads this, regions, table
    {
      k < count && b in Heaps()[k].out && vaddr == table[k].Virt(b.pfn)
    }

    ghost predicate Foreign(vaddr: nat)
      requires TableOk()
      reads this, regions
    {
      forall i :: 0 <= i < count ==> !Spans(table[i], VirtToPhys(vaddr))
    }

    /** kbud_free: an address in no region is ignored, a held block is released where it belongs. */
    method Free(vaddr: nat, order: nat, ghost k: nat, ghost b: Block)
      requires Valid() && (Foreign(vaddr) || (Held(k, b, vaddr) && order == b.ord))
      modifies table
      ensures Valid() && table == old(table)
      ensures old(Foreign(vaddr)) ==> Heaps() == old(Heaps())
      ensures !old(Foreign(vaddr)) ==> ReleasedIn(old(Heaps()), Heaps(), k, b)
    {
      var phy := VirtToPhys(vaddr);
      if Held(k, b, vaddr) {
        HeldIsSpanned(k, b);
      }
      var s, i := FindValidSlave(phy);
      if s == null {
        return;
      }
      FreeIn(s, phy, order, i, b);
    }

    method FreeIn(s: Region, phy: nat, order: nat, ghost k: nat, ghost b: Block)
      requires Valid() && k < count && s == table[k]
      requires b in s.out && order == b.ord && phy == s.mbase + 4096 * b.pfn
      modifies s
      ensures Valid() && ReleasedIn(old(Heaps()), Heaps(), k, b)
    {
      SortedDistinct(table);
      ghost var t, hs := table, Heaps();
      s.FreeBlock(phy, order, b);
      assert forall j :: 0 <= j < count && j != k ==> t[j] != s;
      StatesUpdated(t, hs, k);
      ReleaseKeepsInv(s.accepted, hs[k], b);
    }

    lemma HeldIsSpanned(k: nat, b: Block)
      requires Valid() && k < count && b in Heaps()[k].out
      ensures Spans(table[k], table[k].mbase + 4096 * b.pfn)
      ensures VirtToPhys(table[k].Virt(b.pfn)) == table[k].mbase + 4096 * b.pfn
    {
      var r := table[k];
      assert r in table;
      assert b in r.avail + r.out;
      r.InRange(b);
      r.PfNumOf(b.pfn, r.mbase + 4096 * b.pfn);
    }

    // ---- what callers hold ----------------------------------------------------------------------

    /** Blocks held by callers are naturally aligned in virtual memory. */
    lemma HeldAligned(k: nat, b: Block, v: nat)
      requires Valid() && Held(k, b, v)
      ensures b.ord <= TOP && v % (4096 * Pow2(b.ord)) == 0 && v > 0
      ensures PHMMAP <= v && v + 4096 * Pow2(b.ord) <= PHMMAP + PHYS_MAX
    {
      var r := table[k];
      assert r in table;
      assert b in r.avail + r.out;
      r.InRange(b);
      ModPow2Down(r.mbase / 4096, b.ord, r.maxOrder);
      assert Pow2(10) == 1024 by { Pow2Add(5, 5); assert Pow2(5) == 32; }
      ModPow2Down(PHMMAP / 4096, b.ord, 10);
      AlignedSum(PHMMAP / 4096, r.mbase / 4096, b.pfn, b.Size());
    }

    /** Different held blocks do not overlap, within a region or across regions, and lie between the
        header and bitmaps and the end of their region. */
    lemma HeldApart(k: nat, b: Block, v: nat, k': nat, b': Block, v': nat)
      requires Valid() && Held(k, b, v) && Held(k', b', v') && (k != k' || b != b')
      ensures v + 4096 * b.Size() <= v' || v' + 4096 * b'.Size() <= v
    {
      HeldInside(k, b, v);
      HeldInside(k', b', v');
      if k == k' {
        assert b in table[k].avail + table[k].out && b' in table[k].avail + table[k].out;
        assert table[k] in table;
        assert b.Apart(b');
      } else if k < k' {
        assert Before(table[k], table[k']);
      } else {
        assert Before(table[k'], table[k]);
      }
    }

    lemma HeldInside(k: nat, b: Block, v: nat)
      requires Valid() && Held(k, b, v)
      ensures var r := table[k];
              PHMMAP + r.mbase <= v && v + 4096 * b.Size() <= PHMMAP + r.rbase + 4096 * r.rpages
    {
      var r := table[k];
      assert r in table;
      assert b in r.avail + r.out;
      r.InRange(b);
    }
  }

  lemma AlignedSum(a: nat, m: nat, p: nat, d: nat)
    requires d > 0 && a % d == 0 && m % d == 0 && p % d == 0
    ensures (4096 * (a + m + p)) % (4096 * d) == 0
  {
    var x, y, z := a / d, m / d, p / d;
    assert a + m + p == (x + y + z) * d by { MulDistr(x, y, d); MulDistr(x + y, z, d); }
    assert 4096 * (a + m + p) == (x + y + z) * (4096 * d) by { MulAssoc(x + y + z, 4096, d); }
    DivModUnique(4096 * (a + m + p), 4096 * d, x + y + z, 0);
  }
}
