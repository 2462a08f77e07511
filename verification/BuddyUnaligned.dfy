/**
 The page allocator on a region whose first usable frame is not aligned, step by step as kernel/mm/buddy.c
 does it: a run of legal calls after which one page has two holders and another has none.
 */
module BuddyUnaligned {
  import opened Powers
  import opened Bits
  import opened Phys
  import opened BuddyBlocks
  import opened BuddyLayout
  import opened BuddyRegion
  import opened BuddyHandover
  import opened BuddyLimits

  /** First usable frame, maximal order, pages of the region, usable pages. */
  datatype Frame = Frame(m: nat, maxOrder: nat, rpages: nat, total: nat)
  {
    function Phys(pfn: nat): nat { 4096 * (m + pfn) }

    /** kbud_pfnum */
    function PfNum(phy: nat): nat { (phy - 4096 * m) % U64 / 4096 }
  }

  /** The free blocks, and the bitmap bits that are set, by order and pair. */
  datatype Raw = Raw(free: set<Block>, bits: set<(nat, nat)>)

  function BitOf(b: Block): (nat, nat) { (b.ord, PairIdx(b.pfn, b.ord)) }

  /** kbud_push */
  function PushRaw(f: Frame, r: Raw, phy: nat, ord: nat): Raw
  {
    var b := Block(f.PfNum(phy), ord);
    if Chk(f.maxOrder, f.rpages, b) then Raw(r.free + {b}, r.bits + {BitOf(b)}) else r
  }

  lemma PfNumIs(f: Frame, p: nat, phy: nat)
    requires phy == f.Phys(p) && p < 0x8_0000_0000
    ensures f.PfNum(phy) == p
  {
  }

  lemma PushIs(f: Frame, r: Raw, p: nat, ord: nat, phy: nat)
    requires phy == f.Phys(p) && p < 0x8_0000_0000
    ensures var b := Block(p, ord);
            PushRaw(f, r, phy, ord) ==
            if Chk(f.maxOrder, f.rpages, b) then Raw(r.free + {b}, r.bits + {BitOf(b)}) else r
  {
    PfNumIs(f, p, phy);
  }

  /** kbud_pop and kbud_pop_head */
  function PopRaw(r: Raw, b: Block): Raw { Raw(r.free - {b}, r.bits - {BitOf(b)}) }

  /** The loop of kbud_free_range from page pos on. */
  function HandRaw(f: Frame, r: Raw, pos: nat): Raw
    requires f.m > 0
    decreases f.total - pos
  {
    if pos >= f.total then r
    else
      var ord := CutOrder(f.m, pos, f.total, f.maxOrder);
      HandRaw(f, PushRaw(f, r, f.Phys(pos), ord), pos + Pow2(ord))
  }

  /** The split loop of kbud_alloc. */
  function SplitRaw(f: Frame, r: Raw, pfn: nat, ord: nat, req: nat): Raw
    decreases ord
  {
    if ord <= req then r
    else SplitRaw(f, PushRaw(f, r, Xor(f.Phys(pfn), Shl(PAGESIZE, ord - 1)), ord - 1), pfn, ord - 1, req)
  }

  /** The order search of kbud_alloc finds the order of b. */
  ghost predicate Found(r: Raw, b: Block, req: nat)
  {
    b in r.free && req <= b.ord && forall c :: c in r.free && req <= c.ord ==> b.ord <= c.ord
  }

  /** kbud_alloc, once b is at the head of the list the search finds. */
  function AllocRaw(f: Frame, r: Raw, b: Block, req: nat): Raw
  {
    SplitRaw(f, PopRaw(r, b), b.pfn, b.ord, req)
  }

  /** kbud_free from order k on. */
  function FreeRaw(f: Frame, r: Raw, pfn: nat, k: nat): Raw
    decreases TOP - k
  {
    var buddy := Block(Xor(pfn, Shl(1, k)), k);
    if k < TOP && buddy.pfn < f.total && Chk(f.maxOrder, f.rpages, buddy) && BitOf(buddy) in r.bits
    then FreeRaw(f, PopRaw(r, buddy), AndNot(pfn, Shl(1, k)), k + 1)
    else PushRaw(f, r, f.Phys(pfn), k)
  }

  // ---- a region of five pages at an even frame --------------------------------------------------------

  /** Its header and bitmaps take one page, so that the first usable frame is odd. */
  function Five(m: nat): Frame { Frame(m, 1, 5, 4) }

  lemma FivePages(rbase: nat, rpages: nat)
    requires rbase % 8192 == 0 && rpages == 5
    ensures ReservedFor(rpages) == 4096 && MaxOrderFor(rpages) == 1
    ensures (rbase + ReservedFor(rpages)) / 4096 % 2 == 1
  {
    Pairs(rpages);
    OnePage(rpages);
    LogFive(rpages);
    OddFrame(rbase, ReservedFor(rpages));
  }

  /** A bitmap of one byte takes one line of 64 bytes. */
  lemma OneLine(rpages: nat, i: nat, bits: nat)
    requires bits == PairIdx(rpages, i) && 0 < bits <= 8
    ensures EndAfter(rpages, i + 1) == EndAfter(rpages, i) + 64
  {
    var bytes := (bits + 7) / 8;
    assert Pow2(6) == 64 by { Pow2Add(3, 3); assert Pow2(3) == 8; }
    AndNotMask(bytes + 63, 6);
  }

  lemma TwoLines(rpages: nat, i: nat, j: nat, k: nat, orders: nat)
    requires i == 0 && j == i + 1 && k == j + 1 && k <= orders
    requires 0 < PairIdx(rpages, i) <= 8 && 0 < PairIdx(rpages, j) <= 8 && PairIdx(rpages, k) == 0
    ensures EndAfter(rpages, orders) == HEADER + 128
  {
    OneLine(rpages, i, PairIdx(rpages, i));
    OneLine(rpages, j, PairIdx(rpages, j));
    EndStays(rpages, k, orders);
  }

  lemma OnePage(rpages: nat)
    requires 0 < PairIdx(rpages, 0) <= 8 && 0 < PairIdx(rpages, 1) <= 8 && PairIdx(rpages, 2) == 0
    ensures ReservedFor(rpages) == 4096
  {
    TwoLines(rpages, 0, 1, 2, ORDERS);
    WholePage(EndAfter(rpages, ORDERS));
  }

  lemma LogFive(n: nat)
    requires n == 5
    ensures Log2(n) == 2
  {
  }

  lemma OddFrame(rbase: nat, offs: nat)
    requires rbase % 8192 == 0 && offs == 4096
    ensures (rbase + offs) / 4096 % 2 == 1
  {
    var d := rbase / 8192;
    assert (8192 * d + 4096) / 4096 == 2 * d + 1;
  }

  lemma WholePage(n: nat)
    requires 0 < n <= 4096
    ensures PageCeil(n) == 4096
  {
  }

  lemma Pairs(p: nat)
    requires p <= 5
    ensures PairIdx(p, 0) == p / 2 && PairIdx(p, 1) == p / 4 && PairIdx(p, 2) == 0
  {
    assert Pow2(1) == 2 && Pow2(2) == 4 && Pow2(3) == 8;
  }

  lemma PfNumBack(f: Frame, p: nat)
    requires p < 8
    ensures f.PfNum(f.Phys(p)) == p
  {
  }

  // ---- single steps -----------------------------------------------------------------------------------

  /** Which blocks of the region pass the bitmap check, and their bits. */
  lemma Checked(f: Frame, p: nat, ord: nat)
    requires p < 4 && ord <= 1 && f.maxOrder == 1 && f.rpages == 5
    ensures Chk(f.maxOrder, f.rpages, Block(p, ord)) && BitOf(Block(p, ord)) == (ord, if ord == 0 then p / 2 else 0)
  {
    Pairs(p);
    Pairs(f.rpages);
  }

  lemma Pushed(m: nat, r: Raw, p: nat, ord: nat, phy: nat)
    requires p < 4 && ord <= 1 && phy == Five(m).Phys(p)
    ensures PushRaw(Five(m), r, phy, ord) ==
            Raw(r.free + {Block(p, ord)}, r.bits + {(ord, if ord == 0 then p / 2 else 0)})
  {
    PfNumBack(Five(m), p);
    Checked(Five(m), p, ord);
  }

  lemma Popped(r: Raw, p: nat, ord: nat)
    requires p < 4 && ord <= 1
    ensures PopRaw(r, Block(p, ord)) == Raw(r.free - {Block(p, ord)}, r.bits - {(ord, if ord == 0 then p / 2 else 0)})
  {
    Checked(Five(0), p, ord);
  }

  lemma OtherHalf(m: nat, p: nat, q: nat)
    requires m % 2 == 1 && 0 < p < 4 && q == (if p % 2 == 1 then p + 1 else p - 1)
    ensures Xor(Five(m).Phys(p), Shl(PAGESIZE, 0)) == Five(m).Phys(q)
  {
    Neighbour(m + p, m + q, m, p, q);
    OtherPage(m + p, m + q, 0, Five(m).Phys(p), Five(m).Phys(q));
  }

  lemma Neighbour(n: nat, n': nat, m: nat, p: nat, q: nat)
    requires m % 2 == 1 && p > 0 && q == (if p % 2 == 1 then p + 1 else p - 1) && n == m + p && n' == m + q
    ensures n' == if n % 2 == 0 then n + 1 else n - 1
  {
  }

  lemma OtherPage(n: nat, n': nat, k: nat, a: nat, a': nat)
    requires k == 0 && n' == (if n % 2 == 0 then n + 1 else n - 1) && a == 4096 * n && a' == 4096 * n'
    ensures Xor(a, Shl(PAGESIZE, k)) == a'
  {
    XorScaled(n, k);
  }

  /** A block of two pages is split: the other half is above an odd page and below an even one. */
  lemma SplitPair(m: nat, r: Raw, p: nat, q: nat)
    requires m % 2 == 1 && 0 < p < 4 && q == (if p % 2 == 1 then p + 1 else p - 1) && q < 4
    ensures AllocRaw(Five(m), r, Block(p, 1), 0) ==
            Raw(r.free - {Block(p, 1)} + {Block(q, 0)}, r.bits - {(1, 0)} + {(0, q / 2)})
  {
    var f, r1 := Five(m), PopRaw(r, Block(p, 1));
    Popped(r, p, 1);
    var phy := Xor(f.Phys(p), Shl(PAGESIZE, 0));
    OtherHalf(m, p, q);
    Pushed(m, r1, q, 0, phy);
    var r2 := PushRaw(f, r1, phy, 0);
    assert SplitRaw(f, r1, p, 1, 0) == SplitRaw(f, r2, p, 0, 0) == r2;
  }

  lemma TakePage(m: nat, r: Raw, p: nat)
    requires p < 4
    ensures AllocRaw(Five(m), r, Block(p, 0), 0) == Raw(r.free - {Block(p, 0)}, r.bits - {(0, p / 2)})
  {
    Popped(r, p, 0);
  }

  lemma BuddyOf(p: nat, ord: nat)
    requires p < 4 && ord <= 1 && p % Pow2(ord) == 0
    ensures ord == 0 ==> Xor(p, Shl(1, ord)) == (if p % 2 == 0 then p + 1 else p - 1)
    ensures ord == 1 ==> Xor(p, Shl(1, ord)) == (if p == 0 then 2 else 0)
    ensures ord == 0 ==> AndNot(p, Shl(1, ord)) == p - p % 2
  {
    XorBit(p, ord);
    AndNotBit(p, ord);
  }

  /** A page comes back alone: the bit of its pair is clear. */
  lemma GivePage(m: nat, r: Raw, p: nat)
    requires p < 4 && (0, p / 2) !in r.bits
    ensures FreeRaw(Five(m), r, p, 0) == Raw(r.free + {Block(p, 0)}, r.bits + {(0, p / 2)})
  {
    var q := if p % 2 == 0 then p + 1 else p - 1;
    BuddyOf(p, 0);
    Checked(Five(m), q, 0);
    Pushed(m, r, p, 0, Five(m).Phys(p));
  }

  /** A page comes back after its buddy by page number: they merge, and the merged pair stays alone. */
  lemma GivePair(m: nat, r: Raw, p: nat)
    requires p < 4 && p % 2 == 1 && (0, p / 2) in r.bits && (1, 0) !in r.bits
    ensures FreeRaw(Five(m), r, p, 0) ==
            Raw(r.free - {Block(p - 1, 0)} + {Block(p - 1, 1)}, r.bits - {(0, p / 2)} + {(1, 0)})
  {
    var f, up := Five(m), p - 1;
    BuddyOf(p, 0);
    Checked(f, up, 0);
    var r1 := PopRaw(r, Block(up, 0));
    Popped(r, up, 0);
    assert FreeRaw(f, r, p, 0) == FreeRaw(f, r1, up, 1);
    assert up % Pow2(1) == 0;
    BuddyOf(up, 1);
    Checked(f, if up == 0 then 2 else 0, 1);
    Pushed(m, r1, up, 1, f.Phys(up));
  }

  /** The hand-over cuts by physical alignment: page 0, the pair of pages 1 and 2, page 3. */
  lemma HandOverCuts(m: nat)
    requires m % 2 == 1
    ensures HandRaw(Five(m), Raw({}, {}), 0) ==
            Raw({Block(0, 0), Block(1, 1), Block(3, 0)}, {(0, 0), (1, 0), (0, 1)})
  {
    var f := Five(m);
    assert CutOrder(m, 0, 4, 1) == 0 && CutOrder(m, 1, 4, 1) == 1 && CutOrder(m, 3, 4, 1) == 0 by { CutsOf(m); }
    assert Pow2(0) == 1 && Pow2(1) == 2;
    var r0 := Raw({}, {});
    Pushed(m, r0, 0, 0, f.Phys(0));
    var r1 := PushRaw(f, r0, f.Phys(0), 0);
    Pushed(m, r1, 1, 1, f.Phys(1));
    var r2 := PushRaw(f, r1, f.Phys(1), 1);
    Pushed(m, r2, 3, 0, f.Phys(3));
    var r3 := PushRaw(f, r2, f.Phys(3), 0);
    assert HandRaw(f, r0, 0) == HandRaw(f, r1, 1) == HandRaw(f, r2, 3) == HandRaw(f, r3, 4) == r3;
  }

  lemma CutsOf(m: nat)
    requires m % 2 == 1
    ensures CutOrder(m, 0, 4, 1) == 0 && CutOrder(m, 1, 4, 1) == 1 && CutOrder(m, 3, 4, 1) == 0
  {
    assert Ctz(m) == 0 && Ctz(m + 1) >= 1;
    assert Log2(3) == 1 && Log2(1) == 0;
  }

  // ---- the run ----------------------------------------------------------------------------------------

  /** The region and the pages that callers hold, with their number of holders. */
  datatype Now = Now(r: Raw, held: multiset<nat>)

  function Take(m: nat, s: Now, b: Block): Now { Now(AllocRaw(Five(m), s.r, b, 0), s.held + multiset{b.pfn}) }

  function Give(m: nat, s: Now, p: nat): Now { Now(FreeRaw(Five(m), s.r, p, 0), s.held - multiset{p}) }

  /** All four pages are taken, one by one. */
  lemma AllTakenOnce(m: nat) returns (s0: Now, s4: Now)
    requires m > 0 && m % 2 == 1
    ensures s0 == Now(HandRaw(Five(m), Raw({}, {}), 0), multiset{})
    ensures Found(s0.r, Block(3, 0), 0)
    ensures var s1 := Take(m, s0, Block(3, 0)); Found(s1.r, Block(0, 0), 0)
    ensures var s2 := Take(m, Take(m, s0, Block(3, 0)), Block(0, 0)); Found(s2.r, Block(1, 1), 0)
    ensures var s3 := Take(m, Take(m, Take(m, s0, Block(3, 0)), Block(0, 0)), Block(1, 1)); Found(s3.r, Block(2, 0), 0)
    ensures s4 == Take(m, Take(m, Take(m, Take(m, s0, Block(3, 0)), Block(0, 0)), Block(1, 1)), Block(2, 0))
    ensures s4 == Now(Raw({}, {}), multiset{0, 1, 2, 3})
  {
    HandOverCuts(m);
    s0 := Now(HandRaw(Five(m), Raw({}, {}), 0), multiset{});
    TakePage(m, s0.r, 3);
    var s1 := Take(m, s0, Block(3, 0));
    assert s1.r == Raw({Block(0, 0), Block(1, 1)}, {(0, 0), (1, 0)});
    TakePage(m, s1.r, 0);
    var s2 := Take(m, s1, Block(0, 0));
    assert s2.r == Raw({Block(1, 1)}, {(1, 0)});
    SplitPair(m, s2.r, 1, 2);
    var s3 := Take(m, s2, Block(1, 1));
    assert s3.r == Raw({Block(2, 0)}, {(0, 1)});
    TakePage(m, s3.r, 2);
    s4 := Take(m, s3, Block(2, 0));
    assert s4.r == Raw({}, {});
  }

  /** Pages 2 and 3 come back and merge. The next two allocations then hand out page 2 and, for the second
      time, page 1; page 3 is neither free nor held. */
  lemma PageTwice(m: nat, s4: Now)
    requires m % 2 == 1 && s4 == Now(Raw({}, {}), multiset{0, 1, 2, 3})
    ensures var s6 := Give(m, Give(m, s4, 2), 3);
            && Found(s6.r, Block(2, 1), 0)
            && var s7 := Take(m, s6, Block(2, 1));
               && Found(s7.r, Block(1, 0), 0)
               && Take(m, s7, Block(1, 0)) == Now(Raw({}, {}), multiset{0, 1, 1, 2})
  {
    GivePage(m, s4.r, 2);
    var s5 := Give(m, s4, 2);
    assert s5.r == Raw({Block(2, 0)}, {(0, 1)});
    GivePair(m, s5.r, 3);
    var s6 := Give(m, s5, 3);
    assert s6.r == Raw({Block(2, 1)}, {(1, 0)});
    SplitPair(m, s6.r, 2, 1);
    var s7 := Take(m, s6, Block(2, 1));
    assert s7.r == Raw({Block(1, 0)}, {(0, 0)});
    TakePage(m, s7.r, 1);
    assert Take(m, s7, Block(1, 0)).r == Raw({}, {});
  }
}
