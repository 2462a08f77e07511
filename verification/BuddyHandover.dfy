/**
 Handing a fresh region's pages to its free lists (the loop of kbud_free_range): a greedy cut into
 the largest aligned blocks, and exactly when that cut can be restored by later merges.
 */
module BuddyHandover {
  import opened Powers
  import opened Bits
  import opened Phys
  import opened BuddyBlocks
  import opened BuddyLayout
  import opened BuddyRegion

  /** The order chosen at page `pos` of `total`, `m` being the frame number of page 0. */
  function CutOrder(m: nat, pos: nat, total: nat, maxOrder: nat): nat
    requires m > 0 && pos < total
  {
    Min(maxOrder, Min(TOP, Min(Log2(total - pos), Ctz(m + pos))))
  }

  function Cut(m: nat, pos: nat, total: nat, maxOrder: nat): Block
    requires m > 0 && pos < total
  {
    Block(pos, CutOrder(m, pos, total, maxOrder))
  }

  /** All blocks the loop cuts from page `pos` on. */
  function Greedy(m: nat, pos: nat, total: nat, maxOrder: nat): set<Block>
    requires m > 0
    decreases total - pos
  {
    if pos >= total then {}
    else
      var b := Cut(m, pos, total, maxOrder);
      {b} + Greedy(m, b.End(), total, maxOrder)
  }

  /** No larger block would have been possible. */
  predicate Maximal(b: Block, total: nat, maxOrder: nat)
  {
    b.ord == maxOrder || b.pfn % Pow2(b.ord + 1) != 0 || b.pfn + Pow2(b.ord + 1) > total
  }

  lemma CutIsMaximal(m: nat, pos: nat, total: nat, maxOrder: nat)
    requires m > 0 && pos < total && maxOrder <= TOP && m % Pow2(maxOrder) == 0
    ensures var b := Cut(m, pos, total, maxOrder);
            b.Aligned() && b.ord <= maxOrder && b.End() <= total && Maximal(b, total, maxOrder)
  {
    var b := Cut(m, pos, total, maxOrder);
    Log2Bounds(total - pos);
    Pow2Monotone(b.ord, Log2(total - pos));
    AlignedAt(m, pos, b.ord, maxOrder);
    if b.ord < maxOrder && b.ord != Log2(total - pos) {
      AlignedAt(m, pos, b.ord + 1, maxOrder);
    }
  }

  /** Page pos is aligned to order k exactly when its physical address shows k trailing zeroes. */
  lemma AlignedAt(m: nat, pos: nat, k: nat, maxOrder: nat)
    requires m > 0 && m % Pow2(maxOrder) == 0 && k <= maxOrder
    ensures pos % Pow2(k) == 0 <==> k <= Ctz(m + pos)
  {
    CtzDivides(m + pos, k);
    ModPow2Down(m, k, maxOrder);
    ModDifference(m, pos, Pow2(k));
  }

  /** Shifting by a multiple of d keeps divisibility by d. */
  lemma ModDifference(m: nat, p: nat, d: nat)
    requires d > 0 && m % d == 0
    ensures (m + p) % d == p % d
  {
    var a, q, r := m / d, p / d, p % d;
    assert m + p == (a + q) * d + r by { MulDistr(a, q, d); }
    DivModUnique(m + p, d, a + q, r);
  }

  /** The cut tiles the pages from `pos` to `total` with aligned, pairwise disjoint maximal blocks. */
  lemma {:induction false} GreedyTiles(m: nat, pos: nat, total: nat, maxOrder: nat)
    requires m > 0 && maxOrder <= TOP && m % Pow2(maxOrder) == 0
    ensures var g := Greedy(m, pos, total, maxOrder);
            && AllAligned(g) && Disjoint(g)
            && (forall b :: b in g ==>
                  pos <= b.pfn && b.End() <= total && b.ord <= maxOrder && Maximal(b, total, maxOrder))
            && (forall p: nat :: pos <= p < total ==> Covers(g, p))
    decreases total - pos
  {
    if pos < total {
      CutIsMaximal(m, pos, total, maxOrder);
      var b := Cut(m, pos, total, maxOrder);
      GreedyTiles(m, b.End(), total, maxOrder);
      var rest := Greedy(m, b.End(), total, maxOrder);
      forall p: nat | pos <= p < total ensures Covers({b} + rest, p) {
        if b.Has(p) {
          assert b in {b} + rest;
        } else {
          assert Covers(rest, p);
          var c :| c in rest && c.Has(p);
          assert c in {b} + rest;
        }
      }
    }
  }

  /** The cut never holds two buddies below the top order, unless they are of the region's own,
      smaller, maximal order. */
  lemma GreedyBuddies(m: nat, total: nat, maxOrder: nat, b: Block)
    requires m > 0 && maxOrder <= TOP && m % Pow2(maxOrder) == 0
    requires b in Greedy(m, 0, total, maxOrder)
    ensures b.Aligned()
    ensures b.Buddy() in Greedy(m, 0, total, maxOrder) ==>
              b.ord == maxOrder && Pow2(maxOrder + 1) <= total
  {
    GreedyTiles(m, 0, total, maxOrder);
    if b.Buddy() in Greedy(m, 0, total, maxOrder) { MaximalPair(b, total, maxOrder); }
  }

  /** Of two buddies the lower one could have been larger, below the maximal order. */
  lemma MaximalPair(b: Block, total: nat, maxOrder: nat)
    requires b.Aligned() && b.End() <= total && b.Buddy().End() <= total
    requires Maximal(b, total, maxOrder) && Maximal(b.Buddy(), total, maxOrder)
    ensures b.ord == maxOrder && Pow2(maxOrder + 1) <= total
  {
    Family(b);
    var up := b.Parent();
    var left := if b.IsLeft() then b else b.Buddy();
    assert left.pfn == up.pfn && up.pfn % Pow2(b.ord + 1) == 0 && up.pfn + Pow2(b.ord + 1) <= total;
    assert Maximal(left, total, maxOrder);
  }

  /** The two lowest blocks of a region with at least two blocks of its maximal order. */
  lemma GreedyStart(m: nat, total: nat, maxOrder: nat)
    requires m > 0 && maxOrder <= TOP && m % Pow2(maxOrder) == 0 && Pow2(maxOrder + 1) <= total
    ensures Block(0, maxOrder) in Greedy(m, 0, total, maxOrder)
    ensures Block(Pow2(maxOrder), maxOrder) in Greedy(m, 0, total, maxOrder)
  {
    CutAtMultiple(m, 0, total, maxOrder);
    CutAtMultiple(m, Pow2(maxOrder), total, maxOrder);
  }

  lemma CutAtMultiple(m: nat, pos: nat, total: nat, maxOrder: nat)
    requires m > 0 && maxOrder <= TOP && m % Pow2(maxOrder) == 0
    requires pos == 0 || pos == Pow2(maxOrder)
    requires pos + Pow2(maxOrder) <= total
    ensures CutOrder(m, pos, total, maxOrder) == maxOrder
  {
    if pos == 0 { DivModUnique(0, Pow2(maxOrder), 0, 0); } else { DivModUnique(pos, Pow2(maxOrder), 1, 0); }
    AlignedAt(m, pos, maxOrder, maxOrder);
    LogAtLeast(total - pos, maxOrder);
  }

  lemma LogAtLeast(n: nat, k: nat)
    requires n > 0 && Pow2(k) <= n
    ensures k <= Log2(n)
  {
    Log2Bounds(n);
    if Log2(n) < k { Pow2Monotone(Log2(n) + 1, k); }
  }

  // ---- the loop -----------------------------------------------------------------------------

  /** The blocks of a cut that kbud_push does not refuse. */
  ghost function Taken(r: Region, cuts: set<Block>): set<Block>
    requires r.Shape()
  {
    set b | b in cuts && r.BitChk(b.pfn, b.ord)
  }

  /** A push is refused exactly when the block's pair sticks out of the region. */
  lemma RefusedAtTheEnd(r: Region, b: Block)
    requires r.Shape() && b.Aligned() && b.ord <= r.maxOrder
    ensures r.BitChk(b.pfn, b.ord) <==> b.Parent().End() <= r.rpages
  {
    PairIsParent(b);
    Family(b);
    CellFits(PairIdx(b.pfn, b.ord), Pow2(b.ord + 1), r.rpages);
  }

  /** When every block that was handed over can be restored. */
  predicate Restorable(maxOrder: nat, totalPages: nat)
  {
    maxOrder == TOP || totalPages < Pow2(maxOrder + 1)
  }

  lemma SoundIff(r: Region, m: nat)
    requires r.Shape() && m == r.mbase / 4096 && m > 0
    ensures var acc := Taken(r, Greedy(m, 0, r.totalPages, r.maxOrder));
            && AllAligned(acc) && Disjoint(acc)
            && (forall a :: a in acc ==> a.End() <= r.totalPages && r.BitChk(a.pfn, a.ord))
            && (Sound(acc) <==> Restorable(r.maxOrder, r.totalPages))
  {
    var g := Greedy(m, 0, r.totalPages, r.maxOrder);
    var acc := Taken(r, g);
    GreedyTiles(m, 0, r.totalPages, r.maxOrder);
    if Restorable(r.maxOrder, r.totalPages) {
      forall b | b in acc && b.ord < TOP ensures b.Buddy() !in acc {
        GreedyBuddies(m, r.totalPages, r.maxOrder, b);
      }
    } else {
      GreedyStart(m, r.totalPages, r.maxOrder);
      TopPair(r);
      assert Block(0, r.maxOrder) in acc && Block(0, r.maxOrder).Buddy() in acc;
    }
  }

  lemma TopPair(r: Region)
    requires r.Shape() && Pow2(r.maxOrder + 1) <= r.totalPages
    ensures Block(0, r.maxOrder).Aligned()
    ensures Block(0, r.maxOrder).Buddy() == Block(Pow2(r.maxOrder), r.maxOrder)
    ensures r.BitChk(0, r.maxOrder) && r.BitChk(Pow2(r.maxOrder), r.maxOrder)
  {
    var d := Pow2(r.maxOrder);
    DivModUnique(0, d, 0, 0);
    var b := Block(0, r.maxOrder);
    Family(b);
    RefusedAtTheEnd(r, b);
    RefusedAtTheEnd(r, b.Buddy());
  }

  lemma TakenStep(r: Region, m: nat, pos: nat)
    requires r.Shape() && m > 0 && pos < r.totalPages
    ensures var b := Cut(m, pos, r.totalPages, r.maxOrder);
            Taken(r, Greedy(m, pos, r.totalPages, r.maxOrder))
            == (if r.BitChk(b.pfn, b.ord) then {b} else {})
               + Taken(r, Greedy(m, b.End(), r.totalPages, r.maxOrder))
  {
  }

  /** The loop of kbud_free_range over a region fresh from initialisation. The region ends up valid,
      hence restorable over every run, exactly when it reaches the top order or is too small for two
      blocks of its own maximal order. */
  method HandOver(r: Region, phys0: nat, size0: nat)
    requires r.Consistent() && r.avail == r.out == r.accepted == {}
    requires phys0 == r.mbase > 0 && size0 == 4096 * r.totalPages
    modifies r
    ensures r.accepted == r.avail == Taken(r, Greedy(r.mbase / 4096, 0, r.totalPages, r.maxOrder))
    ensures r.out == {} && r.Consistent()
    ensures r.Valid() <==> Restorable(r.maxOrder, r.totalPages)
  {
    ghost var m, total, top := r.mbase / 4096, r.totalPages, r.maxOrder;
    ghost var pos: nat := 0;
    var phys, size := phys0, size0;
    while size > 0
      invariant pos <= total && phys == r.mbase + 4096 * pos && size == 4096 * (total - pos)
      invariant r.Consistent() && r.out == {}
      invariant forall b :: b in r.avail ==> b.End() <= pos
      invariant Taken(r, Greedy(m, 0, total, top)) == r.avail + Taken(r, Greedy(m, pos, total, top))
      decreases size
    {
      ghost var b := Cut(m, pos, total, top);
      CutIsMaximal(m, pos, total, top);
      TakenStep(r, m, pos);
      var ord := ChooseOrder(phys, size, r.maxOrder, pos, m, total);
      var _ := r.Push(phys, ord, b);
      phys := phys + Shl(PAGESIZE, ord);
      size := size - Shl(PAGESIZE, ord);
      pos := b.End();
    }
    r.accepted := r.avail;
    ValidIffRestorable(r, m);
  }

  lemma ValidIffRestorable(r: Region, m: nat)
    requires r.Consistent() && m == r.mbase / 4096 && m > 0 && r.out == {}
    requires r.accepted == r.avail == Taken(r, Greedy(m, 0, r.totalPages, r.maxOrder))
    ensures r.Valid() <==> Restorable(r.maxOrder, r.totalPages)
  {
    SoundIff(r, m);
    if Restorable(r.maxOrder, r.totalPages) { HandedOver(r.accepted); }
  }

  /** The clz/ctz minimum of kbud_free_range. */
  method ChooseOrder(phys: nat, size: nat, maxOrder: nat, ghost pos: nat, ghost m: nat, ghost total: nat)
    returns (ord: nat)
    requires m > 0 && pos < total && phys == 4096 * (m + pos) && size == 4096 * (total - pos)
    ensures ord == CutOrder(m, pos, total, maxOrder)
  {
    var lenOrder := Log2(size / PAGESIZE);
    CtzPages(m + pos);
    var ptrOrder := Ctz(phys) - 12;
    ord := if lenOrder < ptrOrder then lenOrder else ptrOrder;
    ord := if TOP < ord then TOP else ord;
    ord := if maxOrder < ord then maxOrder else ord;
  }

  lemma CtzPages(n: nat)
    requires n > 0
    ensures Ctz(4096 * n) == 12 + Ctz(n)
  {
    Ctz16(256 * n);
    Ctz16(16 * n);
    Ctz16(n);
  }

  lemma Ctz16(n: nat)
    requires n > 0
    ensures Ctz(16 * n) == 4 + Ctz(n)
  {
    CtzDouble(8 * n);
    CtzDouble(4 * n);
    CtzDouble(2 * n);
    CtzDouble(n);
  }

  lemma CtzDouble(n: nat)
    requires n > 0
    ensures Ctz(2 * n) == 1 + Ctz(n)
  {
  }
}
