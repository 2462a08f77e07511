/**
 What every region with an unaligned first frame comes to. Let 2^k be the largest power of two that
 divides the number of its first usable frame, k below the maximal order: once all blocks of 2^k pages and
 more are taken and the first two of those come back, the next allocation loses the second of them.
 */
module BuddyEscapes {
  import opened Powers
  import opened Bits
  import opened Phys
  import opened BuddyBlocks
  import opened BuddyLayout
  import opened BuddyRegion
  import opened BuddyHandover
  import opened BuddyLimits
  import opened BuddyUnaligned

  /** The region and the blocks that callers hold. */
  datatype State = State(r: Raw, held: set<Block>)

  function TakeOne(f: Frame, s: State, b: Block, req: nat): State
  {
    State(AllocRaw(f, s.r, b, req), s.held + {Block(b.pfn, req)})
  }

  function GiveOne(f: Frame, s: State, b: Block): State { State(FreeRaw(f, s.r, b.pfn, b.ord), s.held - {b}) }

  /** Alignment breaks at order k, below the maximal order, and there are two blocks of that order. */
  predicate Breaks(f: Frame, k: nat)
  {
    && f.m > 0 && f.m % Pow2(k) == 0 && f.m / Pow2(k) % 2 == 1
    && k < f.maxOrder <= TOP && Pow2(f.maxOrder + 1) <= f.rpages <= 0x4_0000_0000
    && Pow2(k + 1) <= f.total <= f.rpages
  }

  /** The first two blocks of order k. */
  function First(k: nat): Block { Block(0, k) }

  function Second(k: nat): Block { Block(Pow2(k), k) }

  // ---- what holds while blocks of order k are taken ---------------------------------------------------

  /** Aligned as the hand-over and the splits see it. */
  predicate PhysAligned(f: Frame, b: Block) { (f.m + b.pfn) % b.Size() == 0 }

  predicate BlockOk(f: Frame, b: Block) { PhysAligned(f, b) && b.ord <= f.maxOrder && b.End() <= f.total }

  /** A bit is set only for a free block. */
  ghost predicate BitsSound(r: Raw)
  {
    forall x {:trigger x in r.bits} :: x in r.bits ==> exists b :: b in r.free && BitOf(b) == x
  }

  ghost predicate RawOk(f: Frame, r: Raw) { (forall b :: b in r.free ==> BlockOk(f, b)) && BitsSound(r) }

  /** c holds x, it is free or taken but not both, and no other block has a page of x. */
  ghost predicate Keeper(k: nat, free: set<Block>, taken: set<Block>, x: Block, c: Block)
  {
    && x.Within(c) && k <= c.ord && (c in free <==> c !in taken)
    && forall b :: b in free || b in taken ==> b == c || b.Apart(x)
  }

  ghost predicate Kept(k: nat, free: set<Block>, taken: set<Block>, x: Block)
  {
    exists c :: Keeper(k, free, taken, x, c)
  }

  ghost predicate Phase(f: Frame, k: nat, s: State)
  {
    && RawOk(f, s.r) && (forall b :: b in s.held ==> b.ord == k)
    && Kept(k, s.r.free, s.held, First(k)) && Kept(k, s.r.free, s.held, Second(k))
  }

  // ---- pushes and pops --------------------------------------------------------------------------------

  lemma PushOk(f: Frame, r: Raw, p: nat, ord: nat, phy: nat)
    requires RawOk(f, r) && phy == f.Phys(p) && p < 0x8_0000_0000 && BlockOk(f, Block(p, ord))
    ensures RawOk(f, PushRaw(f, r, phy, ord))
  {
    PushIs(f, r, p, ord, phy);
    var r' := PushRaw(f, r, phy, ord);
    forall x | x in r'.bits ensures exists b :: b in r'.free && BitOf(b) == x {
      if x in r.bits {
        var b :| b in r.free && BitOf(b) == x;
        assert b in r'.free;
      }
    }
  }

  lemma PopOk(f: Frame, r: Raw, b: Block)
    requires RawOk(f, r)
    ensures RawOk(f, PopRaw(r, b))
  {
    var r' := PopRaw(r, b);
    forall x | x in r'.bits ensures exists c :: c in r'.free && BitOf(c) == x {
      var c :| c in r.free && BitOf(c) == x;
      assert c in r'.free;
    }
  }

  /** A block that begins no later than page 2^k passes the bitmap check below the maximal order. */
  lemma LowIsChecked(f: Frame, k: nat, b: Block)
    requires Breaks(f, k) && k <= b.ord < f.maxOrder && b.pfn <= Pow2(k)
    ensures Chk(f.maxOrder, f.rpages, b)
  {
    Pow2Monotone(k, b.ord);
    assert Pow2(b.ord + 1) == 2 * Pow2(b.ord);
    FirstPair(f, b);
  }

  lemma FirstPair(f: Frame, b: Block)
    requires Pow2(f.maxOrder + 1) <= f.rpages && b.ord <= f.maxOrder && b.pfn < Pow2(b.ord + 1)
    ensures Chk(f.maxOrder, f.rpages, b) && PairIdx(b.pfn, b.ord) == 0
  {
    DivModUnique(b.pfn, Pow2(b.ord + 1), 0, b.pfn);
    Pow2Monotone(b.ord + 1, f.maxOrder + 1);
    HasPair(f.rpages, b.ord);
  }

  // ---- halves -----------------------------------------------------------------------------------------

  /** A physically aligned block and its halves. */
  lemma PhysHalves(f: Frame, h: Block, lo: Block, up: Block)
    requires h.ord > 0 && PhysAligned(f, h)
    requires lo == Block(h.pfn, h.ord - 1) && up == Block(h.pfn + lo.Size(), h.ord - 1)
    ensures PhysAligned(f, lo) && PhysAligned(f, up) && h.Size() == 2 * lo.Size() && up.End() == h.End()
    ensures Xor(f.Phys(h.pfn), Shl(PAGESIZE, lo.ord)) == f.Phys(up.pfn)
  {
    var n, d := f.m + h.pfn, lo.Size();
    var q := n / (2 * d);
    assert n == (2 * q) * d by { assert n == q * (2 * d); MulAssoc(q, 2, d); }
    DivModUnique(n, d, 2 * q, 0);
    MulDistr(2 * q, 1, d);
    DivModUnique(n + d, d, 2 * q + 1, 0);
    HalfAddress(n, lo.ord, f.Phys(h.pfn), f.Phys(up.pfn));
  }

  lemma HalfAddress(n: nat, k: nat, a: nat, a': nat)
    requires n / Pow2(k) % 2 == 0 && a == 4096 * n && a' == 4096 * (n + Pow2(k))
    ensures Xor(a, Shl(PAGESIZE, k)) == a'
  {
    XorScaled(n, k);
  }

  /** A smaller aligned block lies in one half or in the other. */
  lemma InOneHalf(f: Frame, x: Block, h: Block, lo: Block, up: Block)
    requires h.ord > 0 && lo == Block(h.pfn, h.ord - 1) && up == Block(h.pfn + lo.Size(), h.ord - 1)
    requires PhysAligned(f, x) && PhysAligned(f, up) && x.ord <= lo.ord && x.Within(h)
    ensures (x.Within(lo) && x.Apart(up)) || (x.Within(up) && x.Apart(lo))
  {
    assert h.Size() == 2 * lo.Size();
    Pow2Add(up.ord - x.ord, x.ord);
    NestedOrApart(f.m + x.pfn, x.Size(), f.m + up.pfn, up.Size(), Pow2(up.ord - x.ord));
  }

  // ---- allocations ------------------------------------------------------------------------------------

  /** Splitting the block in hand once: what kept x keeps it, or one of the halves does. */
  lemma KeptSplit(f: Frame, k: nat, free: set<Block>, free': set<Block>, taken: set<Block>,
                  h: Block, lo: Block, up: Block, x: Block)
    requires h.ord > k == x.ord && lo == Block(h.pfn, h.ord - 1) && up == Block(h.pfn + lo.Size(), h.ord - 1)
    requires PhysAligned(f, x) && PhysAligned(f, up) && h !in taken
    requires Kept(k, free, taken + {h}, x)
    requires free' == free + {up} || (free' == free && !x.Within(up))
    ensures Kept(k, free', taken + {lo}, x)
  {
    var c :| Keeper(k, free, taken + {h}, x, c);
    assert h.Size() == 2 * lo.Size();
    if c == h {
      InOneHalf(f, x, h, lo, up);
      if x.Within(lo) {
        assert Keeper(k, free', taken + {lo}, x, lo);
      } else {
        assert Keeper(k, free', taken + {lo}, x, up);
      }
    } else {
      assert h.Apart(x);
      assert Keeper(k, free', taken + {lo}, x, c);
    }
  }

  /** One turn of the split loop. */
  lemma SplitTurn(f: Frame, k: nat, r: Raw, h: Block, lo: Block, o: nat, phy: nat, taken: set<Block>)
    requires Breaks(f, k) && RawOk(f, r) && BlockOk(f, h) && h.ord == o + 1 > k && h !in taken
    requires lo == Block(h.pfn, o) && phy == Xor(f.Phys(h.pfn), Shl(PAGESIZE, o))
    requires Kept(k, r.free, taken + {h}, First(k)) && Kept(k, r.free, taken + {h}, Second(k))
    ensures var r' := PushRaw(f, r, phy, o);
            && RawOk(f, r') && BlockOk(f, lo)
            && Kept(k, r'.free, taken + {lo}, First(k)) && Kept(k, r'.free, taken + {lo}, Second(k))
  {
    var up := Block(h.pfn + lo.Size(), o);
    PhysHalves(f, h, lo, up);
    var r' := PushRaw(f, r, phy, o);
    PushIs(f, r, up.pfn, o, phy);
    PushOk(f, r, up.pfn, o, phy);
    ChecksWhatMatters(f, k, up);
    FirstTwoAligned(f, k);
    KeptSplit(f, k, r.free, r'.free, taken, h, lo, up, First(k));
    KeptSplit(f, k, r.free, r'.free, taken, h, lo, up, Second(k));
  }

  lemma SplitUnfold(f: Frame, r: Raw, pfn: nat, ord: nat, o: nat, phy: nat, k: nat)
    requires ord == o + 1 > k && phy == Xor(f.Phys(pfn), Shl(PAGESIZE, o))
    ensures SplitRaw(f, r, pfn, ord, k) == SplitRaw(f, PushRaw(f, r, phy, o), pfn, o, k)
  {
  }

  /** The split loop keeps all of it, the block in hand getting smaller. */
  lemma {:induction false} SplitKeeps(f: Frame, k: nat, r: Raw, pfn: nat, ord: nat, taken: set<Block>)
    requires Breaks(f, k) && k <= ord && RawOk(f, r) && BlockOk(f, Block(pfn, ord))
    requires forall b :: b in taken ==> b.ord == k
    requires Kept(k, r.free, taken + {Block(pfn, ord)}, First(k))
    requires Kept(k, r.free, taken + {Block(pfn, ord)}, Second(k))
    ensures var r' := SplitRaw(f, r, pfn, ord, k);
            && RawOk(f, r') && Kept(k, r'.free, taken + {Block(pfn, k)}, First(k))
            && Kept(k, r'.free, taken + {Block(pfn, k)}, Second(k))
    decreases ord
  {
    if ord > k {
      var o := ord - 1;
      var phy := Xor(f.Phys(pfn), Shl(PAGESIZE, o));
      SplitTurn(f, k, r, Block(pfn, ord), Block(pfn, o), o, phy, taken);
      SplitKeeps(f, k, PushRaw(f, r, phy, o), pfn, o, taken);
      SplitUnfold(f, r, pfn, ord, o, phy, k);
    }
  }

  lemma ChecksWhatMatters(f: Frame, k: nat, up: Block)
    requires Breaks(f, k) && k <= up.ord < f.maxOrder
    ensures First(k).Within(up) || Second(k).Within(up) ==> Chk(f.maxOrder, f.rpages, up)
  {
    if up.pfn <= Pow2(k) { LowIsChecked(f, k, up); }
  }

  lemma FirstTwoAligned(f: Frame, k: nat)
    requires Breaks(f, k)
    ensures PhysAligned(f, First(k)) && PhysAligned(f, Second(k))
  {
    OneMore(f.m, Pow2(k));
  }

  lemma OneMore(m: nat, d: nat)
    requires d > 0 && m % d == 0
    ensures (m + d) % d == 0
  {
    MulDistr(m / d, 1, d);
    DivModUnique(m + d, d, m / d + 1, 0);
  }

  /** The block at the head of its list is popped. */
  lemma KeptPopped(k: nat, free: set<Block>, held: set<Block>, b: Block, x: Block)
    requires Kept(k, free, held, x) && b in free && (b.ord > k ==> b !in held) && x.ord == k
    requires b in held ==> b.ord == k
    ensures Kept(k, free - {b}, held + {b}, x)
  {
    var c :| Keeper(k, free, held, x, c);
    assert Keeper(k, free - {b}, held + {b}, x, c);
  }

  /** An allocation of order k. */
  lemma TakeKeeps(f: Frame, k: nat, s: State, b: Block)
    requires Breaks(f, k) && Phase(f, k, s) && Found(s.r, b, k)
    ensures Phase(f, k, TakeOne(f, s, b, k))
  {
    PopOk(f, s.r, b);
    KeptPopped(k, s.r.free, s.held, b, First(k));
    KeptPopped(k, s.r.free, s.held, b, Second(k));
    SplitKeeps(f, k, PopRaw(s.r, b), b.pfn, b.ord, s.held);
  }

  // ---- the hand-over ----------------------------------------------------------------------------------

  /** What the loop of kbud_free_range cuts is aligned as a physical address and inside the region. */
  lemma CutOk(f: Frame, pos: nat, b: Block)
    requires f.m > 0 && pos < f.total && f.maxOrder <= TOP
    requires b == Block(pos, CutOrder(f.m, pos, f.total, f.maxOrder))
    ensures BlockOk(f, b)
  {
    CtzDivides(f.m + pos, b.ord);
    Log2Bounds(f.total - pos);
    Pow2Monotone(b.ord, Log2(f.total - pos));
  }

  /** Blocks behind x do not matter to it. */
  lemma KeptPushed(k: nat, free: set<Block>, b: Block, x: Block)
    requires Kept(k, free, {}, x) && x.End() <= b.pfn
    ensures Kept(k, free + {b}, {}, x)
  {
    var c :| Keeper(k, free, {}, x, c);
    assert Keeper(k, free + {b}, {}, x, c);
  }

  /** One turn of the loop, with block b. */
  lemma HandTurn(f: Frame, r: Raw, pos: nat, b: Block, r': Raw, next: nat)
    requires f.m > 0 && pos < f.total <= 0x4_0000_0000 && f.maxOrder <= TOP && RawOk(f, r)
    requires b == Block(pos, CutOrder(f.m, pos, f.total, f.maxOrder)) && next == b.End()
    requires r' == if Chk(f.maxOrder, f.rpages, b) then Raw(r.free + {b}, r.bits + {BitOf(b)}) else r
    ensures HandRaw(f, r, pos) == HandRaw(f, r', next) && RawOk(f, r') && BlockOk(f, b)
  {
    CutOk(f, pos, b);
    var phy := f.Phys(pos);
    PushIs(f, r, pos, b.ord, phy);
    PushOk(f, r, pos, b.ord, phy);
    assert HandRaw(f, r, pos) == HandRaw(f, PushRaw(f, r, phy, b.ord), next);
  }

  lemma {:induction false} HandKeeps(f: Frame, k: nat, r: Raw, pos: nat)
    requires Breaks(f, k) && Pow2(k + 1) <= pos && Phase(f, k, State(r, {}))
    ensures Phase(f, k, State(HandRaw(f, r, pos), {}))
    decreases f.total - pos
  {
    if pos < f.total {
      var b := Block(pos, CutOrder(f.m, pos, f.total, f.maxOrder));
      var r' := if Chk(f.maxOrder, f.rpages, b) then Raw(r.free + {b}, r.bits + {BitOf(b)}) else r;
      HandTurn(f, r, pos, b, r', b.End());
      KeptPushed(k, r.free, b, First(k));
      KeptPushed(k, r.free, b, Second(k));
      HandKeeps(f, k, r', b.End());
    }
  }

  /** The first cut has order k. */
  lemma FirstCut(f: Frame, k: nat)
    requires Breaks(f, k)
    ensures CutOrder(f.m, 0, f.total, f.maxOrder) == k
  {
    CtzDivides(f.m, k);
    CtzDivides(f.m, k + 1);
    OddMultiple(f.m, Pow2(k));
    LogAtLeast(f.total, k);
  }

  lemma OddMultiple(m: nat, d: nat)
    requires d > 0 && m % d == 0 && m / d % 2 == 1
    ensures m % (2 * d) != 0
  {
    var q := m / d;
    assert m == (q / 2) * (2 * d) + d by { MulAssoc(q / 2, 2, d); MulDistr(2 * (q / 2), 1, d); }
    DivModUnique(m, 2 * d, q / 2, d);
  }

  /** The second one has at least that. */
  lemma SecondCut(f: Frame, k: nat, pos: nat)
    requires Breaks(f, k) && pos == Pow2(k)
    ensures pos < f.total && k <= CutOrder(f.m, pos, f.total, f.maxOrder)
  {
    FirstTwoAligned(f, k);
    CtzDivides(f.m + pos, k);
    assert Pow2(k + 1) == 2 * pos;
    LogAtLeast(f.total - pos, k);
  }

  lemma StartOk(f: Frame, k: nat)
    requires Breaks(f, k)
    ensures Phase(f, k, State(HandRaw(f, Raw({}, {}), 0), {}))
  {
    var pos := Pow2(k);
    FirstCut(f, k);
    SecondCut(f, k, pos);
    var a, b := First(k), Block(pos, CutOrder(f.m, pos, f.total, f.maxOrder));
    LowIsChecked(f, k, a);
    SecondIsChecked(f, k, b);
    var r0, r1, r2 := Raw({}, {}), Raw({} + {a}, {} + {BitOf(a)}), Raw({} + {a} + {b}, {} + {BitOf(a)} + {BitOf(b)});
    HandTurn(f, r0, 0, a, r1, pos);
    HandTurn(f, r1, pos, b, r2, b.End());
    FirstTwoKept(k, r2.free, a, b);
    HandKeeps(f, k, r2, b.End());
  }

  lemma SecondIsChecked(f: Frame, k: nat, b: Block)
    requires Breaks(f, k) && b.pfn == Pow2(k) && k <= b.ord <= f.maxOrder
    ensures Chk(f.maxOrder, f.rpages, b) && Pow2(k + 1) <= b.End()
  {
    Pow2Monotone(k, b.ord);
    assert Pow2(b.ord + 1) == 2 * Pow2(b.ord);
    FirstPair(f, b);
  }

  lemma FirstTwoKept(k: nat, free: set<Block>, a: Block, b: Block)
    requires free == {} + {a} + {b} && a == First(k) && b.pfn == Pow2(k) && k <= b.ord
    ensures Kept(k, free, {}, First(k)) && Kept(k, free, {}, Second(k))
  {
    Pow2Monotone(k, b.ord);
    assert Keeper(k, free, {}, First(k), a) && Keeper(k, free, {}, Second(k), b);
  }

  // ---- taking all of it -------------------------------------------------------------------------------

  /** Allocations of order k, each of a block that the search finds, lead from s to s'. */
  ghost predicate Takes(f: Frame, k: nat, s: State, bs: seq<Block>, s': State)
    decreases |bs|
  {
    if bs == [] then s' == s
    else Found(s.r, bs[0], k) && Takes(f, k, TakeOne(f, s, bs[0], k), bs[1..], s')
  }

  /** The next one fails. */
  ghost predicate Drained(k: nat, s: State) { forall b :: b in s.r.free ==> b.ord < k }

  lemma {:induction false} TakesKeep(f: Frame, k: nat, s: State, bs: seq<Block>, s': State)
    requires Breaks(f, k) && Phase(f, k, s) && Takes(f, k, s, bs, s')
    ensures Phase(f, k, s')
    decreases |bs|
  {
    if bs != [] {
      TakeKeeps(f, k, s, bs[0]);
      TakesKeep(f, k, TakeOne(f, s, bs[0], k), bs[1..], s');
    }
  }

  /** A push adds no more pages than its block has. */
  lemma PushPages(f: Frame, r: Raw, phy: nat, ord: nat)
    ensures Pages(PushRaw(f, r, phy, ord).free) <= Pages(r.free) + Pow2(ord)
  {
    var b := Block(f.PfNum(phy), ord);
    if b in r.free { assert r.free + {b} == r.free; } else { PagesAdd(r.free, b); }
  }

  lemma {:induction false} SplitPages(f: Frame, r: Raw, pfn: nat, ord: nat, k: nat)
    requires k <= ord
    ensures Pages(SplitRaw(f, r, pfn, ord, k).free) + Pow2(k) <= Pages(r.free) + Pow2(ord)
    decreases ord
  {
    if ord > k {
      var phy := Xor(f.Phys(pfn), Shl(PAGESIZE, ord - 1));
      PushPages(f, r, phy, ord - 1);
      SplitPages(f, PushRaw(f, r, phy, ord - 1), pfn, ord - 1, k);
    }
  }

  /** There is such a run until the next allocation fails. */
  lemma {:induction false} SomeTakes(f: Frame, k: nat, s: State) returns (bs: seq<Block>, s': State)
    ensures Takes(f, k, s, bs, s') && Drained(k, s')
    decreases Pages(s.r.free)
  {
    if Drained(k, s) {
      bs, s' := [], s;
    } else {
      var b := Smallest(s.r.free, k);
      PagesRemove(s.r.free, b);
      SplitPages(f, PopRaw(s.r, b), b.pfn, b.ord, k);
      var rest;
      rest, s' := SomeTakes(f, k, TakeOne(f, s, b, k));
      bs := [b] + rest;
    }
  }

  lemma {:induction false} Smallest(blocks: set<Block>, k: nat) returns (b: Block)
    requires exists c :: c in blocks && k <= c.ord
    ensures b in blocks && k <= b.ord && forall c :: c in blocks && k <= c.ord ==> b.ord <= c.ord
    decreases |blocks|
  {
    b :| b in blocks && k <= b.ord;
    if c :| c in blocks && k <= c.ord && c.ord < b.ord {
      b := Smallest(blocks - {b}, k);
    }
  }

  // ---- giving two of them back ------------------------------------------------------------------------

  /** When the next allocation of order k would fail, the first two blocks of that order are held, nothing
      else has a page of them, and no bit of order k or above is set. */
  lemma FirstTwoHeld(f: Frame, k: nat, s: State, x: Block)
    requires Breaks(f, k) && Phase(f, k, s) && Drained(k, s) && (x == First(k) || x == Second(k))
    ensures x in s.held && x !in s.r.free
    ensures forall b :: b in s.r.free || b in s.held ==> b == x || b.Apart(x)
  {
    var c :| Keeper(k, s.r.free, s.held, x, c);
    assert c in s.held && c.ord == k;
  }

  lemma NoHighBits(f: Frame, k: nat, s: State)
    requires Phase(f, k, s) && Drained(k, s)
    ensures forall x :: x in s.r.bits ==> x.0 < k
  {
    forall x | x in s.r.bits ensures x.0 < k {
      var b :| b in s.r.free && BitOf(b) == x;
    }
  }

  /** A block at page 0 comes back alone: no bit of its order is set. */
  lemma GiveAlone(f: Frame, k: nat, r: Raw, j: nat)
    requires Breaks(f, k) && k <= j <= f.maxOrder && forall x :: x in r.bits ==> x.0 != j
    ensures FreeRaw(f, r, 0, j) == Raw(r.free + {Block(0, j)}, r.bits + {(j, 0)})
  {
    var b := Block(0, j);
    FirstPair(f, b);
    PushIs(f, r, 0, j, f.Phys(0));
    assert FreeRaw(f, r, 0, j) == PushRaw(f, r, f.Phys(0), j);
  }

  /** The second block comes back after the first: they merge, and the pair goes on as a block of its own. */
  lemma GiveMerges(f: Frame, k: nat, r: Raw)
    requires Breaks(f, k) && First(k) in r.free && (k, 0) in r.bits
    ensures FreeRaw(f, r, Pow2(k), k) == FreeRaw(f, Raw(r.free - {First(k)}, r.bits - {(k, 0)}), 0, k + 1)
  {
    var p := Pow2(k);
    DivModUnique(p, p, 1, 0);
    XorBit(p, k);
    AndNotBit(p, k);
    assert Shl(1, k) == p;
    FirstPair(f, First(k));
  }

  /** The half that the split frees begins before the region and is refused. */
  lemma HalfIsRefused(f: Frame, k: nat, r: Raw, phy: nat)
    requires Breaks(f, k) && phy == Xor(f.Phys(0), Shl(PAGESIZE, k))
    ensures PushRaw(f, r, phy, k) == r
  {
    var p := Pow2(k);
    XorScaled(f.m, k);
    Pow2Monotone(k, TOP);
    assert Pow2(10) == 1024 by { Pow2Add(5, 5); assert Pow2(5) == 32; }
    BelowWraps(f, p, phy);
    DivMonotone(f.rpages, f.PfNum(phy), Pow2(k + 1));
  }

  lemma BelowWraps(f: Frame, p: nat, phy: nat)
    requires 0 < p <= 1024 && f.m >= p && phy == 4096 * (f.m - p) && f.rpages <= 0x4_0000_0000
    ensures f.PfNum(phy) >= f.rpages
  {
    assert (phy - 4096 * f.m) % U64 == U64 - 4096 * p;
  }

  lemma SplitRefused(f: Frame, k: nat, r: Raw, b: Block)
    requires Breaks(f, k) && b == Block(0, k + 1)
    ensures AllocRaw(f, r, b, k) == PopRaw(r, b)
  {
    var r', phy := PopRaw(r, b), Xor(f.Phys(0), Shl(PAGESIZE, k));
    HalfIsRefused(f, k, r', phy);
    SplitUnfold(f, r', 0, k + 1, k, phy, k);
  }

  /** Both blocks come back, in order. */
  lemma BothGiven(f: Frame, k: nat, s: State)
    requires Breaks(f, k) && Phase(f, k, s) && Drained(k, s)
    ensures GiveOne(f, GiveOne(f, s, First(k)), Second(k)) ==
            State(Raw(s.r.free + {Block(0, k + 1)}, s.r.bits + {(k + 1, 0)}), s.held - {First(k)} - {Second(k)})
  {
    FirstTwoHeld(f, k, s, First(k));
    NoHighBits(f, k, s);
    GiveAlone(f, k, s.r, k);
    var r1 := Raw(s.r.free + {First(k)}, s.r.bits + {(k, 0)});
    GiveMerges(f, k, r1);
    assert Raw(r1.free - {First(k)}, r1.bits - {(k, 0)}) == s.r;
    GiveAlone(f, k, s.r, k + 1);
  }

  /** When the first two blocks of order k come back, the next allocation of that order gets the block both
      make up, and after it everything is as in s but for the second one: nobody holds it and no list has it. */
  ghost predicate Loses(f: Frame, k: nat, s: State)
  {
    && First(k) in s.held && Second(k) in s.held
    && (forall b :: b in s.r.free || b in s.held - {Second(k)} ==> b.Apart(Second(k)))
    && var s2 := GiveOne(f, GiveOne(f, s, First(k)), Second(k));
       && (forall b :: Found(s2.r, b, k) <==> b == Block(0, k + 1))
       && TakeOne(f, s2, Block(0, k + 1), k) == State(s.r, s.held - {Second(k)})
  }

  /** Then the only block of order k or above is the one that both make up. */
  lemma OnlyOneFound(k: nat, r: Raw, r': Raw, up: Block)
    requires (forall b :: b in r.free ==> b.ord < k) && up.ord == k + 1 && r'.free == r.free + {up}
    ensures forall b :: Found(r', b, k) <==> b == up
  {
  }

  /** Popping it leaves what was there before. */
  lemma PopUndoes(r: Raw, up: Block, x: (nat, nat), r': Raw)
    requires up !in r.free && x !in r.bits && x == BitOf(up) && r' == Raw(r.free + {up}, r.bits + {x})
    ensures PopRaw(r', up) == r
  {
    assert r'.free - {up} == r.free && r'.bits - {x} == r.bits;
  }

  lemma UpperTaken(f: Frame, k: nat, r: Raw, held: set<Block>, s2: State, up: Block)
    requires Breaks(f, k) && (forall b :: b in r.free ==> b.ord < k) && (forall x :: x in r.bits ==> x.0 < k)
    requires up == Block(0, k + 1) && s2 == State(Raw(r.free + {up}, r.bits + {(k + 1, 0)}), held)
    ensures TakeOne(f, s2, up, k) == State(r, held + {First(k)})
  {
    FirstPair(f, up);
    PopUndoes(r, up, (k + 1, 0), s2.r);
    SplitRefused(f, k, s2.r, up);
  }

  lemma SecondIsLost(f: Frame, k: nat, s: State)
    requires Breaks(f, k) && Phase(f, k, s) && Drained(k, s)
    ensures Loses(f, k, s)
  {
    FirstTwoHeld(f, k, s, First(k));
    FirstTwoHeld(f, k, s, Second(k));
    BothGiven(f, k, s);
    NoHighBits(f, k, s);
    var up, held := Block(0, k + 1), s.held - {First(k)} - {Second(k)};
    var s2 := GiveOne(f, GiveOne(f, s, First(k)), Second(k));
    OnlyOneFound(k, s.r, s2.r, up);
    UpperTaken(f, k, s.r, held, s2, up);
    assert held + {First(k)} == s.held - {Second(k)};
  }

  /** From the hand-over on, however allocations of order k go until one fails, the region then loses pages. */
  lemma UnalignedLoses(f: Frame, k: nat) returns (start: State)
    requires Breaks(f, k)
    ensures start == State(HandRaw(f, Raw({}, {}), 0), {})
    ensures exists bs, s :: Takes(f, k, start, bs, s) && Drained(k, s)
    ensures forall bs, s :: Takes(f, k, start, bs, s) && Drained(k, s) ==> Loses(f, k, s)
  {
    start := State(HandRaw(f, Raw({}, {}), 0), {});
    StartOk(f, k);
    var bs, s := SomeTakes(f, k, start);
    forall bs, s | Takes(f, k, start, bs, s) && Drained(k, s) ensures Loses(f, k, s) {
      TakesKeep(f, k, start, bs, s);
      SecondIsLost(f, k, s);
    }
  }

  /** What a region of so many pages comes with. */
  lemma FrameOfRegion(rpages: nat)
    requires rpages >= 2
    ensures MaxOrderFor(rpages) <= TOP && Pow2(MaxOrderFor(rpages) + 1) <= rpages
  {
    Log2Bounds(rpages);
    Pow2Monotone(MaxOrderFor(rpages) + 1, Log2(rpages));
  }

  /** There is such an order exactly when the first usable frame is not aligned to the largest block. */
  lemma BreaksIff(f: Frame)
    requires f.m > 0 && f.maxOrder == MaxOrderFor(f.rpages) && 2 <= f.rpages <= 0x4_0000_0000
    requires Pow2(f.maxOrder) <= f.total <= f.rpages
    ensures (exists k: nat :: Breaks(f, k)) <==> f.m % Pow2(f.maxOrder) != 0
  {
    FrameOfRegion(f.rpages);
    forall k: nat | Breaks(f, k) ensures f.m % Pow2(f.maxOrder) != 0 {
      OddMultiple(f.m, Pow2(k));
      if f.m % Pow2(f.maxOrder) == 0 { ModPow2Down(f.m, k + 1, f.maxOrder); }
    }
    if f.m % Pow2(f.maxOrder) != 0 {
      var k := Ctz(f.m);
      CtzDivides(f.m, k);
      CtzDivides(f.m, k + 1);
      CtzDivides(f.m, f.maxOrder);
      if f.m / Pow2(k) % 2 == 0 { EvenMultiple(f.m, Pow2(k)); }
      Pow2Monotone(k + 1, f.maxOrder);
      assert Breaks(f, k);
    }
  }
}
