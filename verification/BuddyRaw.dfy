/**
 On a region whose first usable frame is aligned to its largest block, the allocator as it is written, with
 its buddies by physical address and its bitmap bits, does what the block sets of BuddyBlocks say.
 */
module BuddyRaw {
  import opened Powers
  import opened Bits
  import opened Phys
  import opened BuddyBlocks
  import opened BuddyLayout
  import opened BuddyRegion
  import opened BuddyHandover
  import opened BuddyLimits
  import opened BuddyUnaligned
  import opened BuddyEscapes

  /** An aligned region, and what its hand-over accepted. */
  ghost predicate Even(f: Frame, accepted: set<Block>)
  {
    && f.m % Pow2(f.maxOrder) == 0 && f.maxOrder <= TOP && f.total <= 0x4_0000_0000
    && AllChecked(f.maxOrder, f.rpages, accepted) && forall b :: b in accepted ==> b.End() <= f.total
  }

  /** The same blocks are free, and below the top order, where merging looks at them, the bits that are set
      are those of the free blocks. */
  ghost predicate Shows(r: Raw, h: Heap)
  {
    && r.free == h.free
    && (forall b :: b in r.free && b.ord < TOP ==> BitOf(b) in r.bits)
    && forall x {:trigger x in r.bits} :: x in r.bits && x.0 < TOP ==> exists b :: b in r.free && BitOf(b) == x
  }

  // ---- one push and one pop ---------------------------------------------------------------------------

  lemma InRegion(f: Frame, accepted: set<Block>, b: Block)
    requires Even(f, accepted) && Sound(accepted) && b.Aligned() && Inside(b, accepted)
    ensures Chk(f.maxOrder, f.rpages, b) && b.End() <= f.total
  {
    InsideChecked(f.maxOrder, f.rpages, accepted, b);
  }

  /** A block in hand is linked in; no push is refused. */
  lemma PushShows(f: Frame, accepted: set<Block>, r: Raw, h: Heap, b: Block, phy: nat)
    requires Even(f, accepted) && Inv(accepted, h) && Shows(r, h) && b in h.out && phy == f.Phys(b.pfn)
    ensures PushRaw(f, r, phy, b.ord) == Raw(r.free + {b}, r.bits + {BitOf(b)})
    ensures Shows(PushRaw(f, r, phy, b.ord), Push(h, b))
  {
    assert b in h.free + h.out;
    InRegion(f, accepted, b);
    PushIs(f, r, b.pfn, b.ord, phy);
    BitAdded(r, Raw(r.free + {b}, r.bits + {BitOf(b)}), b);
  }

  lemma BitAdded(r: Raw, r': Raw, b: Block)
    requires r' == Raw(r.free + {b}, r.bits + {BitOf(b)})
    requires forall x {:trigger x in r.bits} :: x in r.bits && x.0 < TOP ==> exists c :: c in r.free && BitOf(c) == x
    ensures forall x {:trigger x in r'.bits} :: x in r'.bits && x.0 < TOP ==> exists c :: c in r'.free && BitOf(c) == x
  {
    forall x | x in r'.bits && x.0 < TOP ensures exists c :: c in r'.free && BitOf(c) == x {
      if x in r.bits {
        var c :| c in r.free && BitOf(c) == x;
        assert c in r'.free;
      } else {
        assert b in r'.free && BitOf(b) == x;
      }
    }
  }

  /** No other free block has the bit of a free block. */
  lemma OwnBit(blocks: set<Block>, b: Block, c: Block)
    requires AllAligned(blocks) && NoBuddies(blocks) && b in blocks && c in blocks && b.ord < TOP
    requires BitOf(b) == BitOf(c)
    ensures b == c
  {
    PairsAreBuddies(b, c);
  }

  lemma PopShows(accepted: set<Block>, r: Raw, h: Heap, b: Block, h': Heap)
    requires Inv(accepted, h) && Shows(r, h) && b in h.free && h'.free == h.free - {b}
    ensures Shows(PopRaw(r, b), h')
  {
    var r' := PopRaw(r, b);
    forall c | c in r'.free && c.ord < TOP ensures BitOf(c) in r'.bits {
      if BitOf(c) == BitOf(b) { OwnBit(h.free, c, b); }
    }
    forall x | x in r'.bits && x.0 < TOP ensures exists c :: c in r'.free && BitOf(c) == x {
      var c :| c in r.free && BitOf(c) == x;
      assert c in r'.free;
    }
  }

  // ---- allocation -------------------------------------------------------------------------------------

  /** The half that is linked in is the buddy, by its physical address. */
  lemma HalfIsBuddy(f: Frame, b: Block, lo: Block, phy: nat)
    requires f.m % Pow2(f.maxOrder) == 0 && b.Aligned() && 0 < b.ord <= f.maxOrder && lo == LowHalf(b)
    requires phy == Xor(f.Phys(b.pfn), Shl(PAGESIZE, lo.ord))
    ensures lo.Aligned() && phy == f.Phys(lo.Buddy().pfn)
  {
    Halves(b);
    BuddyAddress(f.m, lo, f.maxOrder);
  }

  /** One turn of the split loop. */
  lemma SplitOnceShows(f: Frame, accepted: set<Block>, r: Raw, h: Heap, b: Block, lo: Block, phy: nat)
    requires Even(f, accepted) && Inv(accepted, h) && Shows(r, h) && b in h.out && b.Aligned() && b.ord > 0
    requires lo == LowHalf(b) && phy == Xor(f.Phys(b.pfn), Shl(PAGESIZE, lo.ord))
    ensures Shows(PushRaw(f, r, phy, lo.ord), SplitOnce(h, b))
  {
    assert b in h.free + h.out;
    InRegion(f, accepted, b);
    HalfIsBuddy(f, b, lo, phy);
    SplitKeepsInv(accepted, h, b);
    var h', up := SplitOnce(h, b), lo.Buddy();
    assert up in h'.free + h'.out;
    InRegion(f, accepted, up);
    PushIs(f, r, up.pfn, up.ord, phy);
    BitAdded(r, Raw(r.free + {up}, r.bits + {BitOf(up)}), up);
  }

  lemma {:induction false} SplitShows(f: Frame, accepted: set<Block>, r: Raw, h: Heap, b: Block, req: nat)
    requires Even(f, accepted) && Inv(accepted, h) && Shows(r, h) && b in h.out && b.Aligned() && req <= b.ord
    ensures Shows(SplitRaw(f, r, b.pfn, b.ord, req), SplitTo(h, b, req))
    decreases b.ord
  {
    if b.ord > req {
      var lo := LowHalf(b);
      var phy := Xor(f.Phys(b.pfn), Shl(PAGESIZE, lo.ord));
      SplitOnceShows(f, accepted, r, h, b, lo, phy);
      SplitKeepsInv(accepted, h, b);
      SplitShows(f, accepted, PushRaw(f, r, phy, lo.ord), SplitOnce(h, b), lo, req);
      SplitToUnfold(h, b, req);
      SplitTurns(f, r, b, lo, phy, req);
    }
  }

  lemma SplitTurns(f: Frame, r: Raw, b: Block, lo: Block, phy: nat, req: nat)
    requires b.ord > req && lo == Block(b.pfn, b.ord - 1) && phy == Xor(f.Phys(b.pfn), Shl(PAGESIZE, lo.ord))
    ensures SplitRaw(f, r, b.pfn, b.ord, req) == SplitRaw(f, PushRaw(f, r, phy, lo.ord), lo.pfn, lo.ord, req)
  {
  }

  /** An allocation. */
  lemma AllocShows(f: Frame, accepted: set<Block>, r: Raw, h: Heap, b: Block, req: nat)
    requires Even(f, accepted) && Inv(accepted, h) && Shows(r, h) && Found(r, b, req) && b.Aligned() && b.ord <= TOP
    ensures Enabled(h, Event.Alloc(b, req))
    ensures Shows(AllocRaw(f, r, b, req), Step(h, Event.Alloc(b, req)))
  {
    PopShows(accepted, r, h, b, Pop(h, b));
    PopKeepsInv(accepted, h, b);
    SplitShows(f, accepted, PopRaw(r, b), Pop(h, b), b, req);
  }

  // ---- release ----------------------------------------------------------------------------------------

  /** The three tests of the merge loop come to whether the buddy is free. */
  lemma MergesIff(f: Frame, accepted: set<Block>, r: Raw, h: Heap, b: Block, buddy: Block)
    requires Even(f, accepted) && Inv(accepted, h) && Shows(r, h) && b in h.out && b.Aligned() && b.ord < TOP
    requires buddy == b.Buddy()
    ensures buddy.pfn < f.total && Chk(f.maxOrder, f.rpages, buddy) && BitOf(buddy) in r.bits <==> buddy in h.free
  {
    Family(b);
    if buddy in h.free {
      assert buddy in h.free + h.out;
      InRegion(f, accepted, buddy);
    }
    if BitOf(buddy) in r.bits {
      var c :| c in r.free && BitOf(c) == BitOf(buddy);
      PairsAreBuddies(buddy, c);
    }
  }

  lemma FreeTurn(f: Frame, r: Raw, b: Block, buddy: Block, up: Block)
    requires b.Aligned() && b.ord <= TOP && buddy == b.Buddy() && up == b.Parent()
    ensures if b.ord < TOP && buddy.pfn < f.total && Chk(f.maxOrder, f.rpages, buddy) && BitOf(buddy) in r.bits
            then FreeRaw(f, r, b.pfn, b.ord) == FreeRaw(f, PopRaw(r, buddy), up.pfn, up.ord)
            else FreeRaw(f, r, b.pfn, b.ord) == PushRaw(f, r, f.Phys(b.pfn), b.ord)
  {
    BuddyPfn(b);
  }

  /** A release. */
  lemma {:induction false} FreeShows(f: Frame, accepted: set<Block>, r: Raw, h: Heap, b: Block)
    requires Even(f, accepted) && Inv(accepted, h) && Shows(r, h) && b in h.out && b.Aligned() && b.ord <= TOP
    ensures Shows(FreeRaw(f, r, b.pfn, b.ord), Release(h, b))
    decreases TOP - b.ord
  {
    var buddy, up := b.Buddy(), b.Parent();
    FreeTurn(f, r, b, buddy, up);
    ReleaseAt(h, b, buddy, up);
    if b.ord < TOP { MergesIff(f, accepted, r, h, b, buddy); }
    if b.ord < TOP && buddy in h.free {
      MergeKeepsInv(accepted, h, b);
      PopShows(accepted, r, h, buddy, MergeOnce(h, b));
      Family(b);
      FreeShows(f, accepted, PopRaw(r, buddy), MergeOnce(h, b), up);
    } else {
      PushShows(f, accepted, r, h, b, f.Phys(b.pfn));
    }
  }

  lemma ReleaseAt(h: Heap, b: Block, buddy: Block, up: Block)
    requires b.Aligned() && b.ord <= TOP && buddy == b.Buddy() && up == b.Parent()
    ensures up.Aligned()
    ensures Release(h, b) == if b.ord < TOP && buddy in h.free then Release(MergeOnce(h, b), up) else Push(h, b)
  {
    Family(b);
  }

  // ---- hand-over --------------------------------------------------------------------------------------

  /** The cuts that pass the bitmap check. */
  ghost function Accepts(f: Frame, pos: nat): set<Block>
    requires f.m > 0
  {
    set b | b in Greedy(f.m, pos, f.total, f.maxOrder) && Chk(f.maxOrder, f.rpages, b)
  }

  /** The hand-over links these in, on any region. */
  lemma {:induction false} HandShows(f: Frame, r: Raw, pos: nat)
    requires f.m > 0 && f.total <= 0x4_0000_0000
    ensures HandRaw(f, r, pos).free == r.free + Accepts(f, pos)
    ensures HandRaw(f, r, pos).bits == r.bits + set b | b in Accepts(f, pos) :: BitOf(b)
    decreases f.total - pos
  {
    if pos < f.total {
      var b, phy := Cut(f.m, pos, f.total, f.maxOrder), f.Phys(pos);
      PushIs(f, r, pos, b.ord, phy);
      HandShows(f, PushRaw(f, r, phy, b.ord), b.End());
      AcceptsNext(f, pos, b);
    }
  }

  lemma AcceptsNext(f: Frame, pos: nat, b: Block)
    requires f.m > 0 && pos < f.total && b == Cut(f.m, pos, f.total, f.maxOrder)
    ensures Accepts(f, pos) == (if Chk(f.maxOrder, f.rpages, b) then {b} else {}) + Accepts(f, b.End())
  {
  }

  /** What a region is when it has been handed over: nobody holds anything. */
  function Start(f: Frame): State
    requires f.m > 0
  {
    State(HandRaw(f, Raw({}, {}), 0), {})
  }

  lemma StartShows(f: Frame)
    requires f.m > 0 && f.total <= 0x4_0000_0000
    ensures Start(f).r.free == Accepts(f, 0) && Shows(Start(f).r, Heap(Accepts(f, 0), {}))
  {
    HandShows(f, Raw({}, {}), 0);
  }

  // ---- runs -------------------------------------------------------------------------------------------

  /** A call that callers may make. */
  ghost predicate Possible(s: State, e: Event)
  {
    match e
    case Alloc(b, req) => Found(s.r, b, req)
    case Free(b) => b in s.held
  }

  function After(f: Frame, s: State, e: Event): State
  {
    match e
    case Alloc(b, req) => TakeOne(f, s, b, req)
    case Free(b) => GiveOne(f, s, b)
  }

  ghost predicate Leads(f: Frame, s: State, es: seq<Event>, s': State)
    decreases |es|
  {
    if es == [] then s' == s else Possible(s, es[0]) && Leads(f, After(f, s, es[0]), es[1..], s')
  }

  lemma {:induction false} LeadsOn(f: Frame, s: State, es: seq<Event>, s': State, more: seq<Event>, s'': State)
    requires Leads(f, s, es, s') && Leads(f, s', more, s'')
    ensures Leads(f, s, es + more, s'')
    decreases |es|
  {
    if es == [] {
      assert es + more == more;
    } else {
      assert (es + more)[1..] == es[1..] + more && (es + more)[0] == es[0];
      LeadsOn(f, After(f, s, es[0]), es[1..], s', more, s'');
    }
  }

  /** A page that was handed over is neither free nor held. */
  ghost predicate Missing(s: State, s': State)
  {
    exists p: nat :: Covers(s.r.free, p) && !Covers(s'.r.free + s'.held, p)
  }

  /** A call on an aligned region is one step of the block sets. */
  lemma CallShows(f: Frame, accepted: set<Block>, s: State, h: Heap, e: Event)
    requires Even(f, accepted) && Inv(accepted, h) && Shows(s.r, h) && s.held == h.out && Possible(s, e)
    ensures Enabled(h, e) && Shows(After(f, s, e).r, Step(h, e)) && After(f, s, e).held == Step(h, e).out
    ensures Inv(accepted, Step(h, e))
  {
    assert e.b in h.free + h.out;
    match e {
      case Alloc(b, req) => AllocShows(f, accepted, s.r, h, b, req);
      case Free(b) => FreeShows(f, accepted, s.r, h, b);
    }
    StepKeepsInv(accepted, h, e);
  }

  /** So is a run. */
  lemma {:induction false} RunShows(f: Frame, accepted: set<Block>, s: State, h: Heap, es: seq<Event>, s': State)
    returns (h': Heap)
    requires Even(f, accepted) && Inv(accepted, h) && Shows(s.r, h) && s.held == h.out && Leads(f, s, es, s')
    ensures IsRun(h, es, h') && Inv(accepted, h') && Shows(s'.r, h') && s'.held == h'.out
    decreases |es|
  {
    h' := h;
    if es != [] {
      CallShows(f, accepted, s, h, es[0]);
      h' := RunShows(f, accepted, After(f, s, es[0]), Step(h, es[0]), es[1..], s');
    }
  }

  // ---- which regions lose pages -----------------------------------------------------------------------

  lemma AlignedIsEven(f: Frame)
    requires f.m > 0 && f.maxOrder <= TOP && f.m % Pow2(f.maxOrder) == 0 && f.total <= f.rpages <= 0x4_0000_0000
    requires Restorable(f.maxOrder, f.total)
    ensures Even(f, Accepts(f, 0)) && Sound(Accepts(f, 0))
  {
    var g, acc := Greedy(f.m, 0, f.total, f.maxOrder), Accepts(f, 0);
    GreedyTiles(f.m, 0, f.total, f.maxOrder);
    forall b | b in acc && b.ord < TOP ensures b.Buddy() !in acc {
      GreedyBuddies(f.m, f.total, f.maxOrder, b);
    }
  }

  /** On an aligned region that can be restored no run loses a page. */
  lemma AlignedKeepsAll(f: Frame, es: seq<Event>, s: State)
    requires f.m > 0 && f.maxOrder <= TOP && f.m % Pow2(f.maxOrder) == 0 && f.total <= f.rpages <= 0x4_0000_0000
    requires Restorable(f.maxOrder, f.total) && Leads(f, Start(f), es, s)
    ensures !Missing(Start(f), s)
  {
    var acc := Accepts(f, 0);
    AlignedIsEven(f);
    StartShows(f);
    HandedOver(acc);
    var h := RunShows(f, acc, Start(f), Heap(acc, {}), es, s);
  }

  function Allocs(bs: seq<Block>, k: nat): seq<Event> { seq(|bs|, i requires 0 <= i < |bs| => Event.Alloc(bs[i], k)) }

  lemma {:induction false} TakesLead(f: Frame, k: nat, s: State, bs: seq<Block>, s': State)
    requires Takes(f, k, s, bs, s')
    ensures Leads(f, s, Allocs(bs, k), s')
    decreases |bs|
  {
    if bs != [] {
      assert Allocs(bs, k)[0] == Event.Alloc(bs[0], k) && Allocs(bs, k)[1..] == Allocs(bs[1..], k);
      TakesLead(f, k, TakeOne(f, s, bs[0], k), bs[1..], s');
    }
  }

  lemma SecondCovered(f: Frame, k: nat, s: State)
    requires Breaks(f, k) && Phase(f, k, s) && s.held == {}
    ensures Covers(s.r.free, Pow2(k))
  {
    var c :| Keeper(k, s.r.free, s.held, Second(k), c);
    assert c in s.r.free && c.Has(Pow2(k));
  }

  lemma SecondMissing(k: nat, s: State, s': State)
    requires Covers(s.r.free, Pow2(k)) && forall b :: b in s'.r.free + s'.held ==> b.Apart(Second(k))
    ensures Missing(s, s')
  {
    assert Second(k).Has(Pow2(k));
    assert !Covers(s'.r.free + s'.held, Pow2(k));
  }

  lemma ThreeCalls(f: Frame, s0: State, e1: Event, s1: State, e2: Event, s2: State, e3: Event, s3: State)
    requires Possible(s0, e1) && s1 == After(f, s0, e1) && Possible(s1, e2) && s2 == After(f, s1, e2)
    requires Possible(s2, e3) && s3 == After(f, s2, e3)
    ensures Leads(f, s0, [e1, e2, e3], s3)
  {
    assert Leads(f, s3, [], s3);
    assert [e3][1..] == [] && [e2, e3][1..] == [e3] && [e1, e2, e3][1..] == [e2, e3];
    assert Leads(f, s2, [e3], s3);
    assert Leads(f, s1, [e2, e3], s3);
  }

  /** An unaligned region loses pages on some run. */
  lemma UnalignedRun(f: Frame, k: nat) returns (es: seq<Event>, s: State)
    requires Breaks(f, k)
    ensures Leads(f, Start(f), es, s) && Missing(Start(f), s)
  {
    var start := UnalignedLoses(f, k);
    StartOk(f, k);
    SecondCovered(f, k, start);
    var bs, full :| Takes(f, k, start, bs, full) && Drained(k, full);
    TakesLead(f, k, start, bs, full);
    var up := Block(0, k + 1);
    var one := GiveOne(f, full, First(k));
    var two := GiveOne(f, one, Second(k));
    s := TakeOne(f, two, up, k);
    assert First(k) != Second(k) && Found(two.r, up, k);
    ThreeCalls(f, full, Event.Free(First(k)), one, Event.Free(Second(k)), two, Event.Alloc(up, k), s);
    var more := [Event.Free(First(k)), Event.Free(Second(k)), Event.Alloc(up, k)];
    LeadsOn(f, start, Allocs(bs, k), full, more, s);
    es := Allocs(bs, k) + more;
    SecondMissing(k, start, s);
  }

  /** The first two blocks of the maximal order. */
  predicate TopTwo(f: Frame, lo: Block, hi: Block)
  {
    && lo == Block(0, f.maxOrder) && hi == Block(Pow2(f.maxOrder), f.maxOrder)
    && f.maxOrder < TOP && Pow2(f.maxOrder + 1) <= f.total <= f.rpages <= 0x4_0000_0000
  }

  /** The first of them comes back alone. */
  lemma LowComesBack(f: Frame, r: Raw, lo: Block, hi: Block)
    requires TopTwo(f, lo, hi) && (f.maxOrder, 0) !in r.bits
    ensures FreeRaw(f, r, lo.pfn, lo.ord) == Raw(r.free + {lo}, r.bits + {(f.maxOrder, 0)})
  {
    FirstPair(f, lo);
    XorZeroLeft(Shl(1, f.maxOrder));
    FirstPair(f, hi);
    PushIs(f, r, 0, lo.ord, f.Phys(0));
  }

  lemma XorZeroLeft(a: nat)
    ensures Xor(0, a) == a
  {
  }

  /** A block of the order above is refused. */
  lemma TooLarge(f: Frame, r: Raw, k: nat)
    requires k == f.maxOrder + 1
    ensures FreeRaw(f, r, 0, k) == r
  {
    PushIs(f, r, 0, k, f.Phys(0));
  }

  /** With the second one they merge, and what they make up is refused. */
  lemma BothRefused(f: Frame, r: Raw, lo: Block, hi: Block)
    requires TopTwo(f, lo, hi) && lo in r.free && (f.maxOrder, 0) in r.bits
    ensures FreeRaw(f, r, hi.pfn, hi.ord) == Raw(r.free - {lo}, r.bits - {(f.maxOrder, 0)})
  {
    var p := Pow2(f.maxOrder);
    DivModUnique(p, p, 1, 0);
    XorBit(p, f.maxOrder);
    AndNotBit(p, f.maxOrder);
    assert Shl(1, f.maxOrder) == p;
    FirstPair(f, lo);
    TooLarge(f, PopRaw(r, lo), f.maxOrder + 1);
  }

  lemma TopTwoAccepted(f: Frame, lo: Block, hi: Block)
    requires f.m > 0 && f.m % Pow2(f.maxOrder) == 0 && TopTwo(f, lo, hi)
    ensures lo in Accepts(f, 0) && hi in Accepts(f, 0) && lo != hi
    ensures forall b :: b in Accepts(f, 0) ==> b.ord <= f.maxOrder && (b == lo || b.Apart(lo))
  {
    GreedyStart(f.m, f.total, f.maxOrder);
    GreedyTiles(f.m, 0, f.total, f.maxOrder);
    FirstPair(f, lo);
    FirstPair(f, hi);
  }

  /** Taking a block of just the order that is asked for. */
  lemma TakenWhole(f: Frame, s: State, b: Block)
    ensures TakeOne(f, s, b, b.ord) == State(PopRaw(s.r, b), s.held + {b})
  {
  }

  /** An aligned region with room for two blocks of its maximal order below the top order loses both. */
  lemma SmallRun(f: Frame) returns (es: seq<Event>, s: State)
    requires f.m > 0 && f.maxOrder <= TOP && f.m % Pow2(f.maxOrder) == 0 && f.total <= f.rpages <= 0x4_0000_0000
    requires !Restorable(f.maxOrder, f.total)
    ensures Leads(f, Start(f), es, s) && Missing(Start(f), s)
  {
    var lo, hi := Block(0, f.maxOrder), Block(Pow2(f.maxOrder), f.maxOrder);
    TopTwoAccepted(f, lo, hi);
    StartShows(f);
    var s0 := Start(f);
    var s1, e1 := TakeOne(f, s0, lo, lo.ord), Event.Alloc(lo, lo.ord);
    TakenWhole(f, s0, lo);
    var s2, e2 := TakeOne(f, s1, hi, hi.ord), Event.Alloc(hi, hi.ord);
    TakenWhole(f, s1, hi);
    FirstPair(f, lo);
    FirstPair(f, hi);
    assert s2 == State(Raw(s0.r.free - {lo} - {hi}, s2.r.bits), {lo, hi}) && (f.maxOrder, 0) !in s2.r.bits;
    var s3, e3 := GiveOne(f, s2, lo), Event.Free(lo);
    LowComesBack(f, s2.r, lo, hi);
    s := GiveOne(f, s3, hi);
    BothRefused(f, s3.r, lo, hi);
    ThreeCalls(f, s0, e1, s1, e2, s2, e3, s3);
    OneCall(f, s3, Event.Free(hi), s);
    LeadsOn(f, s0, [e1, e2, e3], s3, [Event.Free(hi)], s);
    es := [e1, e2, e3] + [Event.Free(hi)];
    FirstMissing(s0, s, lo);
  }

  lemma OneCall(f: Frame, s: State, e: Event, s': State)
    requires Possible(s, e) && s' == After(f, s, e)
    ensures Leads(f, s, [e], s')
  {
    assert Leads(f, s', [], s') && [e][1..] == [];
  }

  lemma FirstMissing(s: State, s': State, lo: Block)
    requires lo in s.r.free && s'.r.free <= s.r.free - {lo} && s'.held == {}
    requires forall b :: b in s.r.free ==> b == lo || b.Apart(lo)
    ensures Missing(s, s')
  {
    assert lo.Has(lo.pfn);
    assert Covers(s.r.free, lo.pfn) && !Covers(s'.r.free + s'.held, lo.pfn);
  }

  /** Over every run of legal calls each page that was handed over stays free or held. */
  ghost predicate KeepsAll(f: Frame)
    requires f.m > 0
  {
    forall es, s :: Leads(f, Start(f), es, s) ==> !Missing(Start(f), s)
  }

  lemma NotAll(f: Frame, es: seq<Event>, s: State)
    requires f.m > 0 && Leads(f, Start(f), es, s) && Missing(Start(f), s)
    ensures !KeepsAll(f)
  {
  }

  lemma AlignedKeeps(f: Frame)
    requires f.m > 0 && f.maxOrder <= TOP && f.m % Pow2(f.maxOrder) == 0 && f.total <= f.rpages <= 0x4_0000_0000
    requires Restorable(f.maxOrder, f.total)
    ensures KeepsAll(f)
  {
    forall es, s | Leads(f, Start(f), es, s) ensures !Missing(Start(f), s) { AlignedKeepsAll(f, es, s); }
  }

  /** A region keeps all its pages if and only if its first usable frame is aligned to its largest block and
      it reaches the top order or has no room for two such blocks. */
  lemma KeepsAllIff(f: Frame)
    requires f.m > 0 && 2 <= f.rpages <= 0x4_0000_0000
    requires f.maxOrder == MaxOrderFor(f.rpages) && f.total == f.rpages - ReservedFor(f.rpages) / 4096
    ensures KeepsAll(f) <==> f.m % Pow2(f.maxOrder) == 0 && Restorable(f.maxOrder, f.total)
  {
    HalfIsUsable(f.rpages, ReservedFor(f.rpages));
    FrameOfRegion(f.rpages);
    if f.m % Pow2(f.maxOrder) != 0 {
      BreaksIff(f);
      var k: nat :| Breaks(f, k);
      var es, s := UnalignedRun(f, k);
      NotAll(f, es, s);
    } else if !Restorable(f.maxOrder, f.total) {
      var es, s := SmallRun(f);
      NotAll(f, es, s);
    } else {
      AlignedKeeps(f);
    }
  }
}
