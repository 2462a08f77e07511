/**
 One memory region of the page allocator (struct slave_buddy in kernel/mm/buddy.h): per-order free
 lists threaded through the free pages themselves, block counters, and one bitmap bit per pair of
 buddies. The ghost heap is the abstract state of BuddyBlocks that the region represents.
 */
module BuddyRegion {
  import opened Powers
  import opened Bits
  import opened Bitmaps
  import opened Sequences
  import opened Phys
  import opened BuddyBlocks
  import opened BuddyLayout

  // ---- chains through page frames -----------------------------------------------------------

  /** The pointer to the i-th page of a list, null past its end. */
  function PagePtr(l: seq<nat>, i: nat, base: nat): nat
  {
    if i < |l| then base + 4096 * l[i] else 0
  }

  ghost predicate LinkAt(next: map<nat, nat>, l: seq<nat>, i: nat, base: nat)
  {
    PagePtr(l, i, base) in next && next[PagePtr(l, i, base)] == PagePtr(l, i + 1, base)
  }

  /** `head` starts a null-terminated chain through the first words of exactly the pages in `l`. */
  ghost predicate Chain(next: map<nat, nat>, head: nat, l: seq<nat>, base: nat)
  {
    && head == PagePtr(l, 0, base)
    && forall i: nat {:trigger LinkAt(next, l, i, base)} :: i < |l| ==> LinkAt(next, l, i, base)
  }

  lemma ChainPush(next: map<nat, nat>, head: nat, l: seq<nat>, base: nat, p: nat)
    requires Chain(next, head, l, base) && p !in l && Once(l)
    ensures Chain(next[base + 4096 * p := head], base + 4096 * p, [p] + l, base)
    ensures Once([p] + l)
  {
    var next', l' := next[base + 4096 * p := head], [p] + l;
    forall i: nat | i < |l'| ensures LinkAt(next', l', i, base) {
      if i > 0 {
        assert LinkAt(next, l, i - 1, base);
        assert l'[i] == l[i - 1];
        assert PagePtr(l', i + 1, base) == PagePtr(l, i, base);
      }
    }
  }

  lemma ChainOther(next: map<nat, nat>, head: nat, l: seq<nat>, base: nat, p: nat, v: nat)
    requires Chain(next, head, l, base) && p !in l
    ensures Chain(next[base + 4096 * p := v], head, l, base)
  {
    var next' := next[base + 4096 * p := v];
    forall i: nat | i < |l| ensures LinkAt(next', l, i, base) {
      assert LinkAt(next, l, i, base);
      assert l[i] in l;
    }
  }

  lemma WithoutAt(l: seq<nat>, k: nat, i: nat, base: nat)
    requires k < |l|
    ensures PagePtr(Without(l, k), i, base) == PagePtr(l, if i < k then i else i + 1, base)
  {
  }

  /** Bypassing the k-th page takes it, and only it, out of the chain. */
  lemma ChainUnlink(next: map<nat, nat>, head: nat, l: seq<nat>, base: nat, k: nat)
    requires Chain(next, head, l, base) && k < |l| && Once(l)
    ensures k == 0 ==> Chain(next, PagePtr(l, 1, base), Without(l, 0), base)
    ensures k > 0 ==> Chain(next[PagePtr(l, k - 1, base) := PagePtr(l, k + 1, base)], head, Without(l, k), base)
  {
    var l' := Without(l, k);
    var next' := if k == 0 then next else next[PagePtr(l, k - 1, base) := PagePtr(l, k + 1, base)];
    WithoutAt(l, k, 0, base);
    forall i: nat | i < |l'| ensures LinkAt(next', l', i, base) {
      WithoutAt(l, k, i, base);
      WithoutAt(l, k, i + 1, base);
      assert LinkAt(next, l, if i < k then i else i + 1, base);
    }
  }

  // ---- the eleven lists together ------------------------------------------------------------

  ghost predicate Chains(next: map<nat, nat>, free: seq<nat>, lists: seq<seq<nat>>, base: nat)
  {
    && |free| == |lists| == ORDERS
    && forall o: nat {:trigger lists[o]} :: o < ORDERS ==>
         Chain(next, free[o], lists[o], base) && Once(lists[o])
  }

  /** A page is on one list at most. */
  ghost predicate Separate(lists: seq<seq<nat>>)
  {
    forall o: nat, o': nat, p {:trigger p in lists[o], p in lists[o']} ::
      o < |lists| && o' < |lists| && p in lists[o] && p in lists[o'] ==> o == o'
  }

  ghost predicate Counts(cnt: seq<nat>, lists: seq<seq<nat>>)
  {
    |cnt| == |lists| == ORDERS && forall o: nat :: o < ORDERS ==> cnt[o] == |lists[o]|
  }

  /** The lists hold exactly the blocks of a set. */
  ghost predicate Members(lists: seq<seq<nat>>, blocks: set<Block>)
  {
    && |lists| == ORDERS
    && (forall o: nat, p {:trigger p in lists[o]} :: o < ORDERS && p in lists[o] ==> Block(p, o) in blocks)
    && (forall b :: b in blocks ==> b.ord < ORDERS && b.pfn in lists[b.ord])
  }

  lemma ChainsPush(next: map<nat, nat>, free: seq<nat>, lists: seq<seq<nat>>, base: nat, o: nat, p: nat)
    requires Chains(next, free, lists, base) && Separate(lists) && o < ORDERS
    requires forall i: nat :: i < ORDERS ==> p !in lists[i]
    ensures Chains(next[base + 4096 * p := free[o]], free[o := base + 4096 * p],
                   lists[o := [p] + lists[o]], base)
    ensures Separate(lists[o := [p] + lists[o]])
  {
    ChainPush(next, free[o], lists[o], base, p);
    forall i: nat | i < ORDERS && i != o
      ensures Chain(next[base + 4096 * p := free[o]], free[i], lists[i], base)
    {
      ChainOther(next, free[i], lists[i], base, p, free[o]);
    }
  }

  lemma ChainsUnlink(next: map<nat, nat>, free: seq<nat>, lists: seq<seq<nat>>, base: nat, o: nat, k: nat)
    requires Chains(next, free, lists, base) && Separate(lists) && o < ORDERS && k < |lists[o]|
    ensures k == 0 ==>
              Chains(next, free[o := PagePtr(lists[o], 1, base)], lists[o := Without(lists[o], k)], base)
    ensures k > 0 ==>
              Chains(next[PagePtr(lists[o], k - 1, base) := PagePtr(lists[o], k + 1, base)], free,
                     lists[o := Without(lists[o], k)], base)
    ensures Separate(lists[o := Without(lists[o], k)])
  {
    var l := lists[o];
    ChainUnlink(next, free[o], l, base, k);
    WithoutMembers(l, k);
    if k > 0 {
      forall i: nat | i < ORDERS && i != o
        ensures Chain(next[PagePtr(l, k - 1, base) := PagePtr(l, k + 1, base)], free[i], lists[i], base)
      {
        assert l[k - 1] in lists[o];
        ChainOther(next, free[i], lists[i], base, l[k - 1], PagePtr(l, k + 1, base));
      }
    }
  }

  /** A write into a page on no list. */
  lemma ChainsOther(next: map<nat, nat>, free: seq<nat>, lists: seq<seq<nat>>, base: nat, page: nat, p: nat, v: nat)
    requires Chains(next, free, lists, base) && p == base + 4096 * page
    requires forall o: nat :: o < ORDERS ==> page !in lists[o]
    ensures Chains(next[p := v], free, lists, base)
  {
    forall o: nat | o < ORDERS ensures Chain(next[p := v], free[o], lists[o], base) {
      ChainOther(next, free[o], lists[o], base, page, v);
    }
  }

  lemma MembersPush(lists: seq<seq<nat>>, blocks: set<Block>, b: Block)
    requires Members(lists, blocks) && b.ord < ORDERS
    ensures Members(lists[b.ord := [b.pfn] + lists[b.ord]], blocks + {b})
  {
  }

  lemma MembersUnlink(lists: seq<seq<nat>>, blocks: set<Block>, o: nat, k: nat)
    requires Members(lists, blocks) && o < ORDERS && k < |lists[o]| && Once(lists[o])
    ensures Members(lists[o := Without(lists[o], k)], blocks - {Block(lists[o][k], o)})
  {
    WithoutMembers(lists[o], k);
  }

  // ---- pairs --------------------------------------------------------------------------------

  lemma PairIsParent(b: Block)
    requires b.Aligned()
    ensures b.Parent().pfn == PairIdx(b.pfn, b.ord) * Pow2(b.ord + 1)
  {
    Family(b);
    var s := b.Size();
    var up := b.Parent();
    var q := up.pfn / up.Size();
    assert up.Size() == 2 * s && up.pfn == q * (2 * s);
    DivModUnique(b.pfn, 2 * s, q, b.pfn - up.pfn);
  }

  /** A bitmap bit belongs to a block and its buddy and to no other block of the order. */
  lemma PairsAreBuddies(b: Block, c: Block)
    requires b.Aligned() && c.Aligned() && b.ord == c.ord
    ensures PairIdx(b.pfn, b.ord) == PairIdx(c.pfn, c.ord) <==> c == b || c == b.Buddy()
  {
    PairIsParent(b);
    PairIsParent(c);
    Family(b);
    Family(c);
    SameParent(b, c);
    var s, x, y := Pow2(b.ord + 1), PairIdx(b.pfn, b.ord), PairIdx(c.pfn, c.ord);
    if x < y {
      MulGap(x, y, s);
    } else if y < x {
      MulGap(y, x, s);
    }
  }

  lemma SameParent(b: Block, c: Block)
    requires b.Aligned() && c.Aligned() && b.ord == c.ord
    ensures b.Parent() == c.Parent() <==> c == b || c == b.Buddy()
  {
    Family(b);
    Family(c);
    if b.Parent() == c.Parent() {
      assert b.Parent().Has(c.pfn);
      if b.Has(c.pfn) { SameOrder(b, c); } else { SameOrder(b.Buddy(), c); }
    }
  }

  lemma WholePagesFit(phy: nat, len: nat, reserved: nat)
    requires reserved % 4096 == 0 && reserved < len
    ensures phy + reserved + 4096 * (len / 4096 - reserved / 4096) == phy + 4096 * (len / 4096)
    ensures 4096 * (len / 4096) <= len
  {
  }

  /** The memset over the bitmap area. */
  function Cleared(lens: seq<nat>): (r: seq<seq<nat>>)
    ensures |r| == |lens|
    ensures forall i :: 0 <= i < |r| ==> |r[i]| == lens[i] && forall j :: 0 <= j < |r[i]| ==> r[i][j] == 0
  {
    seq(|lens|, i requires 0 <= i < |lens| => seq(lens[i], j => 0))
  }

  // ---- the region object --------------------------------------------------------------------

  class Region {
    const maxOrder: nat
    const maxbits: seq<nat>         // lut.maxbits
    const rbase: nat
    const mbase: nat
    const totalPages: nat
    const layout: Layout            // where header and bitmaps lie
    ghost const rpages: nat         // pages of the region including header and bitmaps

    var free: seq<nat>              // list heads, virtual addresses, 0 is null
    var cnt: seq<nat>               // order_blk_cnt
    var bitmap: seq<seq<nat>>       // lut.bitmap_arr
    var next: map<nat, nat>         // page_frame_t.next of every page, by virtual address

    ghost var lists: seq<seq<nat>>
    ghost var avail: set<Block>     // the blocks on the lists
    ghost var out: set<Block>       // the blocks held by callers
    ghost var accepted: set<Block>  // the blocks the hand-over put on the lists

    /** kbud_init_region. When the bitmaps leave no room (mbase >= phy + len) the C code marks the
        region invalid; nothing is promised about it here. */
    constructor (phy: nat, len: nat)
      requires phy % 4096 == 0 && phy + len <= PHYS_MAX
      ensures rbase == phy && rpages == len / 4096 && layout.Fits(rpages) && layout.Stacked() && layout.Packed()
      ensures mbase == phy + layout.Reserved() && layout.Reserved() == ReservedFor(rpages)
      ensures maxOrder == layout.maxOrder == MaxOrderFor(rpages) && maxbits == layout.maxbits
      ensures mbase < phy + len ==> totalPages == len / 4096 - layout.Reserved() / 4096
      ensures mbase < phy + len && mbase / 4096 % Pow2(maxOrder) == 0 ==>
                Valid() && avail == out == accepted == {}
    {
      var pages, l, base, total := Place(phy, len);
      maxOrder, maxbits, rbase, mbase, totalPages := l.maxOrder, l.maxbits, phy, base, total;
      MaxOrderIs(l, pages);
      layout, rpages := l, pages;
      free, cnt := [0, 0, 0, 0, 0, 0, 0, 0, 0, 0, 0], [0, 0, 0, 0, 0, 0, 0, 0, 0, 0, 0];
      bitmap := Cleared(l.bytes);
      next := map[];
      lists := [[], [], [], [], [], [], [], [], [], [], []];
      avail, out, accepted := {}, {}, {};
      new;
      if mbase < phy + len && mbase / 4096 % Pow2(maxOrder) == 0 {
        GeometryOk(len);
        InitialState();
      }
    }

    lemma GeometryOk(len: nat)
      requires layout.Fits(rpages) && layout.Stacked()
      requires rbase % 4096 == 0 && rbase + len <= PHYS_MAX && rpages == len / 4096
      requires maxOrder == layout.maxOrder && maxbits == layout.maxbits
      requires mbase == rbase + layout.Reserved() < rbase + len
      requires totalPages == len / 4096 - layout.Reserved() / 4096
      requires mbase / 4096 % Pow2(maxOrder) == 0
      ensures Shape()
    {
      forall o: nat | o <= maxOrder ensures maxbits[o] == PairIdx(rpages, o) {
        assert layout.OrderFits(rpages, o);
      }
      WholePagesFit(rbase, len, layout.Reserved());
    }

    lemma InitialState()
      requires Shape() && layout.Fits(rpages) && maxOrder == layout.maxOrder && maxbits == layout.maxbits
      requires avail == out == accepted == {}
      requires free == cnt == [0, 0, 0, 0, 0, 0, 0, 0, 0, 0, 0]
      requires lists == [[], [], [], [], [], [], [], [], [], [], []]
      requires bitmap == Cleared(layout.bytes)
      ensures Valid()
    {
      forall o: nat | o <= maxOrder ensures maxbits[o] <= 8 * |bitmap[o]| {
        assert layout.OrderFits(rpages, o);
      }
      forall b: Block | b.Aligned() && BitChk(b.pfn, b.ord) ensures BitOk(b) {
        BitRange(b);
        TestBitZero(PairIdx(b.pfn, b.ord) % 8);
      }
      HandedOver({});
    }

    ghost function H(): Heap
      reads this`avail, this`out
    {
      Heap(avail, out)
    }

    ghost function Base(): nat { PHMMAP + mbase }

    /** The virtual address of a page of the region. */
    ghost function Virt(pfn: nat): nat { Base() + 4096 * pfn }

    /** buddy_bit_chk */
    predicate BitChk(pfn: nat, ord: nat)
      requires |maxbits| == ORDERS && maxOrder <= TOP
    {
      ord <= maxOrder && PairIdx(pfn, ord) < maxbits[ord]
    }

    /** kbud_pfnum */
    function PfNum(phy: nat): nat { (phy - mbase) % U64 / 4096 }

    /** What initialisation fixes for good. */
    ghost predicate Shape()
    {
      && |maxbits| == ORDERS && maxOrder <= TOP
      && mbase % 4096 == 0 && rbase < mbase
      && mbase / 4096 % Pow2(maxOrder) == 0
      && mbase + 4096 * totalPages <= rbase + 4096 * rpages <= PHYS_MAX
      && forall o: nat :: o <= maxOrder ==> maxbits[o] == PairIdx(rpages, o)
    }

    ghost predicate Linked()
      reads this`free, this`cnt, this`next, this`lists, this`avail
    {
      && Chains(next, free, lists, Base())
      && Separate(lists)
      && Counts(cnt, lists)
      && Members(lists, avail)
      && forall b :: b in avail ==> b.ord <= maxOrder && b.pfn < totalPages
    }

    ghost predicate BitmapSized()
      requires Shape()
      reads this`bitmap
    {
      |bitmap| == ORDERS && forall o: nat :: o <= maxOrder ==> maxbits[o] <= 8 * |bitmap[o]|
    }

    ghost predicate BitOk(b: Block)
      requires Shape() && BitmapSized() && b.Aligned() && BitChk(b.pfn, b.ord)
      reads this`bitmap, this`avail
    {
      BitGet(bitmap[b.ord], PairIdx(b.pfn, b.ord)) <==> b in avail || b.Buddy() in avail
    }

    /** Below the top order the bit of a pair tells whether one of the two buddies is free. */
    ghost predicate BitsAgree()
      requires Shape()
      reads this`bitmap, this`avail
    {
      && BitmapSized()
      && forall b: Block {:trigger BitOk(b)} ::
           b.Aligned() && BitChk(b.pfn, b.ord) && b.ord < TOP ==> BitOk(b)
    }

    /** Lists, counters and bitmaps describe one and the same set of free blocks. */
    ghost predicate Consistent()
      reads this`free, this`cnt, this`next, this`lists, this`avail, this`bitmap
    {
      Shape() && Linked() && BitsAgree()
    }

    ghost predicate AcceptedOk()
      requires Shape()
      reads this`accepted
    {
      Sound(accepted) && forall a :: a in accepted ==> BitChk(a.pfn, a.ord) && a.End() <= totalPages
    }

    ghost predicate Valid()
      reads this
    {
      Consistent() && AcceptedOk() && Inv(accepted, H())
    }

    /** What a pop may be given: a free block whose buddy is not free. */
    ghost predicate Takeable(b: Block)
      requires Shape()
      reads this`avail
    {
      && b in avail && b.Aligned() && BitChk(b.pfn, b.ord)
      && (b.ord < TOP ==> b.Buddy() !in avail)
    }

    /** What a push may be given: an aligned block of the region whose first page heads no free block. */
    ghost predicate Pushable(b: Block)
      requires Shape()
      reads this`avail
    {
      && b.Aligned() && b.ord <= TOP && b.End() <= totalPages
      && (forall c :: c in avail ==> c.pfn != b.pfn)
    }

    lemma PfNumOf(pfn: nat, phy: nat)
      requires phy == mbase + 4096 * pfn < PHYS_MAX
      ensures PfNum(phy) == pfn && PhysToVirt(phy) == Virt(pfn) && VirtToPhys(Virt(pfn)) == phy
    {
    }

    /** A checked pair index addresses a byte of the bitmap. */
    lemma BitRange(b: Block)
      requires Shape() && BitmapSized() && BitChk(b.pfn, b.ord)
      ensures PairIdx(b.pfn, b.ord) / 8 < |bitmap[b.ord]|
    {
    }

    twostate lemma BitsAfter(new b: Block, new on: bool)
      requires Shape() && old(BitsAgree())
      requires b.Aligned() && BitChk(b.pfn, b.ord) && PairIdx(b.pfn, b.ord) / 8 < |old(bitmap)[b.ord]|
      requires !on && b.ord < TOP ==> b.Buddy() !in old(avail)
      requires var bytes, i := old(bitmap)[b.ord], PairIdx(b.pfn, b.ord);
               bitmap == old(bitmap)[b.ord := if on then BitSet(bytes, i) else BitClr(bytes, i)]
      requires avail == if on then old(avail) + {b} else old(avail) - {b}
      ensures BitsAgree()
    {
      forall c: Block | c.Aligned() && BitChk(c.pfn, c.ord) && c.ord < TOP ensures BitOk(c) {
        assert old(BitOk(c));
        Family(c);
        if c.ord == b.ord { PairsAreBuddies(b, c); Family(b); BitRange(c); }
      }
    }

    twostate lemma Pushed(new b: Block)
      requires old(Consistent() && Pushable(b)) && BitChk(b.pfn, b.ord)
      requires PairIdx(b.pfn, b.ord) / 8 < |old(bitmap)[b.ord]|
      requires next == old(next)[Virt(b.pfn) := old(free)[b.ord]]
      requires free == old(free)[b.ord := Virt(b.pfn)]
      requires cnt == old(cnt)[b.ord := old(cnt)[b.ord] + 1]
      requires bitmap == old(bitmap)[b.ord := BitSet(old(bitmap)[b.ord], PairIdx(b.pfn, b.ord))]
      requires lists == old(lists)[b.ord := [b.pfn] + old(lists)[b.ord]]
      requires avail == old(avail) + {b}
      ensures Consistent()
    {
      assert forall o: nat :: o < ORDERS && b.pfn in old(lists)[o] ==> Block(b.pfn, o) in old(avail);
      ChainsPush(old(next), old(free), old(lists), Base(), b.ord, b.pfn);
      MembersPush(old(lists), old(avail), b);
      BitsAfter(b, true);
    }

    /** Taking the k-th block off its list. */
    twostate lemma Taken(new b: Block, new k: nat)
      requires old(Consistent() && Takeable(b))
      requires k < |old(lists)[b.ord]| && old(lists)[b.ord][k] == b.pfn
      requires PairIdx(b.pfn, b.ord) / 8 < |old(bitmap)[b.ord]|
      requires var l := old(lists)[b.ord];
               if k == 0 then next == old(next) && free == old(free)[b.ord := PagePtr(l, 1, Base())]
               else next == old(next)[PagePtr(l, k - 1, Base()) := PagePtr(l, k + 1, Base())] && free == old(free)
      requires old(cnt)[b.ord] > 0 && cnt == old(cnt)[b.ord := old(cnt)[b.ord] - 1]
      requires bitmap == old(bitmap)[b.ord := BitClr(old(bitmap)[b.ord], PairIdx(b.pfn, b.ord))]
      requires lists == old(lists)[b.ord := Without(old(lists)[b.ord], k)]
      requires avail == old(avail) - {b}
      ensures Consistent()
    {
      ChainsUnlink(old(next), old(free), old(lists), Base(), b.ord, k);
      MembersUnlink(old(lists), old(avail), b.ord, k);
      BitsAfter(b, false);
    }

    /** kbud_push */
    method Push(phy: nat, order: nat, ghost b: Block) returns (ok: bool)
      requires Consistent() && Pushable(b)
      requires phy == mbase + 4096 * b.pfn && order == b.ord
      modifies this`next, this`free, this`cnt, this`bitmap, this`lists, this`avail
      ensures Consistent()
      ensures ok == BitChk(b.pfn, b.ord)
      ensures avail == if ok then old(avail) + {b} else old(avail)
    {
      PfNumOf(b.pfn, phy);
      var pfn := PfNum(phy);
      if !BitChk(pfn, order) {
        return false;
      }
      BitRange(b);
      var p := PhysToVirt(phy);
      next := next[p := free[order]];
      free := free[order := p];
      cnt := cnt[order := cnt[order] + 1];
      bitmap := bitmap[order := BitSet(bitmap[order], PairIdx(pfn, order))];
      lists := lists[order := [pfn] + lists[order]];
      avail := avail + {b};
      Pushed(b);
      ok := true;
    }

    /** The list walk of kbud_pop: the link that points at page p, found in the head slot (prev null)
        or in the first word of the page at prev. It ends because p is on the list. */
    method Seek(head: nat, p: nat, ghost l: seq<nat>, ghost k: nat) returns (prev: nat)
      requires Chain(next, head, l, Base()) && Once(l) && k < |l| && p == PagePtr(l, k, Base())
      ensures prev == if k == 0 then 0 else PagePtr(l, k - 1, Base())
    {
      ghost var i: nat := 0;
      var cur := head;
      prev := 0;
      while cur != p
        invariant i <= k && cur == PagePtr(l, i, Base())
        invariant prev == if i == 0 then 0 else PagePtr(l, i - 1, Base())
        decreases k - i
      {
        assert LinkAt(next, l, i, Base());
        prev, cur := cur, next[cur];
        i := i + 1;
      }
      AtInjective(l, i, k, Base());
    }

    lemma AtInjective(l: seq<nat>, i: nat, k: nat, base: nat)
      requires i < |l| && k < |l| && PagePtr(l, i, base) == PagePtr(l, k, base) && Once(l)
      ensures i == k
    {
    }

    /** kbud_pop */
    method Pop(phy: nat, order: nat, ghost b: Block) returns (ok: bool)
      requires Consistent() && Takeable(b)
      requires phy == mbase + 4096 * b.pfn && order == b.ord
      modifies this`next, this`free, this`cnt, this`bitmap, this`lists, this`avail
      ensures ok && Consistent() && avail == old(avail) - {b}
    {
      PfNumOf(b.pfn, phy);
      var pfn := PfNum(phy);
      if !BitChk(pfn, order) || cnt[order] == 0 {
        return false;
      }
      BitRange(b);
      ghost var k: nat :| k < |lists[order]| && lists[order][k] == pfn;
      var p := PhysToVirt(phy);
      var prev := Seek(free[order], p, lists[order], k);
      assert LinkAt(next, lists[order], k, Base());
      if prev == 0 {
        free := free[order := next[p]];
      } else {
        next := next[prev := next[p]];
      }
      cnt := cnt[order := cnt[order] - 1];
      bitmap := bitmap[order := BitClr(bitmap[order], PairIdx(pfn, order))];
      lists := lists[order := Without(lists[order], k)];
      avail := avail - {b};
      Taken(b, k);
      ok := true;
    }

    /** A block inside an accepted one passes the bitmap check and lies inside the region. */
    lemma InRange(b: Block)
      requires Shape() && AcceptedOk() && b.Aligned() && Inside(b, accepted)
      ensures BitChk(b.pfn, b.ord) && b.End() <= totalPages
      ensures mbase + 4096 * b.pfn < PHYS_MAX
    {
      var a :| a in accepted && b.Within(a);
      WithinOrder(b, a);
      if b.ord < a.ord {
        ParentWithin(b, a);
        PairIsParent(b);
        CellFits(PairIdx(b.pfn, b.ord), Pow2(b.ord + 1), rpages);
      } else {
        SameOrder(b, a);
      }
    }

    ghost predicate AllTakeable()
      requires Shape()
      reads this`avail
    {
      forall b :: b in avail ==> Takeable(b)
    }

    lemma FreeAreTakeable()
      requires Valid()
      ensures AllTakeable()
    {
      forall b | b in avail ensures Takeable(b) {
        assert b in avail + out;
        InRange(b);
      }
    }

    /** The null head of an empty list fails the bitmap check: its page number is beyond any region
        the direct map can hold. */
    lemma NullRefused(ord: nat)
      requires Shape() && ord <= maxOrder
      ensures !BitChk(PfNum(VirtToPhys(0)), ord)
    {
      NullIsHigh();
      var n := PfNum(VirtToPhys(0));
      assert n >= rpages by {
        assert mbase <= PHYS_MAX;
        assert (0x8000_0000_0000 - mbase) % U64 == 0x8000_0000_0000 - mbase;
      }
      DivMonotone(rpages, n, Pow2(ord + 1));
    }

    /** The first page of a list that is not empty. */
    lemma FirstPage(pfn: nat, head: nat)
      requires Shape() && pfn < totalPages && head == Virt(pfn)
      ensures PfNum(VirtToPhys(head)) == pfn
    {
      PfNumOf(pfn, mbase + 4096 * pfn);
    }

    /** The page number that is read off the head of a list. */
    lemma HeadPage(order: nat, blk: nat)
      requires Consistent() && AllTakeable() && order <= TOP && blk == free[order]
      ensures lists[order] == [] ==> !BitChk(PfNum(VirtToPhys(blk)), order)
      ensures lists[order] != [] ==>
                && PfNum(VirtToPhys(blk)) == lists[order][0] && blk == Virt(lists[order][0])
                && Takeable(Block(lists[order][0], order)) && LinkAt(next, lists[order], 0, Base())
    {
      var l := lists[order];
      assert Chain(next, free[order], l, Base());
      if l == [] {
        if order <= maxOrder { NullRefused(order); }
      } else {
        assert l[0] in l && Takeable(Block(l[0], order)) && LinkAt(next, l, 0, Base());
        FirstPage(l[0], blk);
      }
    }

    /** kbud_pop_head */
    method PopHead(order: nat) returns (blk: nat, ghost b: Block)
      requires Consistent() && AllTakeable() && order <= TOP
      modifies this`free, this`cnt, this`bitmap, this`lists, this`avail
      ensures Consistent()
      ensures blk == KPAGE_ERR ==> avail == old(avail) && forall c :: c in avail ==> c.ord != order
      ensures blk != KPAGE_ERR ==>
                && blk == Virt(b.pfn) && b.ord == order && b in old(avail)
                && avail == old(avail) - {b}
    {
      blk := free[order];
      HeadPage(order, blk);
      var pfn := PfNum(VirtToPhys(blk));
      b := Block(pfn, order);
      if !BitChk(pfn, order) {
        return KPAGE_ERR, b;
      }
      BitRange(b);
      free := free[order := next[blk]];
      cnt := cnt[order := cnt[order] - 1];
      bitmap := bitmap[order := BitClr(bitmap[order], PairIdx(pfn, order))];
      lists := lists[order := Without(lists[order], 0)];
      avail := avail - {b};
      Taken(b, 0);
    }

    /** On aligned regions the physical buddy of a split is the buddy that merging looks for. */
    lemma PhysicalBuddy(b: Block)
      requires Shape() && b.Aligned() && b.ord < maxOrder
      ensures Xor(mbase + 4096 * b.pfn, Shl(PAGESIZE, b.ord)) == mbase + 4096 * b.Buddy().pfn
    {
      BuddyAddress(mbase / 4096, b, maxOrder);
    }

    /** The same from the virtual address of the lower half. */
    lemma SplitBuddy(addr: nat, order: nat, b: Block)
      requires Shape() && b.Aligned() && b.ord == order < maxOrder
      requires addr == Virt(b.pfn) && mbase + 4096 * b.pfn < PHYS_MAX
      ensures Xor(VirtToPhys(addr), Shl(PAGESIZE, order)) == mbase + 4096 * b.Buddy().pfn
    {
      PfNumOf(b.pfn, mbase + 4096 * b.pfn);
      PhysicalBuddy(b);
    }

    /** Splitting in hand leaves an upper half that may be pushed and passes the bitmap check. */
    lemma UpperHalfPushable(b: Block)
      requires Valid() && b in out && b.ord > 0
      ensures b.Aligned() && LowHalf(b).Aligned()
      ensures Inv(accepted, SplitOnce(H(), b))
      ensures Pushable(LowHalf(b).Buddy()) && LowHalf(b).Buddy() !in avail + out
      ensures BitChk(LowHalf(b).Buddy().pfn, b.ord - 1)
      ensures LowHalf(b).Buddy().pfn == b.pfn + Pow2(b.ord - 1) && b.ord <= maxOrder
      ensures mbase + 4096 * b.pfn < PHYS_MAX
    {
      assert b in avail + out;
      InRange(b);
      SplitKeepsInv(accepted, H(), b);
      var lo := LowHalf(b);
      Halves(b);
      assert lo.Buddy() in SplitOnce(H(), b).free + SplitOnce(H(), b).out;
      InRange(lo.Buddy());
      UpperHalfHeadsNone(accepted, H(), b);
    }

    /** The upper half of a block goes on its list, found by the physical address of the lower half lo. */
    method PushUpper(addr: nat, order: nat, ghost lo: Block)
      requires Consistent() && lo.Aligned() && lo.ord == order < maxOrder && Pushable(lo.Buddy())
      requires addr == Virt(lo.pfn) && mbase + 4096 * lo.pfn < PHYS_MAX && BitChk(lo.Buddy().pfn, order)
      modifies this`next, this`free, this`cnt, this`bitmap, this`lists, this`avail
      ensures Consistent() && avail == old(avail) + {lo.Buddy()}
    {
      var phys := VirtToPhys(addr);
      var buddy := Xor(phys, Shl(PAGESIZE, order));
      SplitBuddy(addr, order, lo);
      var _ := Push(buddy, order, lo.Buddy());
    }

    /** One turn of the split loop: the upper half of the block in hand goes on its list. */
    method SplitStep(addr: nat, order: nat, ghost blk: Block)
      requires Valid() && blk in out && blk.ord == order + 1 && addr == Virt(blk.pfn)
      modifies this`next, this`free, this`cnt, this`bitmap, this`lists, this`avail, this`out
      ensures Valid() && blk.Aligned() && LowHalf(blk).Aligned()
      ensures H() == SplitOnce(old(H()), blk) && LowHalf(blk) in out
    {
      UpperHalfPushable(blk);
      ghost var lo, h := LowHalf(blk), H();
      PushUpper(addr, order, lo);
      out := out - {blk} + {lo};
      assert H() == SplitOnce(h, blk);
    }

    /** The split loop of kbud_alloc. */
    method SplitDown(addr: nat, order0: nat, req: nat, ghost b: Block)
      requires Valid() && b in out && req <= order0 == b.ord && addr == Virt(b.pfn)
      modifies this`next, this`free, this`cnt, this`bitmap, this`lists, this`avail, this`out
      ensures Valid() && b.Aligned() && H() == SplitTo(old(H()), b, req)
    {
      assert b in avail + out;
      var order := order0;
      ghost var blk := b;
      while order > req
        invariant blk.ord == order >= req && blk.pfn == b.pfn && blk.Aligned()
        invariant Valid() && blk in out
        invariant SplitTo(H(), blk, req) == SplitTo(old(H()), b, req)
      {
        SplitToUnfold(H(), blk, req);
        order := order - 1;
        SplitStep(addr, order, blk);
        blk := LowHalf(blk);
      }
    }

    /** The body of the region loop of kbud_alloc for one region; KPAGE_ERR stands for `continue`. */
    method AllocFrom(req: nat) returns (addr: nat, ghost b: Block)
      requires Valid() && req <= TOP
      modifies this`next, this`free, this`cnt, this`bitmap, this`lists, this`avail, this`out
      ensures Valid()
      ensures addr == KPAGE_ERR ==> H() == old(H()) && forall c :: c in avail ==> c.ord < req
      ensures addr != KPAGE_ERR ==>
                && Enabled(old(H()), Event.Alloc(b, req))
                && H() == Step(old(H()), Event.Alloc(b, req))
                && addr == Virt(b.pfn)
    {
      addr, b := KPAGE_ERR, Block(0, 0);
      var order := FirstOrder(req);
      if order == ORDERS || order < req { return; }
      FreeAreTakeable();
      addr, b := PopHead(order);
      if addr == KPAGE_ERR {
        return;
      }
      PopKeepsInv(accepted, old(H()), b);
      out := out + {b};
      SplitDown(addr, order, req, b);
    }

    /** The order search of kbud_alloc. */
    method FirstOrder(req: nat) returns (order: nat)
      requires Consistent() && req <= TOP
      ensures req <= order <= TOP && (order <= maxOrder || order == req)
      ensures forall c :: c in avail && req <= c.ord ==> order <= c.ord
      ensures order == maxOrder || order > maxOrder || exists c :: c in avail && c.ord == order
    {
      order := req;
      while order < ORDERS && cnt[order] == 0 && order < maxOrder
        invariant req <= order <= TOP && (order <= maxOrder || order == req)
        invariant forall c :: c in avail && req <= c.ord ==> order <= c.ord
      {
        assert forall c :: c in avail && c.ord == order ==> c.pfn in lists[order];
        order := order + 1;
      }
      if order < maxOrder {
        assert lists[order][0] in lists[order];
      }
    }

    /** The buddy leaves its list; kbud_free then clears the pair's bit a second time. */
    method TakeBuddy(bpfn: nat, k: nat, ghost buddy: Block)
      requires Consistent() && Takeable(buddy) && buddy == Block(bpfn, k) && k < TOP
      modifies this`next, this`free, this`cnt, this`bitmap, this`lists, this`avail
      ensures Consistent() && avail == old(avail) - {buddy}
    {
      var phy := mbase + 4096 * bpfn;
      var _ := Pop(phy, k, buddy);
      ghost var bits := bitmap;
      PairIsClear(buddy);
      bitmap := bitmap[k := BitClr(bitmap[k], PairIdx(bpfn, k))];
      assert bitmap == bits;
    }

    lemma PairIsClear(b: Block)
      requires Consistent() && b.Aligned() && BitChk(b.pfn, b.ord) && b.ord < TOP
      requires b !in avail && b.Buddy() !in avail
      ensures PairIdx(b.pfn, b.ord) / 8 < |bitmap[b.ord]|
      ensures BitClr(bitmap[b.ord], PairIdx(b.pfn, b.ord)) == bitmap[b.ord]
    {
      BitRange(b);
      assert BitOk(b);
      ClrClear(bitmap[b.ord], PairIdx(b.pfn, b.ord));
    }

    /** One turn of the merge loop of kbud_free. */
    method MergeStep(pfn: nat, k: nat, ghost blk: Block) returns (merged: bool)
      requires Valid() && blk in out && blk.ord == k < TOP && blk.pfn == pfn && blk.Aligned()
      modifies this`next, this`free, this`cnt, this`bitmap, this`lists, this`avail, this`out
      ensures Valid()
      ensures merged <==> blk.Buddy() in old(avail)
      ensures !merged ==> H() == old(H())
      ensures merged ==> H() == MergeOnce(old(H()), blk) && blk.Parent() in out
    {
      ghost var buddy := blk.Buddy();
      BuddyPfn(blk);
      var bpfn := Xor(pfn, Shl(1, k));
      Family(blk);
      FreeAreTakeable();
      if bpfn >= totalPages { return false; }
      if !BitChk(bpfn, k) { return false; }
      assert BitOk(buddy);
      BitRange(buddy);
      if !BitGet(bitmap[k], PairIdx(bpfn, k)) { return false; }
      TakeBuddy(bpfn, k, buddy);
      MergeKeepsInv(accepted, old(H()), blk);
      out := out - {blk} + {blk.Parent()};
      merged := true;
    }

    /** kbud_free once the region is found: merge upwards while the buddy is free, then push. */
    method FreeBlock(phy: nat, order: nat, ghost b: Block)
      requires Valid() && b in out
      requires phy == mbase + 4096 * b.pfn && order == b.ord
      modifies this`next, this`free, this`cnt, this`bitmap, this`lists, this`avail, this`out
      ensures Valid() && b.Aligned() && b.ord <= TOP
      ensures H() == Release(old(H()), b)
    {
      assert b in avail + out;
      InRange(b);
      PfNumOf(b.pfn, phy);
      var pfn := PfNum(phy);
      var k := order;
      ghost var blk := b;
      while k < TOP
        invariant k == blk.ord <= TOP && pfn == blk.pfn && blk.Aligned()
        invariant Valid() && blk in out
        invariant Release(H(), blk) == Release(old(H()), b)
      {
        ReleaseUnfold(H(), blk);
        var merged := MergeStep(pfn, k, blk);
        if !merged { break; }
        BuddyPfn(blk);
        pfn := AndNot(pfn, Shl(1, k));
        k := k + 1;
        blk := blk.Parent();
      }
      PushInHand(pfn, k, blk);
    }

    /** The final push of kbud_free is never refused. */
    method PushInHand(pfn: nat, k: nat, ghost blk: Block)
      requires Valid() && blk in out && blk == Block(pfn, k)
      requires blk.Aligned() && (k < TOP ==> blk.Buddy() !in avail)
      modifies this`next, this`free, this`cnt, this`bitmap, this`lists, this`avail, this`out
      ensures Valid() && H() == BuddyBlocks.Push(old(H()), blk)
    {
      assert blk in avail + out;
      InRange(blk);
      forall c | c in avail ensures c.pfn != blk.pfn {
        assert c.Apart(blk);
      }
      PushKeepsInv(accepted, H(), blk);
      var ok := Push(mbase + 4096 * pfn, k, blk);
      out := out - {blk};
    }

    /** A caller may overwrite any page it holds; the allocator does not notice. */
    method Scribble(page: nat, value: nat, ghost b: Block)
      requires Valid() && b in out && b.Has(page)
      modifies this`next
      ensures Valid()
    {
      forall o: nat | o < ORDERS ensures page !in lists[o] {
        assert Block(page, o) in avail ==> Block(page, o).Apart(b);
      }
      var p := PHMMAP + mbase + 4096 * page;
      ChainsOther(next, free, lists, Base(), page, p, value);
      next := next[p := value];
    }
  }

  /** No free block begins where the upper half of a block in hand does. */
  lemma UpperHalfHeadsNone(accepted: set<Block>, h: Heap, b: Block)
    requires Inv(accepted, h) && b in h.out && b.ord > 0 && b.Aligned() && LowHalf(b).Aligned()
    ensures forall c :: c in h.free ==> c.pfn != LowHalf(b).Buddy().pfn
  {
    Halves(b);
    forall c | c in h.free ensures c.pfn != LowHalf(b).Buddy().pfn {
      assert c in h.free + h.out && b in h.free + h.out && c != b;
      assert c.Apart(b);
    }
  }

  lemma ReleaseUnfold(h: Heap, b: Block)
    requires b.Aligned() && b.ord < TOP
    ensures b.Parent().Aligned()
    ensures b.Buddy() in h.free ==> Release(h, b) == Release(MergeOnce(h, b), b.Parent())
    ensures b.Buddy() !in h.free ==> Release(h, b) == BuddyBlocks.Push(h, b)
  {
    Family(b);
  }

  lemma SplitToUnfold(h: Heap, b: Block, req: nat)
    requires b.Aligned() && req < b.ord
    ensures LowHalf(b).Aligned()
    ensures SplitTo(h, b, req) == SplitTo(SplitOnce(h, b), LowHalf(b), req)
  {
    Halves(b);
  }

  /** Flipping the bit of its order gives the buddy of an aligned block, clearing it the parent. */
  lemma BuddyPfn(b: Block)
    requires b.Aligned()
    ensures Xor(b.pfn, Shl(1, b.ord)) == b.Buddy().pfn
    ensures AndNot(b.pfn, Shl(1, b.ord)) == b.Parent().pfn
  {
    assert Shl(1, b.ord) == Pow2(b.ord);
    XorBit(b.pfn, b.ord);
    AndNotBit(b.pfn, b.ord);
  }

  /** Flipping bit k of a page frame number, scaled to addresses. */
  lemma XorScaled(n: nat, k: nat)
    ensures n / Pow2(k) % 2 == 1 ==> n >= Pow2(k)
    ensures Xor(4096 * n, Shl(4096, k)) == 4096 * (if n / Pow2(k) % 2 == 0 then n + Pow2(k) else n - Pow2(k))
  {
    var d, big := Pow2(k), Pow2(12 + k);
    assert big == 4096 * d == Shl(4096, k) by { Pow12(); Pow2Add(12, k); }
    assert (4096 * n) / big == n / d by { DivScale(n, d, 4096); }
    assert n / d % 2 == 1 ==> n >= d by { XorBit(n, k); }
    XorBit(4096 * n, 12 + k);
  }

  lemma BuddyAddress(m: nat, b: Block, maxOrder: nat)
    requires m % Pow2(maxOrder) == 0 && b.Aligned() && b.ord < maxOrder
    ensures Xor(4096 * (m + b.pfn), Shl(4096, b.ord)) == 4096 * (m + b.Buddy().pfn)
  {
    ModPow2Down(m, b.ord + 1, maxOrder);
    EvenShift(m, b.pfn, b.Size());
    XorScaled(m + b.pfn, b.ord);
    if !b.IsLeft() { BuddyIsLow(b); }
  }

  /** Adding a multiple of 2d does not change the parity of the quotient by d. */
  lemma EvenShift(m: nat, p: nat, d: nat)
    requires d > 0 && m % (2 * d) == 0
    ensures (m + p) / d % 2 == p / d % 2
  {
    var a, q, r := m / (2 * d), p / d, p % d;
    assert m == (2 * a) * d by { assert m == a * (2 * d); MulAssoc(a, 2, d); }
    assert m + p == (2 * a + q) * d + r by { MulDistr(2 * a, q, d); }
    DivModUnique(m + p, d, 2 * a + q, r);
  }

  lemma DivMonotone(a: int, b: int, d: int)
    requires a <= b && d > 0
    ensures a / d <= b / d
  {
    if b / d < a / d {
      MulGap(b / d, a / d, d);
    }
  }
}
