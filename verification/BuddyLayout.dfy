/**
 Where a region keeps its header and bitmaps (kbud_init_region in kernel/mm/buddy.c), as offsets
 from the start of the region.
 */
module BuddyLayout {
  import opened Powers
  import opened Bits
  import opened Phys

  /** PFRAME_MAX_ORDER, sizeof(slave_buddy_t) and the alignment of each bitmap */
  const ORDERS: nat := 11
  const HEADER: nat := 400

  /** n rounded up to a multiple of 64. */
  function AlignUp64(n: nat): nat { AndNot(n + 63, 63) }

  lemma AlignUp64Grows(n: nat)
    ensures n <= AlignUp64(n) <= n + 63 && AlignUp64(n) % 64 == 0
  {
    RoundsDown(n + 63, 63);
    Multiple64(n + 63);
  }

  lemma RoundsDown(x: nat, mask: nat)
    requires mask == 63
    ensures AndNot(x, mask) == x - x % 64
  {
    assert Pow2(6) == 64 by { Pow2Add(3, 3); assert Pow2(3) == 8; }
    AndNotMask(x, 6);
  }

  lemma Multiple64(x: nat)
    ensures (x - x % 64) % 64 == 0
  {
    DivModUnique(x - x % 64, 64, x / 64, 0);
  }

  /** kbud_pair_idx */
  function PairIdx(pfn: nat, ord: nat): nat { Shr(pfn, ord + 1) }

  /** n rounded up to whole pages */
  function PageCeil(n: nat): nat { (n + 4095) / 4096 * 4096 }

  /** What kbud_init_region computes before it looks at the room that is left. */
  datatype Layout = Layout(
    maxOrder: nat,
    maxbits: seq<nat>,
    offset: seq<nat>,     // lut.bitmap_arr, relative to the region
    bytes: seq<nat>,      // length of each bitmap
    end: nat)             // first byte after the last bitmap
  {
    /** mbase - rbase */
    function Reserved(): nat { PageCeil(end) }

    /** Every order up to maxOrder has one bit per pair of the region, and no higher order has a pair. */
    ghost predicate Fits(rpages: nat)
    {
      && Sized() && maxOrder < ORDERS
      && (forall o: nat :: o <= maxOrder ==> OrderFits(rpages, o))
      && (maxOrder + 1 < ORDERS ==> PairIdx(rpages, maxOrder + 1) == 0)
      && (maxOrder > 0 ==> PairIdx(rpages, maxOrder) > 0)
    }

    /** The bitmaps follow the header one after the other and end before the first usable page. */
    ghost predicate Stacked()
      requires Sized() && maxOrder < ORDERS
    {
      && HEADER <= end <= Reserved()
      && (forall o: nat :: o <= maxOrder ==> HEADER <= offset[o] && offset[o] + bytes[o] <= end)
      && (forall o: nat, o': nat :: o < o' <= maxOrder ==> offset[o] + bytes[o] <= offset[o'])
    }

    /** No byte is spent that is not needed: a bitmap has as many bytes as its bits fill, the first one
        begins behind the header and every other one the next multiple of 64 bytes behind the one before. */
    ghost predicate Packed()
      requires Sized() && maxOrder < ORDERS
    {
      offset[0] == HEADER && forall o: nat :: o <= maxOrder ==> Tight(o)
    }

    /** What begins behind the bitmap of order o: the next one, or the rest. */
    ghost function Behind(o: nat): nat
      requires Sized() && o <= maxOrder < ORDERS
    {
      if o < maxOrder then offset[o + 1] else end
    }

    ghost predicate Tight(o: nat)
      requires Sized() && o <= maxOrder < ORDERS
    {
      && maxbits[o] <= 8 * bytes[o] < maxbits[o] + 8
      && offset[o] + bytes[o] <= Behind(o) < offset[o] + bytes[o] + 64 && (Behind(o) - offset[o]) % 64 == 0
    }

    ghost predicate Sized() { |maxbits| == |offset| == |bytes| == ORDERS }

    ghost predicate OrderFits(rpages: nat, o: nat)
      requires Sized() && o < ORDERS
    {
      maxbits[o] == PairIdx(rpages, o) && maxbits[o] <= 8 * bytes[o]
    }

    /** The state of the loop before its i-th turn. */
    ghost predicate Partial(rpages: nat, i: nat)
    {
      && end == EndAfter(rpages, i)
      && Sized() && i <= ORDERS && HEADER <= end <= HEADER + Room(rpages, i)
      && maxOrder == (if i == 0 then 0 else i - 1)
      && (i > 0 ==> PairIdx(rpages, maxOrder) > 0)
      && (i == 0 ==> maxbits[0] == bytes[0] == 0 && offset[0] == HEADER)
      && (forall o: nat :: o < i ==> OrderFits(rpages, o))
      && (forall o: nat :: o < i ==> HEADER <= offset[o] && offset[o] + bytes[o] <= end)
      && (forall o: nat, o': nat :: o < o' < i ==> offset[o] + bytes[o] <= offset[o'])
      && Packed()
    }

    /** One more bitmap at the end. */
    function Add(i: nat, bits: nat): Layout
      requires |maxbits| == |offset| == |bytes| == ORDERS && i < ORDERS
    {
      var n := (bits + 7) / 8;
      Layout(i, maxbits[i := bits], offset[i := end], bytes[i := n], end + AlignUp64(n))
    }

    lemma AddKeepsPartial(rpages: nat, i: nat)
      requires Partial(rpages, i) && i < ORDERS && PairIdx(rpages, i) > 0
      ensures Add(i, PairIdx(rpages, i)).Partial(rpages, i + 1)
    {
      AlignUp64Grows((PairIdx(rpages, i) + 7) / 8);
      PairIdxSmaller(rpages, i);
      var l := Add(i, PairIdx(rpages, i));
      forall o: nat | o < i + 1 ensures l.OrderFits(rpages, o) {
        if o < i { assert OrderFits(rpages, o); }
      }
      AddKeepsPacked(i, PairIdx(rpages, i));
    }

    lemma AddKeepsPacked(i: nat, bits: nat)
      requires Sized() && maxOrder == (if i == 0 then 0 else i - 1) && i < ORDERS && Packed()
      requires i == 0 ==> end == HEADER
      ensures Add(i, bits).Packed()
    {
      var l := Add(i, bits);
      AlignUp64Grows(l.bytes[i]);
      forall o: nat | o <= i ensures l.Tight(o) {
        if o < i { assert Tight(o); }
      }
    }
  }

  /** First byte after the header and the bitmaps of orders below i. */
  function EndAfter(rpages: nat, i: nat): nat
  {
    if i == 0 then HEADER
    else
      var bits := PairIdx(rpages, i - 1);
      EndAfter(rpages, i - 1) + if bits == 0 then 0 else AlignUp64((bits + 7) / 8)
  }

  /** mbase - rbase for a region of rpages pages */
  function ReservedFor(rpages: nat): nat { PageCeil(EndAfter(rpages, ORDERS)) }

  /** max_order for a region of rpages pages: the largest order, up to 10, with a whole pair */
  function MaxOrderFor(rpages: nat): nat
  {
    if rpages < 2 then 0 else if Log2(rpages) > 10 then 10 else Log2(rpages) - 1
  }

  lemma {:induction false} EndStays(rpages: nat, i: nat, j: nat)
    requires i <= j && PairIdx(rpages, i) == 0
    ensures EndAfter(rpages, j) == EndAfter(rpages, i)
    decreases j
  {
    if i < j {
      EndStays(rpages, i, j - 1);
      NoLargerPairs(rpages, i, j - 1);
    }
  }

  lemma {:induction false} NoLargerPairs(rpages: nat, i: nat, j: nat)
    requires i <= j && PairIdx(rpages, i) == 0
    ensures PairIdx(rpages, j) == 0
    decreases j
  {
    if i < j {
      NoLargerPairs(rpages, i, j - 1);
      PairIdxHalves(rpages, j - 1);
    }
  }

  /** A region holds a pair of order o exactly when it has 2^(o+1) pages. */
  lemma HasPair(rpages: nat, o: nat)
    ensures PairIdx(rpages, o) > 0 <==> Pow2(o + 1) <= rpages
  {
    CellFits(0, Pow2(o + 1), rpages);
  }

  lemma MaxOrderIs(l: Layout, rpages: nat)
    requires l.Fits(rpages)
    ensures l.maxOrder == MaxOrderFor(rpages)
  {
    HasPair(rpages, l.maxOrder);
    HasPair(rpages, l.maxOrder + 1);
    if rpages >= 1 {
      Log2Bounds(rpages);
      if l.maxOrder > 0 && Log2(rpages) < l.maxOrder + 1 { Pow2Monotone(Log2(rpages) + 1, l.maxOrder + 1); }
      if l.maxOrder + 1 < ORDERS && Log2(rpages) >= l.maxOrder + 2 { Pow2Monotone(l.maxOrder + 2, Log2(rpages)); }
    }
  }

  lemma LayoutDone(l: Layout, rpages: nat, i: nat)
    requires l.Partial(rpages, i) && (i == ORDERS || PairIdx(rpages, i) == 0)
    ensures l.end == EndAfter(rpages, ORDERS) && l.end <= HEADER + 11 * (rpages + 64)
  {
    assert l.end == EndAfter(rpages, ORDERS) by { if i < ORDERS { EndStays(rpages, i, ORDERS); } }
    assert l.end <= HEADER + 11 * (rpages + 64) by {
      RoomGrows(rpages, i, ORDERS);
      RoomIs(rpages, ORDERS);
    }
  }

  lemma LayoutFits(l: Layout, rpages: nat, i: nat)
    requires l.Partial(rpages, i) && (i == ORDERS || PairIdx(rpages, i) == 0)
    ensures l.Fits(rpages) && l.Stacked() && l.Packed()
  {
    if i == 0 { PairIdxHalves(rpages, 0); }
  }

  /** A length rounded up to 64 bytes is the only one of its kind. */
  lemma RoundedOnce(n: nat, gap: nat)
    requires n <= gap < n + 64 && gap % 64 == 0
    ensures gap == AlignUp64(n)
  {
    AlignUp64Grows(n);
    SameMultiple(gap, AlignUp64(n));
  }

  lemma SameMultiple(a: nat, b: nat)
    requires a % 64 == 0 && b % 64 == 0 && a < b + 64 && b < a + 64
    ensures a == b
  {
  }

  lemma BytesFor(bits: nat, n: nat)
    requires bits <= 8 * n < bits + 8
    ensures n == (bits + 7) / 8
  {
  }

  lemma EndStep(rpages: nat, o: nat, bits: nat, n: nat, gap: nat)
    requires bits == PairIdx(rpages, o) && bits <= 8 * n < bits + 8 && n <= gap < n + 64 && gap % 64 == 0
    ensures EndAfter(rpages, o + 1) == EndAfter(rpages, o) + gap
  {
    BytesFor(bits, n);
    if bits == 0 { SameMultiple(gap, 0); } else { RoundedOnce(n, gap); }
  }

  /** The bitmap of order o ends where EndAfter says. */
  lemma {:induction false} PackedTo(l: Layout, rpages: nat, o: nat)
    requires l.Fits(rpages) && l.Packed() && o <= l.maxOrder
    ensures l.offset[o] == EndAfter(rpages, o) && l.Behind(o) == EndAfter(rpages, o + 1)
  {
    if o > 0 { PackedTo(l, rpages, o - 1); }
    assert l.Tight(o) && l.OrderFits(rpages, o);
    EndStep(rpages, o, l.maxbits[o], l.bytes[o], l.Behind(o) - l.offset[o]);
  }

  /** What a region keeps for itself is what any layout without waste takes, in whole pages. */
  lemma ReservedIs(l: Layout, rpages: nat)
    requires l.Fits(rpages) && l.Packed()
    ensures l.end <= ReservedFor(rpages) < l.end + 4096 && ReservedFor(rpages) % 4096 == 0
  {
    PackedTo(l, rpages, l.maxOrder);
    if l.maxOrder + 1 < ORDERS { EndStays(rpages, l.maxOrder + 1, ORDERS); }
    CeilIsWhole(l.end);
  }

  /** The bitmap loop of kbud_init_region. */
  method ComputeLayout(rpages: nat) returns (l: Layout)
    ensures l.Fits(rpages) && l.Stacked() && l.Packed() && l.end == EndAfter(rpages, ORDERS)
    ensures l.end <= HEADER + 11 * (rpages + 64)
  {
    var zeroes := [0, 0, 0, 0, 0, 0, 0, 0, 0, 0, 0];
    l := Layout(0, zeroes, zeroes[0 := HEADER], zeroes, HEADER);
    var i := 0;
    while i < ORDERS
      invariant l.Partial(rpages, i)
    {
      var bits := Shr(rpages, i + 1);
      if bits == 0 { break; }
      l.AddKeepsPartial(rpages, i);
      l := l.Add(i, bits);
      i := i + 1;
    }
    LayoutDone(l, rpages, i);
    LayoutFits(l, rpages, i);
  }

  /** An upper bound for i bitmaps. */
  ghost function Room(rpages: nat, i: nat): nat
  {
    if i == 0 then 0 else Room(rpages, i - 1) + rpages + 64
  }

  lemma {:induction false} RoomGrows(rpages: nat, i: nat, j: nat)
    requires i <= j
    ensures Room(rpages, i) <= Room(rpages, j)
    decreases j
  {
    if i < j { RoomGrows(rpages, i, j - 1); }
  }

  lemma {:induction false} RoomIs(rpages: nat, i: nat)
    ensures Room(rpages, i) == i * (rpages + 64)
  {
    if i > 0 {
      RoomIs(rpages, i - 1);
      MulDistr(i - 1, 1, rpages + 64);
    }
  }

  lemma {:induction false} EndAtMost(rpages: nat, i: nat)
    ensures EndAfter(rpages, i) <= HEADER + Room(rpages, i)
  {
    if i > 0 {
      EndAtMost(rpages, i - 1);
      var bits := PairIdx(rpages, i - 1);
      PairIdxSmaller(rpages, i - 1);
      AlignUp64Grows((bits + 7) / 8);
    }
  }

  /** A region never keeps more than half of its pages for itself, so that its largest block fits. */
  lemma HalfIsUsable(rpages: nat, reserved: nat)
    requires rpages >= 2 && reserved == ReservedFor(rpages)
    ensures reserved / 4096 <= rpages / 2 && Pow2(MaxOrderFor(rpages)) <= rpages - reserved / 4096
  {
    EndAtMost(rpages, ORDERS);
    RoomIs(rpages, ORDERS);
    HalfBound(rpages, EndAfter(rpages, ORDERS), reserved);
    Log2Bounds(rpages);
    Pow2Monotone(MaxOrderFor(rpages) + 1, Log2(rpages));
  }

  lemma HalfBound(rpages: nat, end: nat, reserved: nat)
    requires rpages >= 2 && end <= HEADER + 11 * (rpages + 64) && reserved == PageCeil(end)
    ensures reserved / 4096 <= rpages / 2
  {
    DivModUnique(reserved, 4096, (end + 4095) / 4096, 0);
  }

  /** The geometry part of kbud_init_region: page count, bitmaps, first usable page, usable pages. */
  method Place(phy: nat, len: nat) returns (rpages: nat, l: Layout, mbase: nat, totalPages: nat)
    requires phy % 4096 == 0 && phy + len <= PHYS_MAX
    ensures rpages == len / 4096 && l.Fits(rpages) && l.Stacked() && l.Packed()
    ensures mbase == phy + l.Reserved() && l.end == EndAfter(rpages, ORDERS)
    ensures mbase % 4096 == 0 && phy + l.end <= mbase < phy + l.end + 4096
    ensures mbase < phy + len ==> totalPages == rpages - l.Reserved() / 4096
  {
    rpages := WholePages(len);
    l := ComputeLayout(rpages);
    EndIsSmall(phy, len, l.end);
    mbase := BaseAfter(phy, l.end);
    CeilIsWhole(l.end);
    totalPages := UsablePages(phy, len, l.Reserved());
  }

  lemma CeilIsWhole(n: nat)
    ensures PageCeil(n) % 4096 == 0 && n <= PageCeil(n) < n + 4096
  {
    DivModUnique(PageCeil(n), 4096, (n + 4095) / 4096, 0);
  }

  lemma EndIsSmall(phy: nat, len: nat, end: nat)
    requires phy + len <= PHYS_MAX && end <= HEADER + 11 * (len / 4096 + 64)
    ensures phy + end + 4096 <= U64
  {
    assert len / 4096 <= len;
  }

  /** The whole pages from the first usable one to the end of the memory. */
  method UsablePages(phy: nat, len: nat, reserved: nat) returns (n: nat)
    requires reserved % 4096 == 0
    ensures reserved < len ==> n == len / 4096 - reserved / 4096
  {
    n := if phy + reserved >= phy + len then 0 else (phy + len - (phy + reserved)) / 4096;
  }

  /** The whole pages in a number of bytes. */
  method WholePages(len: nat) returns (n: nat)
    ensures n == len / 4096
  {
    AlignDown(len);
    n := PageAlignDown(len) / 4096;
  }

  /** PAGE_ALIGNUP of the address after the last bitmap */
  method BaseAfter(phy: nat, end: nat) returns (mbase: nat)
    requires phy % 4096 == 0 && phy + end + 4096 <= U64
    ensures mbase == phy + PageCeil(end) && mbase % 4096 == 0
  {
    AlignUp(phy + end);
    mbase := PageAlignUp(phy + end);
    assert phy == 4096 * (phy / 4096) && mbase == 4096 * (mbase / 4096);
  }

  lemma PairIdxSmaller(n: nat, o: nat)
    ensures PairIdx(n, o) <= n
  {
    if n / Pow2(o + 1) > n {
      MulMono(1, Pow2(o + 1), n / Pow2(o + 1));
    }
  }

  lemma PairIdxHalves(n: nat, o: nat)
    ensures PairIdx(n, o + 1) == PairIdx(n, o) / 2
  {
    var d := Pow2(o + 1);
    var q, r := n / d, n % d;
    assert n == q * d + r;
    assert n == (q / 2) * (2 * d) + ((q % 2) * d + r) by {
      MulAssoc(q / 2, 2, d);
      MulDistr((q / 2) * 2, q % 2, d);
    }
    DivModUnique(n, 2 * d, q / 2, (q % 2) * d + r);
  }
}
