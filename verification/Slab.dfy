/**
 The slab cache of kernel/mm/slab.c on top of the page allocator: slabs on three lists by how many of
 their objects are free, free objects chained through their own memory.
 */
module Slab {
  import opened Powers
  import opened Bits
  import opened Phys
  import opened BuddyBlocks
  import opened BuddyMaster
  import opened Sequences
  import opened LinkedLists

  /** sizeof(struct kslab) */
  const HEADER: nat := 48

  const MAX_EMPTY: nat := 4

  /** The three lists of a cache. */
  const FULL: nat := 0
  const PARTIAL: nat := 1
  const EMPTY: nat := 2

  // ---- geometry -------------------------------------------------------------------------------------

  /** What kslab_cache_create computes from the object size and alignment. */
  datatype Geometry = Geometry(order: nat, reserved: nat, perSlab: nat, objSize: nat)
  {
    function Bytes(): nat { 4096 * Pow2(order) }

    /** Header, then objects, then waste. */
    predicate Ok()
    {
      && order < 4 && HEADER <= reserved && 8 <= perSlab && 8 <= objSize
      && reserved + perSlab * objSize <= Bytes()
    }

    /** The i-th object of the slab at s. */
    function Obj(s: nat, i: nat): nat { s + reserved + i * objSize }
  }

  /** One way to cut up a slab: n objects of this size behind r bytes for the header, which end at the
      first multiple of the alignment. */
  predicate CutUp(order: nat, n: nat, r: nat, objSize: nat, alignment: nat)
    requires alignment > 0
  {
    && order < 4 && HEADER <= r < HEADER + alignment && r % alignment == 0
    && r + n * objSize <= 4096 * Pow2(order)
  }

  /** The bytes that are left over. */
  function Remaining(order: nat, n: nat, r: nat, objSize: nat): int { 4096 * Pow2(order) - r - n * objSize }

  /** No other way with at least eight objects leaves less, and none of a smaller order leaves as little. */
  ghost predicate Thrifty(g: Geometry, alignment: nat)
    requires alignment > 0
  {
    forall o: nat, n: nat, r: nat {:trigger CutUp(o, n, r, g.objSize, alignment)} ::
      CutUp(o, n, r, g.objSize, alignment) && n >= 8 ==>
        && Remaining(g.order, g.perSlab, g.reserved, g.objSize) <= Remaining(o, n, r, g.objSize)
        && (o < g.order ==> Remaining(g.order, g.perSlab, g.reserved, g.objSize) < Remaining(o, n, r, g.objSize))
  }

  /** A slab with room for at least eight objects and for no more than it has, cut up as well as can be. */
  ghost predicate WellCut(g: Geometry, objSize: nat, alignment: nat)
    requires alignment > 0
  {
    && g.Ok() && g.objSize == objSize && CutUp(g.order, g.perSlab, g.reserved, objSize, alignment)
    && g.reserved + (g.perSlab + 1) * g.objSize > g.Bytes()
    && Thrifty(g, alignment)
  }

  /** Some slab has room for eight. */
  ghost predicate Cuttable(objSize: nat, alignment: nat)
    requires alignment > 0
  {
    exists o: nat, n: nat, r: nat :: CutUp(o, n, r, objSize, alignment) && n >= 8
  }

  function Reserved(alignment: nat): nat
    requires alignment > 0
  {
    HEADER + (alignment - HEADER % alignment) % alignment
  }

  function PerSlab(order: nat, objSize: nat, alignment: nat): nat
    requires alignment > 0 && objSize > 0
  {
    var size := 4096 * Pow2(order);
    if size <= Reserved(alignment) then 0 else (size - Reserved(alignment)) / objSize
  }

  function Waste(order: nat, objSize: nat, alignment: nat): int
    requires alignment > 0 && objSize > 0
  {
    Remaining(order, PerSlab(order, objSize, alignment), Reserved(alignment), objSize)
  }

  /** A slab of this order holds at least eight objects. */
  predicate Feasible(order: nat, objSize: nat, alignment: nat)
    requires alignment > 0 && objSize > 0
  {
    PerSlab(order, objSize, alignment) >= 8
  }

  /** The loop of kslab_cache_create; found is false when it returns 1. */
  method ChooseGeometry(objSize: nat, alignment: nat) returns (found: bool, g: Geometry)
    requires 8 <= objSize && 0 < alignment
    ensures found <==> Cuttable(objSize, alignment)
    ensures found ==> WellCut(g, objSize, alignment)
  {
    found, g := false, Geometry(0, 0, 0, objSize);
    var waste := 0;
    var i := 0;
    while i < 4
      invariant i <= 4
      invariant !found ==> forall o: nat :: o < i ==> !Feasible(o, objSize, alignment)
      invariant found ==> g == Geometry(g.order, Reserved(alignment), PerSlab(g.order, objSize, alignment), objSize)
      invariant found ==> g.order < i && Feasible(g.order, objSize, alignment)
      invariant found ==> waste == Waste(g.order, objSize, alignment)
      invariant found ==> forall o: nat :: o < i && Feasible(o, objSize, alignment) ==>
                            waste <= Waste(o, objSize, alignment)
      invariant found ==> forall o: nat :: o < g.order && Feasible(o, objSize, alignment) ==>
                            waste < Waste(o, objSize, alignment)
    {
      var size := Shl(1, i) * PAGESIZE;
      var pad := (alignment - HEADER % alignment) % alignment;
      var reserved := HEADER + pad;
      assert size == 4096 * Pow2(i);
      if size > reserved {
        var objs := (size - reserved) / objSize;
        assert objs == PerSlab(i, objSize, alignment);
        if objs >= 8 {
          var w := size - (reserved + objs * objSize);
          if !found || w < waste {
            found, waste, g := true, w, Geometry(i, reserved, objs, objSize);
          }
        }
      }
      assert !found ==> !Feasible(i, objSize, alignment);
      i := i + 1;
    }
    if found { ChosenWell(g, alignment); } else { NoneChosen(objSize, alignment); }
  }

  lemma ReservedIs(alignment: nat)
    requires alignment > 0
    ensures HEADER <= Reserved(alignment) < HEADER + alignment && Reserved(alignment) % alignment == 0
  {
    var h := HEADER % alignment;
    if h == 0 {
      assert (alignment - 0) % alignment == 0;
    } else {
      DivModUnique(alignment - h, alignment, 0, alignment - h);
      var q := HEADER / alignment;
      assert HEADER + (alignment - h) == (q + 1) * alignment;
      DivModUnique((q + 1) * alignment, alignment, q + 1, 0);
    }
  }

  lemma MultipleOnce(a: nat, b: nat, d: nat)
    requires d > 0 && a % d == 0 && b % d == 0 && a < b + d && b < a + d
    ensures a == b
  {
    var p, q := a / d, b / d;
    assert a == p * d && b == q * d;
    if p < q { MulGap(p, q, d); } else if q < p { MulGap(q, p, d); }
  }

  /** The header ends at one place, and no more objects fit than PerSlab says. */
  lemma CutIs(order: nat, n: nat, r: nat, objSize: nat, alignment: nat)
    requires objSize > 0 && alignment > 0 && CutUp(order, n, r, objSize, alignment)
    ensures r == Reserved(alignment) && n <= PerSlab(order, objSize, alignment)
    ensures Waste(order, objSize, alignment) <= Remaining(order, n, r, objSize)
  {
    ReservedIs(alignment);
    MultipleOnce(r, Reserved(alignment), alignment);
    var m := PerSlab(order, objSize, alignment);
    if m < n {
      MulMono(m + 1, n, objSize);
      MulDistr(m, 1, objSize);
    }
    MulMono(n, m, objSize);
  }

  lemma PerSlabFits(order: nat, objSize: nat, alignment: nat)
    requires order < 4 && objSize > 0 && alignment > 0 && Feasible(order, objSize, alignment)
    ensures CutUp(order, PerSlab(order, objSize, alignment), Reserved(alignment), objSize, alignment)
    ensures Reserved(alignment) + (PerSlab(order, objSize, alignment) + 1) * objSize > 4096 * Pow2(order)
  {
    ReservedIs(alignment);
    WholeObjects(4096 * Pow2(order), Reserved(alignment), objSize, PerSlab(order, objSize, alignment));
  }

  lemma WholeObjects(size: nat, r: nat, d: nat, n: nat)
    requires d > 0 && r < size && n == (size - r) / d
    ensures r + n * d <= size < r + (n + 1) * d
  {
    MulDistr(n, 1, d);
    assert size - r == n * d + (size - r) % d;
  }

  lemma NoneChosen(objSize: nat, alignment: nat)
    requires objSize > 0 && alignment > 0 && forall o: nat :: o < 4 ==> !Feasible(o, objSize, alignment)
    ensures !Cuttable(objSize, alignment)
  {
    forall o: nat, n: nat, r: nat | CutUp(o, n, r, objSize, alignment) ensures n < 8 {
      CutIs(o, n, r, objSize, alignment);
      assert !Feasible(o, objSize, alignment);
    }
  }

  lemma ChosenWell(g: Geometry, alignment: nat)
    requires alignment > 0 && 8 <= g.objSize && g.order < 4 && Feasible(g.order, g.objSize, alignment)
    requires g.reserved == Reserved(alignment) && g.perSlab == PerSlab(g.order, g.objSize, alignment)
    requires forall o: nat :: o < 4 && Feasible(o, g.objSize, alignment) ==>
               Waste(g.order, g.objSize, alignment) <= Waste(o, g.objSize, alignment)
    requires forall o: nat :: o < g.order && Feasible(o, g.objSize, alignment) ==>
               Waste(g.order, g.objSize, alignment) < Waste(o, g.objSize, alignment)
    ensures WellCut(g, g.objSize, alignment) && Cuttable(g.objSize, alignment)
  {
    PerSlabFits(g.order, g.objSize, alignment);
    forall o: nat, n: nat, r: nat | CutUp(o, n, r, g.objSize, alignment) && n >= 8
      ensures Remaining(g.order, g.perSlab, g.reserved, g.objSize) <= Remaining(o, n, r, g.objSize)
      ensures o < g.order ==> Remaining(g.order, g.perSlab, g.reserved, g.objSize) < Remaining(o, n, r, g.objSize)
    {
      CutIs(o, n, r, g.objSize, alignment);
      assert Feasible(o, g.objSize, alignment);
    }
  }

  /** Every object of every aligned slab is aligned exactly when the alignment divides the object size;
      the size is not rounded up to it. */
  lemma AlignedIff(g: Geometry, alignment: nat, s: nat)
    requires alignment > 0 && WellCut(g, g.objSize, alignment) && s % alignment == 0
    ensures (forall i :: 0 <= i < g.perSlab ==> g.Obj(s, i) % alignment == 0) <==> g.objSize % alignment == 0
  {
    SumAligned(s, g.reserved, alignment);
    var base := s + g.reserved;
    if g.objSize % alignment == 0 {
      forall i | 0 <= i < g.perSlab ensures g.Obj(s, i) % alignment == 0 {
        TimesAligned(i, g.objSize, alignment);
        SumAligned(base, i * g.objSize, alignment);
      }
    } else if g.Obj(s, 1) % alignment == 0 {
      assert g.Obj(s, 1) == base + g.objSize;
      DifferenceAligned(base, g.objSize, alignment);
    }
  }

  lemma SumAligned(a: nat, b: nat, d: nat)
    requires d > 0 && a % d == 0 && b % d == 0
    ensures (a + b) % d == 0
  {
    MulDistr(a / d, b / d, d);
    DivModUnique(a + b, d, a / d + b / d, 0);
  }

  lemma TimesAligned(n: nat, a: nat, d: nat)
    requires d > 0 && a % d == 0
    ensures (n * a) % d == 0
  {
    var q := a / d;
    assert n * a == (n * q) * d by { MulAssoc(n, q, d); }
    DivModUnique(n * a, d, n * q, 0);
  }

  lemma DifferenceAligned(a: nat, b: nat, d: nat)
    requires d > 0 && a % d == 0 && (a + b) % d == 0
    ensures b % d == 0
  {
    var p, q := a / d, (a + b) / d;
    assert b == (q - p) * d by { MulDistr(q - p, p, d); }
    if q < p { MulGap(q, p, d); }
    DivModUnique(b, d, q - p, 0);
  }

  // ---- the lists ------------------------------------------------------------------------------------

  /** A pointer to a pointer to a slab (struct kslab **). */
  datatype Link = HeadOf(list: nat) | NextOf(slab: nat)

  ghost predicate Unshared(s: seq<nat>, t: seq<nat>) { forall x :: x in s ==> x !in t }

  /** Which list a slab with c free objects out of n is on. */
  function Where(c: nat, n: nat): nat { if c == 0 then FULL else if c == n then EMPTY else PARTIAL }

  /** Every slab is on the one list its count says. */
  ghost predicate SortedIn(lists: seq<seq<nat>>, slabs: set<nat>, count: map<nat, nat>, n: nat)
    requires |lists| == 3
  {
    && slabs <= count.Keys
    && (forall s {:trigger OnList(lists, count, n, s)} :: s in slabs ==> OnList(lists, count, n, s))
    && (forall q, s :: 0 <= q < 3 && s in lists[q] ==> s in slabs && s in count && Where(count[s], n) == q)
  }

  ghost predicate OnList(lists: seq<seq<nat>>, count: map<nat, nat>, n: nat, s: nat)
    requires |lists| == 3
  {
    s in count && s in lists[Where(count[s], n)]
  }

  lemma SortedMove(lists: seq<seq<nat>>, slabs: set<nat>, count: map<nat, nat>, n: nat, s: nat, c: nat, j: nat)
    requires |lists| == 3 && SortedIn(lists, slabs, count, n) && s in slabs
    requires var (q, r) := (Where(count[s], n), Where(c, n));
             q != r && j < |lists[q]| && lists[q][j] == s && Once(lists[q])
    ensures var (q, r) := (Where(count[s], n), Where(c, n));
            SortedIn(lists[q := Without(lists[q], j)][r := lists[r] + [s]], slabs, count[s := c], n)
  {
    var (q, r) := (Where(count[s], n), Where(c, n));
    WithoutMembers(lists[q], j);
    var (lists', count') := (lists[q := Without(lists[q], j)][r := lists[r] + [s]], count[s := c]);
    forall t | t in slabs ensures OnList(lists', count', n, t) {
      assert OnList(lists, count, n, t);
    }
  }

  lemma SortedStay(lists: seq<seq<nat>>, slabs: set<nat>, count: map<nat, nat>, n: nat, s: nat, c: nat)
    requires |lists| == 3 && SortedIn(lists, slabs, count, n) && s in slabs && Where(count[s], n) == Where(c, n)
    ensures SortedIn(lists, slabs, count[s := c], n)
  {
    forall t | t in slabs ensures OnList(lists, count[s := c], n, t) {
      assert OnList(lists, count, n, t);
    }
  }

  /** The free objects f of a slab are distinct, as many as its count, and chained from head on. */
  ghost predicate Chained(g: Geometry, s: nat, head: nat, count: nat, f: seq<nat>, word: map<nat, nat>)
  {
    && |f| == count <= g.perSlab && Once(f) && (forall i :: 0 <= i < |f| ==> f[i] < g.perSlab)
    && Linked(word, head, Objs(g, s, f))
  }

  ghost function Objs(g: Geometry, s: nat, f: seq<nat>): seq<nat>
  {
    seq(|f|, i requires 0 <= i < |f| => g.Obj(s, f[i]))
  }

  /** The free objects of every slab are chained. */
  ghost predicate FilledIn(g: Geometry, slabs: set<nat>, head: map<nat, nat>, count: map<nat, nat>,
                           free: map<nat, seq<nat>>, word: map<nat, nat>)
  {
    && slabs <= head.Keys && slabs <= count.Keys && slabs <= free.Keys
    && forall s {:trigger Chained(g, s, head[s], count[s], free[s], word)} ::
         s in slabs ==> Chained(g, s, head[s], count[s], free[s], word)
  }

  /** One slab lost its first free object. */
  lemma FilledPopped(g: Geometry, slabs: set<nat>, head: map<nat, nat>, count: map<nat, nat>,
                     free: map<nat, seq<nat>>, word: map<nat, nat>, slab: nat, c: nat)
    requires FilledIn(g, slabs, head, count, free, word) && slab in slabs && count[slab] == c + 1
    ensures free[slab] != [] && head[slab] == g.Obj(slab, free[slab][0]) && head[slab] in word
    ensures FilledIn(g, slabs, head[slab := word[head[slab]]], count[slab := c], free[slab := free[slab][1..]], word)
  {
    ChainPopped(g, slab, head[slab], count[slab], free[slab], word);
  }

  /** Slabs do not overlap. */
  ghost predicate ApartIn(g: Geometry, slabs: set<nat>)
  {
    && (forall s {:trigger Mapped(g, s)} :: s in slabs ==> Mapped(g, s))
    && (forall s, t {:trigger NoOverlap(g, s, t)} :: s in slabs && t in slabs && s != t ==> NoOverlap(g, s, t))
  }

  /** A slab lies in the direct map of physical memory. */
  predicate Mapped(g: Geometry, s: nat) { s > 0 && s + g.Bytes() <= PHMMAP + PHYS_MAX }

  predicate NoOverlap(g: Geometry, s: nat, t: nat) { s + g.Bytes() <= t || t + g.Bytes() <= s }

  /** Taking the first free object. */
  lemma ChainPopped(g: Geometry, s: nat, head: nat, count: nat, f: seq<nat>, word: map<nat, nat>)
    requires Chained(g, s, head, count, f, word) && count > 0
    ensures head == g.Obj(s, f[0]) && head in word && Chained(g, s, word[head], count - 1, f[1..], word)
  {
    var o := Objs(g, s, f);
    assert Hop(word, o, 0);
    HeadSkipped(word, head, o);
    assert Without(o, 0) == Objs(g, s, f[1..]);
  }

  /** Putting an object in front. */
  lemma ChainPushed(g: Geometry, s: nat, head: nat, count: nat, f: seq<nat>, word: map<nat, nat>, i: nat)
    requires Chained(g, s, head, count, f, word) && i < g.perSlab && i !in f && g.Obj(s, i) != 0
    requires forall j :: 0 <= j < |f| ==> g.Obj(s, f[j]) != g.Obj(s, i)
    ensures Chained(g, s, g.Obj(s, i), count + 1, [i] + f, word[g.Obj(s, i) := head])
  {
    var (o, o') := (Objs(g, s, f), Objs(g, s, [i] + f));
    var word' := word[g.Obj(s, i) := head];
    assert o' == [g.Obj(s, i)] + o;
    forall k | 0 <= k < |o'| ensures Hop(word', o', k) {
      if k > 0 { assert Hop(word, o, k - 1); }
    }
    AllTaken([i] + f, g.perSlab);
  }

  /** Writes to other objects do not matter. */
  lemma ChainElsewhere(g: Geometry, s: nat, head: nat, count: nat, f: seq<nat>, word: map<nat, nat>, a: nat, v: nat)
    requires Chained(g, s, head, count, f, word) && forall j :: 0 <= j < |f| ==> g.Obj(s, f[j]) != a
    ensures Chained(g, s, head, count, f, word[a := v])
  {
    Elsewhere(word, word[a := v], head, Objs(g, s, f));
  }

  /** The objects of these slabs that are handed out, by slab and index. */
  ghost function LiveIn(g: Geometry, slabs: set<nat>, free: map<nat, seq<nat>>): set<(nat, nat)>
    requires slabs <= free.Keys
  {
    set s, i | s in slabs && 0 <= i < g.perSlab && i !in free[s] :: (s, i)
  }

  /** One slab got an object back. */
  lemma FilledPushed(g: Geometry, slabs: set<nat>, head: map<nat, nat>, count: map<nat, nat>,
                     free: map<nat, seq<nat>>, word: map<nat, nat>, slab: nat, i: nat)
    requires g.Ok() && ApartIn(g, slabs) && FilledIn(g, slabs, head, count, free, word)
    requires slab in slabs && i < g.perSlab && i !in free[slab]
    ensures FilledIn(g, slabs, head[slab := g.Obj(slab, i)], count[slab := count[slab] + 1],
                     free[slab := [i] + free[slab]], word[g.Obj(slab, i) := head[slab]])
  {
    var o := g.Obj(slab, i);
    var word' := word[o := head[slab]];
    ObjIn(g, slab, i);
    assert Outside(g, slab, word, word');
    assert Chained(g, slab, head[slab], count[slab], free[slab], word);
    var f := free[slab];
    forall j | 0 <= j < |f| ensures g.Obj(slab, f[j]) != o {
      if f[j] < i { MulGap(f[j], i, g.objSize); } else { MulGap(i, f[j], g.objSize); }
    }
    ChainPushed(g, slab, head[slab], count[slab], f, word, i);
    forall s | s in slabs && s != slab ensures Chained(g, s, head[s], count[s], free[s], word') {
      assert NoOverlap(g, s, slab);
      ChainOutside(g, s, head[s], count[s], free[s], word, slab, word');
    }
  }

  lemma LivePopped(g: Geometry, slabs: set<nat>, free: map<nat, seq<nat>>, s: nat)
    requires slabs <= free.Keys && s in slabs && free[s] != [] && Once(free[s]) && free[s][0] < g.perSlab
    ensures LiveIn(g, slabs, free[s := free[s][1..]]) == LiveIn(g, slabs, free) + {(s, free[s][0])}
    ensures (s, free[s][0]) !in LiveIn(g, slabs, free)
  {
    var f := free[s];
    assert forall i :: i in f[1..] <==> i in f && i != f[0] by { WithoutMembers(f, 0); assert Without(f, 0) == f[1..]; }
  }

  lemma LivePushed(g: Geometry, slabs: set<nat>, free: map<nat, seq<nat>>, s: nat, i: nat)
    requires slabs <= free.Keys && s in slabs && i !in free[s]
    ensures LiveIn(g, slabs, free[s := [i] + free[s]]) == LiveIn(g, slabs, free) - {(s, i)}
  {
  }

  ghost predicate HoldsAll(m: Master, slabs: set<nat>, owner: map<nat, (nat, Block)>, order: nat)
    requires m.TableOk()
    reads m, m.regions, m.table
  {
    slabs <= owner.Keys
    && forall s {:trigger Holds(m, owner, order, s)} :: s in slabs ==> Holds(m, owner, order, s)
  }

  ghost predicate Holds(m: Master, owner: map<nat, (nat, Block)>, order: nat, s: nat)
    requires m.TableOk()
    reads m, m.regions, m.table
  {
    s in owner && owner[s].1.ord == order && m.Held(owner[s].0, owner[s].1, s)
  }

  /** No region has pages for another slab. */
  ghost predicate Dry(order: nat, hs: seq<Heap>) { forall i :: 0 <= i < |hs| ==> Exhausted(hs[i], order) }

  /** The pages for a slab: none of the slabs there are, and no overlap with any. */
  method TakePages(m: Master, g: Geometry, ghost slabs: set<nat>, ghost owner: map<nat, (nat, Block)>)
    returns (slab: nat, ghost k: nat, ghost b: Block)
    requires m.Valid() && HoldsAll(m, slabs, owner, g.order) && g.order < 4 && ApartIn(g, slabs) && owner.Keys == slabs
    modifies m.table
    ensures m.Valid() && m.table == old(m.table)
    ensures Outstanding(m.Heaps()) - (if slab == KPAGE_ERR then owner else owner[slab := (k, b)]).Values
         == Outstanding(old(m.Heaps())) - owner.Values
    ensures slab == KPAGE_ERR <==> Dry(g.order, old(m.Heaps()))
    ensures slab == KPAGE_ERR ==> HoldsAll(m, slabs, owner, g.order)
    ensures slab != KPAGE_ERR ==>
              && slab !in slabs && slab > 0 && ApartIn(g, slabs + {slab})
              && HoldsAll(m, slabs + {slab}, owner[slab := (k, b)], g.order)
  {
    ghost var hs, t := m.Heaps(), m.table;
    assert forall s :: s in slabs ==> HeldIn(hs, t, owner, g.order, s) by {
      forall s | s in slabs ensures HeldIn(hs, t, owner, g.order, s) { assert Holds(m, owner, g.order, s); }
    }
    slab, k, b := m.Alloc(g.order);
    if slab == KPAGE_ERR {
      StillHolds(m, hs, t, slabs, owner, g.order);
    } else {
      OutstandingAllocated(hs, m.Heaps(), k, b, g.order, (k, Block(b.pfn, g.order)));
      b := Block(b.pfn, g.order);
      StillHolds(m, hs, t, slabs, owner, g.order);
      NewIsApart(m, g, hs, t, slabs, owner, slab, k, b);
      OthersTaken(Outstanding(hs), owner, slab, (k, b));
    }
  }

  /** A block that nobody held is no other caller's once a slab has it. */
  lemma OthersTaken(held: set<(nat, Block)>, owner: map<nat, (nat, Block)>, slab: nat, x: (nat, Block))
    requires x !in held && slab !in owner
    ensures held + {x} - owner[slab := x].Values == held - owner.Values
  {
    var owner' := owner[slab := x];
    assert owner'[slab] == x;
    forall y | y in owner.Values ensures y in owner'.Values {
      var s :| s in owner && owner[s] == y;
      assert owner'[s] == y;
    }
  }

  lemma OthersGiven(held: set<(nat, Block)>, owner: map<nat, (nat, Block)>, slab: nat, x: (nat, Block))
    requires slab in owner && x == owner[slab] && forall s :: s in owner && s != slab ==> owner[s] != x
    ensures held - {x} - (owner - {slab}).Values == held - owner.Values
  {
    var owner' := owner - {slab};
    forall y | y in owner.Values && y != x ensures y in owner'.Values {
      var s :| s in owner && owner[s] == y;
      assert owner'[s] == y;
    }
  }

  /** The pages of a slab go back. */
  method GivePages(m: Master, g: Geometry, ghost slabs: set<nat>, ghost owner: map<nat, (nat, Block)>, slab: nat)
    requires m.Valid() && HoldsAll(m, slabs, owner, g.order) && slab in slabs && owner.Keys == slabs
    modifies m.table
    ensures m.Valid() && m.table == old(m.table) && HoldsAll(m, slabs - {slab}, owner - {slab}, g.order)
    ensures Outstanding(m.Heaps()) - (owner - {slab}).Values == Outstanding(old(m.Heaps())) - owner.Values
  {
    ghost var hs, t := m.Heaps(), m.table;
    assert Holds(m, owner, g.order, slab);
    forall s | s in slabs ensures HeldIn(hs, t, owner, g.order, s) { assert Holds(m, owner, g.order, s); }
    ghost var (k, b) := owner[slab];
    m.HeldIsSpanned(k, b);
    m.Free(slab, g.order, k, b);
    OutstandingReleased(hs, m.Heaps(), k, b, (k, b));
    forall s | s in slabs && s != slab ensures owner[s] != (k, b) {
      assert HeldIn(hs, t, owner, g.order, s);
    }
    OthersGiven(Outstanding(hs), owner, slab, (k, b));
    forall s | s in slabs - {slab} ensures Holds(m, owner - {slab}, g.order, s) {
      assert HeldIn(hs, t, owner, g.order, s) && HeldIn(hs, t, owner, g.order, slab);
    }
  }

  /** What the owner map said about an earlier state of the page allocator. */
  ghost predicate HeldIn(hs: seq<Heap>, t: seq<BuddyRegion.Region>, owner: map<nat, (nat, Block)>, order: nat, s: nat)
  {
    && s in owner && owner[s].1.ord == order && owner[s].0 < |hs| && owner[s].0 < |t|
    && owner[s].1 in hs[owner[s].0].out && s == t[owner[s].0].Virt(owner[s].1.pfn)
  }

  lemma StillHolds(m: Master, hs: seq<Heap>, t: seq<BuddyRegion.Region>, slabs: set<nat>,
                   owner: map<nat, (nat, Block)>, order: nat)
    requires m.Valid() && t == m.table && |hs| == |t| && slabs <= owner.Keys
    requires forall s :: s in slabs ==> HeldIn(hs, t, owner, order, s)
    requires forall i :: 0 <= i < |hs| ==> hs[i].out <= m.Heaps()[i].out
    ensures HoldsAll(m, slabs, owner, order)
  {
    forall s | s in slabs ensures Holds(m, owner, order, s) {
      assert HeldIn(hs, t, owner, order, s);
    }
  }

  lemma NewIsApart(m: Master, g: Geometry, hs: seq<Heap>, t: seq<BuddyRegion.Region>, slabs: set<nat>,
                   owner: map<nat, (nat, Block)>, slab: nat, k: nat, b: Block)
    requires m.Valid() && t == m.table && |hs| == |t| && HoldsAll(m, slabs, owner, g.order) && ApartIn(g, slabs)
    requires forall s :: s in slabs ==> HeldIn(hs, t, owner, g.order, s)
    requires k < |hs| && b.ord == g.order && m.Held(k, b, slab) && b !in hs[k].out
    ensures slab !in slabs && slab > 0 && ApartIn(g, slabs + {slab})
    ensures HoldsAll(m, slabs + {slab}, owner[slab := (k, b)], g.order)
  {
    m.HeldAligned(k, b, slab);
    assert Mapped(g, slab);
    forall s | s in slabs ensures NoOverlap(g, s, slab) && NoOverlap(g, slab, s) {
      assert HeldIn(hs, t, owner, g.order, s) && Holds(m, owner, g.order, s);
      m.HeldApart(owner[s].0, owner[s].1, s, k, b, slab);
    }
    assert slab in slabs ==> NoOverlap(g, slab, slab);
    var owner' := owner[slab := (k, b)];
    forall s | s in slabs + {slab} ensures Holds(m, owner', g.order, s) {
      if s != slab { assert Holds(m, owner, g.order, s); }
    }
  }

  lemma SortedNew(lists: seq<seq<nat>>, slabs: set<nat>, count: map<nat, nat>, n: nat, s: nat)
    requires |lists| == 3 && SortedIn(lists, slabs, count, n) && s !in slabs && n > 0
    ensures SortedIn(lists[EMPTY := lists[EMPTY] + [s]], slabs + {s}, count[s := n], n)
  {
    var lists' := lists[EMPTY := lists[EMPTY] + [s]];
    forall t | t in slabs + {s} ensures OnList(lists', count[s := n], n, t) {
      if t != s { assert OnList(lists, count, n, t); }
    }
  }

  lemma SortedDrop(lists: seq<seq<nat>>, slabs: set<nat>, count: map<nat, nat>, n: nat, s: nat, j: nat)
    requires |lists| == 3 && SortedIn(lists, slabs, count, n) && s in slabs && count[s] == n > 0
    requires j < |lists[EMPTY]| && lists[EMPTY][j] == s && Once(lists[EMPTY])
    ensures SortedIn(lists[EMPTY := Without(lists[EMPTY], j)], slabs - {s}, count, n)
  {
    WithoutMembers(lists[EMPTY], j);
    var lists' := lists[EMPTY := Without(lists[EMPTY], j)];
    forall t | t in slabs - {s} ensures OnList(lists', count, n, t) {
      assert OnList(lists, count, n, t);
    }
  }

  /** A slab whose count is the number of its objects has none handed out. */
  lemma LiveDropped(g: Geometry, slabs: set<nat>, head: map<nat, nat>, count: map<nat, nat>,
                    free: map<nat, seq<nat>>, word: map<nat, nat>, s: nat)
    requires FilledIn(g, slabs, head, count, free, word) && s in slabs && count[s] == g.perSlab
    ensures LiveIn(g, slabs - {s}, free) == LiveIn(g, slabs, free)
    ensures forall i :: (s, i) !in LiveIn(g, slabs, free)
  {
    assert Chained(g, s, head[s], count[s], free[s], word);
    AllTaken(free[s], g.perSlab);
  }

  /** An object lies behind the header and before the end of its slab. */
  lemma ObjIn(g: Geometry, s: nat, i: nat)
    requires g.Ok() && i < g.perSlab
    ensures s + HEADER <= g.Obj(s, i) && g.Obj(s, i) + g.objSize <= s + g.Bytes()
  {
    MulGap(i, g.perSlab, g.objSize);
  }

  /** The objects of one slab are not touched by writes into another. */
  lemma ChainOutside(g: Geometry, s: nat, head: nat, count: nat, f: seq<nat>, word: map<nat, nat>,
                     slab: nat, word': map<nat, nat>)
    requires g.Ok() && Chained(g, s, head, count, f, word) && Outside(g, slab, word, word')
    requires s + g.Bytes() <= slab || slab + g.Bytes() <= s
    ensures Chained(g, s, head, count, f, word')
  {
    var o := Objs(g, s, f);
    forall x | x in o ensures x < slab || slab + g.Bytes() <= x {
      var i :| 0 <= i < |o| && o[i] == x;
      ObjIn(g, s, f[i]);
    }
    Elsewhere(word, word', head, o);
  }

  lemma FilledNew(g: Geometry, slabs: set<nat>, head: map<nat, nat>, count: map<nat, nat>,
                  free: map<nat, seq<nat>>, word: map<nat, nat>, slab: nat, word': map<nat, nat>)
    requires g.Ok() && FilledIn(g, slabs, head, count, free, word) && slab !in slabs
    requires ApartIn(g, slabs + {slab}) && Outside(g, slab, word, word')
    requires Chained(g, slab, g.Obj(slab, 0), g.perSlab, Upto(g.perSlab), word')
    ensures FilledIn(g, slabs + {slab}, head[slab := g.Obj(slab, 0)], count[slab := g.perSlab],
                     free[slab := Upto(g.perSlab)], word')
  {
    forall s | s in slabs ensures Chained(g, s, head[s], count[s], free[s], word') {
      assert NoOverlap(g, s, slab);
      ChainOutside(g, s, head[s], count[s], free[s], word, slab, word');
    }
  }

  lemma LiveNew(g: Geometry, slabs: set<nat>, free: map<nat, seq<nat>>, slab: nat)
    requires slabs <= free.Keys && slab !in slabs
    ensures LiveIn(g, slabs + {slab}, free[slab := Upto(g.perSlab)]) == LiveIn(g, slabs, free)
  {
    var u := Upto(g.perSlab);
    forall i | 0 <= i < g.perSlab ensures i in u { assert u[i] == i; }
  }

  /** kslab_cache_t, with the headers of its slabs and the pointers in its free objects by address. */
  class Cache {
    const g: Geometry
    var heads: seq<nat>             // full, partial and empty
    var next: map<nat, nat>         // struct kslab, by the address of the slab
    var freelist: map<nat, nat>
    var freeCount: map<nat, nat>
    var word: map<nat, nat>         // the first word of a free object, by its address
    var emptySlabs: nat             // u32
    ghost var lists: seq<seq<nat>>
    ghost var free: map<nat, seq<nat>>            // by slab, the free objects in the order of their chain
    ghost var owner: map<nat, (nat, Block)>       // by slab, its region and block

    /** The cache kslab_cache_create sets up, before its first slab. */
    constructor (geometry: Geometry)
      requires geometry.Ok()
      ensures g == geometry && Ok() && next == map[] && owner == map[] && Live() == {}
      ensures heads == [0, 0, 0] && emptySlabs == 1 && Empties() == 0
    {
      g := geometry;
      heads := [0, 0, 0];
      next, freelist, freeCount, word := map[], map[], map[], map[];
      emptySlabs := 1;
      lists := [[], [], []];
      free, owner := map[], map[];
    }

    // ---- list operations ----------------------------------------------------------------------------

    ghost predicate Listed()
      reads this`heads, this`next, this`lists
    {
      && |heads| == 3 && |lists| == 3
      && (forall q :: 0 <= q < 3 ==> Linked(next, heads[q], lists[q]) && Once(lists[q]))
      && (forall q, r :: 0 <= q < r < 3 ==> Unshared(lists[q], lists[r]))
    }

    /** The number of slabs on the empty list. */
    ghost function Empties(): nat
      requires |lists| == 3
      reads this`lists
    {
      |lists[EMPTY]|
    }

    /** What the pointer points at. */
    function Load(p: Link): nat
      requires |heads| == 3 && (p.HeadOf? ==> p.list < 3) && (p.NextOf? ==> p.slab in next)
      reads this`heads, this`next
    {
      match p
      case HeadOf(q) => heads[q]
      case NextOf(s) => next[s]
    }

    /** The pointer that leads to element i of a list. */
    ghost function LinkTo(q: nat, i: nat): Link
      requires |lists| == 3 && q < 3 && i <= |lists[q]|
      reads this`lists
    {
      if i == 0 then HeadOf(q) else NextOf(lists[q][i - 1])
    }

    /** Following next pointers from the head. */
    lemma LoadAt(q: nat, i: nat)
      requires Listed() && q < 3 && i <= |lists[q]|
      ensures var p := LinkTo(q, i);
              && (p.HeadOf? ==> p.list < 3) && (p.NextOf? ==> p.slab in next) && Load(p) == At(lists[q], i)
    {
      if i > 0 { assert Hop(next, lists[q], i - 1); }
    }

    /** The search loop of kslab_remove_node and kslab_relink_node: it ends at the pointer to the target,
        or at the null pointer behind the last element when the target is not on the list. */
    method Find(from: nat, target: nat) returns (p: Link, ghost j: nat)
      requires Listed() && from < 3 && target != 0
      ensures j <= |lists[from]| && p == LinkTo(from, j)
      ensures At(lists[from], j) == if target in lists[from] then target else 0
    {
      p := HeadOf(from);
      ghost var s := lists[from];
      j := 0;
      LoadAt(from, 0);
      while Load(p) != 0 && Load(p) != target
        invariant j <= |s| && p == LinkTo(from, j) && forall i :: 0 <= i < j ==> s[i] != target
        invariant (p.HeadOf? ==> p.list < 3) && (p.NextOf? ==> p.slab in next) && Load(p) == At(s, j)
        decreases |s| - j
      {
        p := NextOf(Load(p));
        j := j + 1;
        LoadAt(from, j);
      }
      assert j < |s| ==> Hop(next, s, j) && s[j] in s;
    }

    /** The walk to the null pointer at the end of a list. */
    method FindEnd(to: nat) returns (p: Link)
      requires Listed() && to < 3
      ensures p == LinkTo(to, |lists[to]|)
    {
      p := HeadOf(to);
      ghost var s, j := lists[to], 0;
      LoadAt(to, 0);
      while Load(p) != 0
        invariant j <= |s| && p == LinkTo(to, j)
        invariant (p.HeadOf? ==> p.list < 3) && (p.NextOf? ==> p.slab in next) && Load(p) == At(s, j)
        decreases |s| - j
      {
        p := NextOf(Load(p));
        j := j + 1;
        LoadAt(to, j);
      }
      assert j < |s| ==> Hop(next, s, j);
    }

    /** The pointer that the search found is led past the target; a null pointer is left as it is. */
    method Skip(from: nat, p: Link, target: nat, ghost j: nat)
      requires Listed() && from < 3 && j <= |lists[from]| && p == LinkTo(from, j)
      requires j < |lists[from]| ==> lists[from][j] == target
      modifies this`heads, this`next, this`lists
      ensures Listed() && next.Keys == old(next.Keys)
      ensures lists == if j < |old(lists)[from]| then old(lists)[from := Without(old(lists)[from], j)] else old(lists)
    {
      ghost var s, next0 := lists[from], next;
      LoadAt(from, j);
      if Load(p) == 0 {
        assert j < |s| ==> Hop(next, s, j);
        return;
      }
      assert Hop(next, s, j);
      match p {
        case HeadOf(q) => heads := heads[q := next[target]];
        case NextOf(prev) => next := next[prev := next[target]];
      }
      lists := lists[from := Without(s, j)];
      WithoutMembers(s, j);
      if j == 0 { HeadSkipped(next0, target, s); } else { ElementSkipped(next0, old(heads)[from], s, j); }
      OthersLinked(old(heads), old(next), old(lists), from, s);
    }

    /** A slab that is on no list is stored at the end of one. */
    method Hang(to: nat, p: Link, target: nat)
      requires Listed() && to < 3 && p == LinkTo(to, |lists[to]|)
      requires target != 0 && target in next && next[target] == 0
      requires forall q :: 0 <= q < 3 ==> target !in lists[q]
      modifies this`heads, this`next, this`lists
      ensures Listed() && next.Keys == old(next.Keys)
      ensures lists == old(lists)[to := old(lists)[to] + [target]]
    {
      ghost var s := lists[to];
      LoadAt(to, |s|);
      match p {
        case HeadOf(q) => heads := heads[q := target];
        case NextOf(prev) => next := next[prev := target];
      }
      lists := lists[to := s + [target]];
      assert old(next)[target := 0] == old(next);
      Appended(old(next), old(heads)[to], s, target);
      assert Once(s + [target]);
      OthersLinked(old(heads), old(next), old(lists), to, s);
    }

    lemma ElementIs(q: nat, x: nat)
      requires Listed() && q < 3 && x in lists[q]
      ensures x != 0 && x in next
    {
      var i :| 0 <= i < |lists[q]| && lists[q][i] == x;
      assert Hop(next, lists[q], i);
    }

    /** The common half of kslab_remove_node and kslab_relink_node: the target leaves its list. */
    method TakeOut(from: nat, target: nat) returns (ghost j: nat)
      requires Listed() && from < 3 && target != 0
      modifies this`heads, this`next, this`lists
      ensures Listed() && next.Keys == old(next.Keys)
      ensures target !in old(lists)[from] ==> lists == old(lists)
      ensures target in old(lists)[from] ==>
                && target in next && (forall q :: 0 <= q < 3 ==> target !in lists[q])
                && j < |old(lists)[from]| && old(lists)[from][j] == target
                && lists == old(lists)[from := Without(old(lists)[from], j)]
    {
      var p;
      p, j := Find(from, target);
      if j < |lists[from]| {
        assert Hop(next, lists[from], j);
        WithoutMembers(lists[from], j);
      }
      Skip(from, p, target, j);
    }

    /** kslab_relink_node */
    method Relink(from: nat, to: nat, target: nat) returns (ghost j: nat)
      requires Listed() && from < 3 && to < 3 && from != to && target in lists[from]
      modifies this`heads, this`next, this`lists
      ensures Listed() && next.Keys == old(next.Keys)
      ensures j < |old(lists)[from]| && old(lists)[from][j] == target
      ensures lists == old(lists)[from := Without(old(lists)[from], j)][to := old(lists)[to] + [target]]
    {
      ElementIs(from, target);
      j := TakeOut(from, target);
      ClearNext(target);
      var p := FindEnd(to);
      Hang(to, p, target);
    }

    /** A slab between two lists points at nothing. */
    method ClearNext(target: nat)
      requires Listed() && target in next && forall q :: 0 <= q < 3 ==> target !in lists[q]
      modifies this`next
      ensures Listed() && next == old(next)[target := 0]
    {
      ghost var next0 := next;
      next := next[target := 0];
      forall q | 0 <= q < 3 ensures Linked(next, heads[q], lists[q]) {
        Elsewhere(next0, next, heads[q], lists[q]);
      }
    }

    /** The lists that were not touched. */
    lemma OthersLinked(heads0: seq<nat>, next0: map<nat, nat>, lists0: seq<seq<nat>>, q: nat, s: seq<nat>)
      requires |heads0| == |heads| == |lists0| == |lists| == 3 && q < 3
      requires forall r :: 0 <= r < 3 && r != q ==>
                 && heads[r] == heads0[r] && lists[r] == lists0[r]
                 && Linked(next0, heads0[r], lists0[r]) && Unshared(lists0[r], s)
      requires forall x :: x in next0 && x !in s ==> x in next && next[x] == next0[x]
      ensures forall r :: 0 <= r < 3 && r != q ==> Linked(next, heads[r], lists[r])
    {
      forall r | 0 <= r < 3 && r != q ensures Linked(next, heads[r], lists[r]) {
        Elsewhere(next0, next, heads0[r], lists0[r]);
      }
    }

    // ---- the slabs ----------------------------------------------------------------------------------

    ghost predicate Ok()
      reads this
    {
      && g.Ok() && Listed() && ApartIn(g, next.Keys) && owner.Keys == next.Keys
      && SortedIn(lists, next.Keys, freeCount, g.perSlab)
      && Filled()
    }

    ghost predicate Filled()
      reads this`next, this`freelist, this`freeCount, this`word, this`free
    {
      FilledIn(g, next.Keys, freelist, freeCount, free, word)
    }

    /** The objects that are handed out. */
    ghost function Live(): set<(nat, nat)>
      requires next.Keys <= free.Keys
      reads this`next, this`free
    {
      LiveIn(g, next.Keys, free)
    }

    /** The pages of the slabs are held from the page allocator. */
    ghost predicate Backed(m: Master)
      requires m.TableOk()
      reads this`next, this`owner, m, m.regions, m.table
    {
      HoldsAll(m, next.Keys, owner, g.order)
    }

    /** The cache is consistent and its slabs are held from a valid page allocator. */
    ghost predicate Ready(m: Master)
      reads this, m, m.regions, m.table
    {
      Ok() && m.Valid() && Backed(m)
    }

    /** The blocks that others hold from the page allocator. */
    ghost function Others(m: Master): set<(nat, Block)>
      reads this`owner, m, m.table
    {
      Outstanding(m.Heaps()) - owner.Values
    }

    /** Different objects do not overlap. */
    lemma ObjsApart(s: nat, i: nat, t: nat, j: nat)
      requires g.Ok() && ApartIn(g, next.Keys) && s in next && t in next
      requires i < g.perSlab && j < g.perSlab && (s, i) != (t, j)
      ensures g.Obj(s, i) + g.objSize <= g.Obj(t, j) || g.Obj(t, j) + g.objSize <= g.Obj(s, i)
    {
      ObjIn(g, s, i);
      ObjIn(g, t, j);
      if s == t {
        if i < j { MulGap(i, j, g.objSize); } else { MulGap(j, i, g.objSize); }
      } else {
        assert NoOverlap(g, s, t);
      }
    }

    /** Clearing the low bits of the address of an object gives its slab. */
    lemma MaskRecovers(s: nat, i: nat)
      requires g.Ok() && s % g.Bytes() == 0 && i < g.perSlab
      ensures AndNot(g.Obj(s, i), Shl(PAGESIZE, g.order) - 1) == s
    {
      var o, d := g.Obj(s, i), g.Bytes();
      ObjIn(g, s, i);
      assert d == Pow2(12 + g.order) by { Pow12(); Pow2Add(12, g.order); }
      AndNotMask(o, 12 + g.order);
      DivModUnique(o, d, s / d, o - s);
    }

    // ---- allocation ---------------------------------------------------------------------------------

    /** The head of a list leads to its first slab. */
    lemma FirstOf(q: nat)
      requires Ok() && q < 3 && heads[q] != 0
      ensures lists[q] != [] && heads[q] == lists[q][0] && heads[q] in lists[q] && heads[q] in next
      ensures Where(freeCount[heads[q]], g.perSlab) == q
    {
      assert lists[q][0] in lists[q];
    }

    /** obj is object i of slab s, was free and is the only one that is now handed out. */
    ghost predicate Taken(live: set<(nat, nat)>, live': set<(nat, nat)>, obj: nat, s: nat, i: nat)
      reads this`next
    {
      s in next && i < g.perSlab && obj == g.Obj(s, i) && (s, i) !in live && live' == live + {(s, i)}
    }

    /** The first free object is handed out and the free list goes on behind it. */
    method PopObject(slab: nat, ghost count: map<nat, nat>, ghost c: nat) returns (obj: nat, ghost i: nat)
      requires g.Ok() && ApartIn(g, next.Keys) && slab in next
      requires FilledIn(g, next.Keys, freelist, count, free, word) && count[slab] == c + 1
      modifies this`freelist, this`free
      ensures FilledIn(g, next.Keys, freelist, count[slab := c], free, word)
      ensures obj != KPAGE_ERR && obj == old(freelist)[slab] && Taken(old(Live()), Live(), obj, slab, i)
    {
      FilledPopped(g, next.Keys, freelist, count, free, word, slab, c);
      assert Chained(g, slab, freelist[slab], count[slab], free[slab], word);
      LivePopped(g, next.Keys, free, slab);
      i := free[slab][0];
      ObjIn(g, slab, i);
      assert Mapped(g, slab);
      obj := freelist[slab];
      freelist := freelist[slab := word[obj]];
      free := free[slab := free[slab][1..]];
    }

    /** kslab_partial_alloc */
    method PartialAlloc() returns (obj: nat, ghost s: nat, ghost i: nat)
      requires Ok()
      modifies this`heads, this`next, this`lists, this`freelist, this`freeCount, this`free
      ensures Ok() && next.Keys == old(next.Keys)
      ensures Empties() == old(Empties())
      ensures obj == KPAGE_ERR <==> old(heads)[PARTIAL] == 0
      ensures obj == KPAGE_ERR ==>
                Live() == old(Live()) && heads == old(heads) && freeCount == old(freeCount) && freelist == old(freelist)
      ensures obj != KPAGE_ERR ==> Taken(old(Live()), Live(), obj, s, i)
      ensures obj != KPAGE_ERR ==> s == old(heads)[PARTIAL] && s in old(freelist) && obj == old(freelist)[s]
    {
      s, i := 0, 0;
      if heads[PARTIAL] == 0 { return KPAGE_ERR, s, i; }
      FirstOf(PARTIAL);
      var slab := heads[PARTIAL];
      ghost var count := freeCount;
      assert Chained(g, slab, freelist[slab], freeCount[slab], free[slab], word);
      ghost var c := CountDown(slab);
      s := slab;
      obj, i := PopObject(slab, count, c);
    }

    /** The count of a partial slab goes down, and at zero the slab moves to the full list. */
    method CountDown(slab: nat) returns (ghost c: nat)
      requires g.Ok() && Listed() && SortedIn(lists, next.Keys, freeCount, g.perSlab)
      requires slab in next && Where(freeCount[slab], g.perSlab) == PARTIAL && freeCount[slab] <= g.perSlab
      modifies this`heads, this`next, this`lists, this`freeCount
      ensures Listed() && SortedIn(lists, next.Keys, freeCount, g.perSlab)
      ensures next.Keys == old(next.Keys) && old(freeCount)[slab] == c + 1
      ensures freeCount == old(freeCount)[slab := c]
      ensures Empties() == old(Empties())
    {
      ghost var slabs, lists0, count0 := next.Keys, lists, freeCount;
      assert OnList(lists, freeCount, g.perSlab, slab);
      freeCount := freeCount[slab := freeCount[slab] - 1];
      c := freeCount[slab];
      if freeCount[slab] == 0 {
        ghost var j := Relink(PARTIAL, FULL, slab);
        SortedMove(lists0, slabs, count0, g.perSlab, slab, c, j);
      } else {
        SortedStay(lists0, slabs, count0, g.perSlab, slab, c);
      }
    }

    /** kslab_empty_alloc */
    method EmptyAlloc() returns (obj: nat, ghost s: nat, ghost i: nat)
      requires Ok()
      modifies this`heads, this`next, this`lists, this`freelist, this`freeCount, this`free, this`emptySlabs
      ensures Ok() && next.Keys == old(next.Keys)
      ensures Empties() == old(Empties()) - if obj == KPAGE_ERR then 0 else 1
      ensures obj == KPAGE_ERR <==> old(heads)[EMPTY] == 0
      ensures emptySlabs == if obj == KPAGE_ERR then old(emptySlabs) else Down(old(emptySlabs))
      ensures obj == KPAGE_ERR ==> Live() == old(Live()) && heads == old(heads) && freeCount == old(freeCount)
      ensures obj != KPAGE_ERR ==> Taken(old(Live()), Live(), obj, s, i)
      ensures obj != KPAGE_ERR ==> s == old(heads)[EMPTY] && s in old(freelist) && obj == old(freelist)[s]
    {
      s, i := 0, 0;
      if heads[EMPTY] == 0 { return KPAGE_ERR, s, i; }
      FirstOf(EMPTY);
      var slab := heads[EMPTY];
      ghost var c := freeCount[slab] - 1;
      RelinkFor(slab, EMPTY, PARTIAL, freeCount, c);
      emptySlabs := Down(emptySlabs);
      s := slab;
      obj, i := PopCounted(slab, c);
    }

    /** The end of kslab_empty_alloc: an object is taken and counted. */
    method PopCounted(slab: nat, ghost c: nat) returns (obj: nat, ghost i: nat)
      requires g.Ok() && ApartIn(g, next.Keys) && slab in next && Filled() && freeCount[slab] == c + 1
      modifies this`freelist, this`free, this`freeCount
      ensures Filled() && freeCount == old(freeCount)[slab := c]
      ensures obj != KPAGE_ERR && obj == old(freelist)[slab] && Taken(old(Live()), Live(), obj, slab, i)
    {
      obj, i := PopObject(slab, freeCount, c);
      freeCount := freeCount[slab := freeCount[slab] - 1];
    }

    /** kslab_relink_node, for a slab whose count changes to c. */
    method RelinkFor(slab: nat, from: nat, to: nat, ghost count: map<nat, nat>, ghost c: nat)
      requires g.Ok() && Listed() && SortedIn(lists, next.Keys, count, g.perSlab) && slab in next
      requires from == Where(count[slab], g.perSlab) && to == Where(c, g.perSlab) && from != to
      modifies this`heads, this`next, this`lists
      ensures Listed() && SortedIn(lists, next.Keys, count[slab := c], g.perSlab) && next.Keys == old(next.Keys)
      ensures lists[to] != [] && heads[to] == if old(heads)[to] == 0 then slab else old(heads)[to]
      ensures heads[to] != 0
      ensures Empties() == old(Empties()) + (if to == EMPTY then 1 else 0) - if from == EMPTY then 1 else 0
    {
      ghost var slabs, lists0 := next.Keys, lists;
      assert OnList(lists, count, g.perSlab, slab);
      ghost var j := Relink(from, to, slab);
      SortedMove(lists0, slabs, count, g.perSlab, slab, c, j);
      assert Hop(next, lists[to], 0);
      assert lists0[to] == [] || lists[to][0] == lists0[to][0];
      assert lists0[to] != [] ==> lists0[to][0] != 0;
    }

    // ---- new slabs ----------------------------------------------------------------------------------

    /** The objects of a new slab, chained in order: the last loop of kslab_new_slab. */
    method ChainObjects(slab: nat)
      requires g.Ok() && slab > 0
      modifies this`word
      ensures Chained(g, slab, g.Obj(slab, 0), g.perSlab, Upto(g.perSlab), word)
      ensures Outside(g, slab, old(word), word)
    {
      var curr := slab + g.reserved;
      var i := 0;
      while i < g.perSlab - 1
        invariant i < g.perSlab && curr == g.Obj(slab, i)
        invariant ChainedUpto(g, slab, i, word) && Outside(g, slab, old(word), word)
      {
        var following := curr + g.objSize;
        NextObj(slab, i);
        ObjWritten(slab, i, following, word);
        word := word[curr := following];
        curr := following;
        i := i + 1;
      }
      ObjWritten(slab, i, 0, word);
      word := word[curr := 0];
      AllChained(g, slab, word);
    }

    lemma ObjWritten(slab: nat, i: nat, v: nat, word0: map<nat, nat>)
      requires g.Ok() && i < g.perSlab && ChainedUpto(g, slab, i, word0)
      ensures var word1 := word0[g.Obj(slab, i) := v];
              && ChainedUpto(g, slab, i, word1) && Outside(g, slab, word0, word1)
              && (v == g.Obj(slab, i + 1) ==> ChainedUpto(g, slab, i + 1, word1))
    {
      var word1 := word0[g.Obj(slab, i) := v];
      ObjIn(g, slab, i);
      forall k | 0 <= k < i ensures ChainedAt(g, slab, k, word1) {
        assert ChainedAt(g, slab, k, word0);
        MulGap(k, i, g.objSize);
      }
    }

    /** The zeroed header is hung behind the last empty slab. */
    method AppendNew(slab: nat)
      requires Listed() && slab !in next && slab > 0 && SortedIn(lists, next.Keys, freeCount, g.perSlab)
      modifies this`heads, this`next, this`lists
      ensures Listed() && next.Keys == old(next.Keys) + {slab}
      ensures heads[EMPTY] != 0 && heads[PARTIAL] == old(heads)[PARTIAL]
      ensures heads[EMPTY] == if old(heads)[EMPTY] == 0 then slab else old(heads)[EMPTY]
      ensures lists == old(lists)[EMPTY := old(lists)[EMPTY] + [slab]]
    {
      ghost var next0 := next;
      next := next[slab := 0];
      forall q | 0 <= q < 3 ensures Linked(next, heads[q], lists[q]) && slab !in lists[q] {
        assert forall x :: x in lists[q] ==> x in next0;
        Elsewhere(next0, next, heads[q], lists[q]);
      }
      var p := FindEnd(EMPTY);
      Hang(EMPTY, p, slab);
      assert Hop(next, lists[EMPTY], 0);
    }

    /** Header fields and objects of a slab that has joined the lists. */
    method FillNew(slab: nat, ghost slabs: set<nat>)
      requires g.Ok() && slab > 0 && slab !in slabs && ApartIn(g, slabs + {slab})
      requires FilledIn(g, slabs, freelist, freeCount, free, word)
      modifies this`freelist, this`freeCount, this`word, this`free
      ensures FilledIn(g, slabs + {slab}, freelist, freeCount, free, word)
      ensures freeCount == old(freeCount)[slab := g.perSlab]
      ensures slabs <= old(free).Keys && LiveIn(g, slabs + {slab}, free) == LiveIn(g, slabs, old(free))
    {
      var pool := slab + g.reserved;
      freelist := freelist[slab := pool];
      freeCount := freeCount[slab := g.perSlab];
      ChainObjects(slab);
      assert g.Obj(slab, 0) == pool;
      FilledNew(g, slabs, old(freelist), old(freeCount), free, old(word), slab, word);
      LiveNew(g, slabs, free, slab);
      free := free[slab := Upto(g.perSlab)];
    }

    /** A slab in fresh pages: kslab_new_slab after kbud_alloc. */
    method AddSlab(slab: nat, ghost k: nat, ghost b: Block)
      requires Ok() && slab !in next && slab > 0 && ApartIn(g, next.Keys + {slab})
      modifies this
      ensures Ok() && next.Keys == old(next.Keys) + {slab} && heads[EMPTY] != 0
      ensures heads[EMPTY] == if old(heads)[EMPTY] == 0 then slab else old(heads)[EMPTY]
      ensures Live() == old(Live()) && owner == old(owner)[slab := (k, b)] && emptySlabs == old(emptySlabs)
      ensures heads[PARTIAL] == old(heads)[PARTIAL]
      ensures Empties() == old(Empties()) + 1
    {
      ghost var slabs := next.Keys;
      SortedNew(lists, slabs, freeCount, g.perSlab, slab);
      AppendNew(slab);
      FillNew(slab, slabs);
      owner := owner[slab := (k, b)];
    }

    /** The pages are the cache's before and after their slab is on the list. */
    method AddSlabIn(ghost m: Master, slab: nat, ghost k: nat, ghost b: Block)
      requires Ok() && slab !in next && slab > 0 && ApartIn(g, next.Keys + {slab})
      requires m.Valid() && HoldsAll(m, next.Keys + {slab}, owner[slab := (k, b)], g.order)
      modifies this
      ensures Ready(m) && next.Keys == old(next.Keys) + {slab} && heads[EMPTY] != 0
      ensures heads[EMPTY] == if old(heads)[EMPTY] == 0 then slab else old(heads)[EMPTY]
      ensures Live() == old(Live()) && owner == old(owner)[slab := (k, b)] && emptySlabs == old(emptySlabs)
      ensures heads[PARTIAL] == old(heads)[PARTIAL] && m.Heaps() == old(m.Heaps())
      ensures Empties() == old(Empties()) + 1
    {
      AddSlab(slab, k, b);
    }

    /** kslab_new_slab */
    method NewSlab(m: Master) returns (slab: nat)
      requires Ready(m)
      modifies this, m.table
      ensures Ready(m) && m.table == old(m.table) && Others(m) == old(Others(m))
      ensures slab == KPAGE_ERR <==> Dry(g.order, old(m.Heaps()))
      ensures slab == KPAGE_ERR ==> next == old(next) && heads == old(heads) && freeCount == old(freeCount)
      ensures emptySlabs == old(emptySlabs)
      ensures slab != KPAGE_ERR ==> slab !in old(next) && next.Keys == old(next.Keys) + {slab}
      ensures slab != KPAGE_ERR ==> heads[EMPTY] == (if old(heads)[EMPTY] == 0 then slab else old(heads)[EMPTY])
      ensures slab != KPAGE_ERR ==> heads[EMPTY] != 0 && heads[PARTIAL] == old(heads)[PARTIAL]
      ensures Live() == old(Live())
      ensures Empties() == old(Empties()) + if slab == KPAGE_ERR then 0 else 1
    {
      ghost var k, b;
      slab, k, b := TakePages(m, g, next.Keys, owner);
      if slab == KPAGE_ERR { return; }
      AddSlabIn(m, slab, k, b);
    }

    /** kslab_new_alloc */
    method NewAlloc(m: Master) returns (obj: nat, ghost s: nat, ghost i: nat)
      requires Ready(m)
      modifies this, m.table
      ensures Ready(m) && m.table == old(m.table) && Others(m) == old(Others(m))
      ensures obj == KPAGE_ERR <==> Dry(g.order, old(m.Heaps()))
      ensures obj == KPAGE_ERR ==> Live() == old(Live())
      ensures Empties() == old(Empties())
      ensures obj != KPAGE_ERR ==> Taken(old(Live()), Live(), obj, s, i)
      ensures emptySlabs == if obj == KPAGE_ERR then old(emptySlabs) else Down(old(emptySlabs))
      ensures obj != KPAGE_ERR && old(heads)[EMPTY] == 0 ==> s !in old(next) && next.Keys == old(next.Keys) + {s}
      ensures obj == KPAGE_ERR ==> next.Keys == old(next.Keys)
    {
      s, i := 0, 0;
      var slab := NewSlab(m);
      if slab == KPAGE_ERR { return KPAGE_ERR, s, i; }
      obj, s, i := EmptyAllocIn(m);
    }

    /** The page allocator plays no part in kslab_empty_alloc. */
    method EmptyAllocIn(ghost m: Master) returns (obj: nat, ghost s: nat, ghost i: nat)
      requires Ready(m)
      modifies this`heads, this`next, this`lists, this`freelist, this`freeCount, this`free, this`emptySlabs
      ensures Ready(m) && Others(m) == old(Others(m)) && next.Keys == old(next.Keys)
      ensures obj == KPAGE_ERR <==> old(heads)[EMPTY] == 0
      ensures Empties() == old(Empties()) - if obj == KPAGE_ERR then 0 else 1
      ensures emptySlabs == if obj == KPAGE_ERR then old(emptySlabs) else Down(old(emptySlabs))
      ensures obj == KPAGE_ERR ==> Live() == old(Live()) && heads == old(heads) && freeCount == old(freeCount)
      ensures obj != KPAGE_ERR ==> Taken(old(Live()), Live(), obj, s, i)
      ensures obj != KPAGE_ERR ==> s == old(heads)[EMPTY] && s in old(freelist) && obj == old(freelist)[s]
    {
      obj, s, i := EmptyAlloc();
    }

    /** No slab has a free object. */
    ghost predicate Used()
      requires next.Keys <= freeCount.Keys
      reads this`next, this`freeCount
    {
      forall s :: s in next ==> freeCount[s] == 0
    }

    lemma UsedIff()
      requires Ok()
      ensures Used() <==> heads[PARTIAL] == 0 && heads[EMPTY] == 0
    {
      if heads[PARTIAL] != 0 { FirstOf(PARTIAL); }
      if heads[EMPTY] != 0 { FirstOf(EMPTY); }
      if heads[PARTIAL] == 0 && heads[EMPTY] == 0 {
        forall s | s in next ensures freeCount[s] == 0 {
          assert OnList(lists, freeCount, g.perSlab, s);
          assert lists[PARTIAL] != [] ==> Hop(next, lists[PARTIAL], 0);
          assert lists[EMPTY] != [] ==> Hop(next, lists[EMPTY], 0);
        }
      }
    }

    /** Where the next object comes from: a partial slab, or else an empty one, or else a new one (0). */
    ghost function Source(): nat
      requires |heads| == 3
      reads this`heads
    {
      if heads[PARTIAL] != 0 then heads[PARTIAL] else heads[EMPTY]
    }

    /** kslab_alloc fails exactly when no slab has a free object and the page allocator has no pages for
        another slab. Otherwise it hands out an object that was not handed out. */
    method Alloc(m: Master) returns (obj: nat, ghost s: nat, ghost i: nat)
      requires Ready(m)
      modifies this, m.table
      ensures Ready(m) && m.table == old(m.table) && Others(m) == old(Others(m))
      ensures obj == KPAGE_ERR <==> old(Used()) && Dry(g.order, old(m.Heaps()))
      ensures obj == KPAGE_ERR ==> Live() == old(Live())
      ensures Empties() == old(Empties()) - if old(heads)[PARTIAL] != 0 || old(heads)[EMPTY] == 0 then 0 else 1
      ensures obj != KPAGE_ERR ==> Taken(old(Live()), Live(), obj, s, i)
      ensures emptySlabs ==
                if obj == KPAGE_ERR || old(heads)[PARTIAL] != 0 then old(emptySlabs) else Down(old(emptySlabs))
      ensures obj != KPAGE_ERR && old(Source()) != 0 ==>
                s == old(Source()) && s in old(freelist) && obj == old(freelist)[s]
      ensures obj != KPAGE_ERR && old(Source()) == 0 ==> s !in old(next) && next.Keys == old(next.Keys) + {s}
      ensures obj == KPAGE_ERR || old(Source()) != 0 ==> next.Keys == old(next.Keys)
    {
      obj, s, i := AllocFromSlabs(m);
      if obj == KPAGE_ERR {
        obj, s, i := NewAlloc(m);
      }
    }

    /** The first two attempts of kslab_alloc: a partial slab, then an empty one. */
    method AllocFromSlabs(ghost m: Master) returns (obj: nat, ghost s: nat, ghost i: nat)
      requires Ready(m)
      modifies this`heads, this`next, this`lists, this`freelist, this`freeCount, this`free, this`emptySlabs
      ensures Ready(m) && Others(m) == old(Others(m)) && next.Keys == old(next.Keys)
      ensures obj == KPAGE_ERR <==> old(Used())
      ensures obj == KPAGE_ERR <==> old(Source()) == 0
      ensures Empties() == old(Empties()) - if obj == KPAGE_ERR || old(heads)[PARTIAL] != 0 then 0 else 1
      ensures emptySlabs ==
                if obj == KPAGE_ERR || old(heads)[PARTIAL] != 0 then old(emptySlabs) else Down(old(emptySlabs))
      ensures obj == KPAGE_ERR ==> Live() == old(Live()) && heads == old(heads)
      ensures obj != KPAGE_ERR ==> Taken(old(Live()), Live(), obj, s, i)
      ensures obj != KPAGE_ERR ==> s == old(Source()) && s in old(freelist) && obj == old(freelist)[s]
    {
      UsedIff();
      obj, s, i := PartialOrEmptyAlloc();
    }

    method PartialOrEmptyAlloc() returns (obj: nat, ghost s: nat, ghost i: nat)
      requires Ok()
      modifies this`heads, this`next, this`lists, this`freelist, this`freeCount, this`free, this`emptySlabs
      ensures Ok() && next.Keys == old(next.Keys)
      ensures Empties() == old(Empties()) - if obj == KPAGE_ERR || old(heads)[PARTIAL] != 0 then 0 else 1
      ensures obj == KPAGE_ERR <==> old(Source()) == 0
      ensures emptySlabs ==
                if obj == KPAGE_ERR || old(heads)[PARTIAL] != 0 then old(emptySlabs) else Down(old(emptySlabs))
      ensures obj == KPAGE_ERR ==> Live() == old(Live()) && heads == old(heads)
      ensures obj != KPAGE_ERR ==> Taken(old(Live()), Live(), obj, s, i)
      ensures obj != KPAGE_ERR ==> s == old(Source()) && s in old(freelist) && obj == old(freelist)[s]
    {
      obj, s, i := PartialAlloc();
      if obj == KPAGE_ERR {
        obj, s, i := EmptyAlloc();
      }
    }

    /** Whoever holds an object may write to it. */
    method Scribble(addr: nat, v: nat, ghost s: nat, ghost i: nat)
      requires Ok() && (s, i) in Live() && g.Obj(s, i) <= addr < g.Obj(s, i) + g.objSize
      modifies this`word
      ensures Ok() && Live() == old(Live())
    {
      ghost var word0 := word;
      word := word[addr := v];
      forall t | t in next ensures Chained(g, t, freelist[t], freeCount[t], free[t], word) {
        assert Chained(g, t, freelist[t], freeCount[t], free[t], word0);
        var f := free[t];
        forall j | 0 <= j < |f| ensures g.Obj(t, f[j]) != addr {
          ObjsApart(s, i, t, f[j]);
        }
        ChainElsewhere(g, t, freelist[t], freeCount[t], f, word0, addr, v);
      }
    }

    // ---- release ------------------------------------------------------------------------------------

    /** The object becomes the first free one of its slab again and is counted. */
    method PushObject(slab: nat, obj: nat, ghost i: nat)
      requires g.Ok() && ApartIn(g, next.Keys) && Filled() && slab in next && i < g.perSlab && i !in free[slab]
      requires obj == g.Obj(slab, i)
      modifies this`word, this`freelist, this`freeCount, this`free
      ensures Filled() && freeCount == OneMore(old(freeCount), slab)
      ensures freeCount[slab] <= g.perSlab && freelist == old(freelist)[slab := obj]
      ensures Live() == old(Live()) - {(slab, i)}
    {
      FilledPushed(g, next.Keys, freelist, freeCount, free, word, slab, i);
      LivePushed(g, next.Keys, free, slab, i);
      word := word[obj := freelist[slab]];
      freelist := freelist[slab := obj];
      freeCount := freeCount[slab := freeCount[slab] + 1];
      free := free[slab := [i] + free[slab]];
      assert Chained(g, slab, freelist[slab], freeCount[slab], free[slab], word);
    }

    /** The counter of empty slabs goes up twice when a slab becomes empty. */
    function Raised(slab: nat): nat
      requires slab in freeCount
      reads this`freeCount, this`emptySlabs
    {
      if freeCount[slab] + 1 == g.perSlab then Up(Up(emptySlabs)) else emptySlabs
    }

    /** The slab becomes empty, and by the counter there are too many empty ones. */
    predicate TooMany(slab: nat)
      requires slab in freeCount
      reads this`freeCount, this`emptySlabs
    {
      freeCount[slab] + 1 == g.perSlab && Raised(slab) > MAX_EMPTY
    }

    /** The slab that leaves then: the first empty one. */
    function FirstEmpty(slab: nat): nat
      requires |heads| == 3
      reads this`heads
    {
      if heads[EMPTY] == 0 then slab else heads[EMPTY]
    }

    /** The relinking part of kslab_free, once the count has gone up. */
    method Resettle(slab: nat, wasFull: bool, ghost count: map<nat, nat>) returns (tooMany: bool)
      requires g.Ok() && Listed() && SortedIn(lists, next.Keys, count, g.perSlab) && slab in next
      requires count[slab] < g.perSlab && wasFull == (count[slab] == 0)
      requires freeCount == OneMore(count, slab)
      modifies this`heads, this`next, this`lists, this`emptySlabs
      ensures Listed() && SortedIn(lists, next.Keys, freeCount, g.perSlab) && next.Keys == old(next.Keys)
      ensures tooMany <==> freeCount[slab] == g.perSlab && Up(Up(old(emptySlabs))) > MAX_EMPTY
      ensures tooMany ==> heads[EMPTY] == old(FirstEmpty(slab)) != 0
      ensures emptySlabs == if freeCount[slab] == g.perSlab then Up(Up(old(emptySlabs))) else old(emptySlabs)
      ensures Empties() == old(Empties()) + if freeCount[slab] == g.perSlab then 1 else 0
    {
      tooMany := false;
      var isEmpty := freeCount[slab] == g.perSlab;
      if wasFull {
        RelinkFor(slab, FULL, PARTIAL, count, freeCount[slab]);
      } else if isEmpty {
        RelinkFor(slab, PARTIAL, EMPTY, count, freeCount[slab]);
        emptySlabs := Up(emptySlabs);
        emptySlabs := Up(emptySlabs);
        tooMany := emptySlabs > MAX_EMPTY;
      } else {
        SortedStay(lists, next.Keys, count, g.perSlab, slab, freeCount[slab]);
      }
    }

    /** kslab_remove_node for the first empty slab. */
    method RemoveFirstEmpty(m: Master)
      requires Ready(m) && heads[EMPTY] != 0
      modifies this, m.table
      ensures Ready(m) && m.table == old(m.table) && Others(m) == old(Others(m))
      ensures next.Keys == old(next.Keys) - {old(heads)[EMPTY]} && Live() == old(Live())
      ensures freeCount == old(freeCount) && freelist == old(freelist) && emptySlabs == old(emptySlabs)
      ensures Empties() == old(Empties()) - 1
    {
      FirstOf(EMPTY);
      var slab := heads[EMPTY];
      ghost var slabs, owner0 := next.Keys, owner;
      Drop(slab);
      GivePages(m, g, slabs, owner0, slab);
    }

    /** The slab leaves the cache. */
    method Drop(slab: nat)
      requires Ok() && slab in next && freeCount[slab] == g.perSlab
      modifies this
      ensures Ok() && next.Keys == old(next.Keys) - {slab} && Live() == old(Live())
      ensures owner == old(owner) - {slab} && freeCount == old(freeCount) && emptySlabs == old(emptySlabs)
      ensures freelist == old(freelist)
      ensures Empties() == old(Empties()) - 1
    {
      ghost var slabs := next.Keys;
      assert OnList(lists, freeCount, g.perSlab, slab);
      LiveDropped(g, slabs, freelist, freeCount, free, word, slab);
      ghost var lists0 := lists;
      ElementIs(EMPTY, slab);
      ghost var j := TakeOut(EMPTY, slab);
      SortedDrop(lists0, slabs, freeCount, g.perSlab, slab, j);
      Forget(slab);
    }

    /** The header of a slab that is on no list is given up. */
    method Forget(slab: nat)
      requires Listed() && slab in next && forall q :: 0 <= q < 3 ==> slab !in lists[q]
      modifies this`next, this`owner
      ensures Listed() && next.Keys == old(next.Keys) - {slab} && owner == old(owner) - {slab}
    {
      ghost var next0 := next;
      next := next - {slab};
      owner := owner - {slab};
      forall q | 0 <= q < 3 ensures Linked(next, heads[q], lists[q]) {
        Elsewhere(next0, next, heads[q], lists[q]);
      }
    }

    /** The slab of an object that is handed out, from its address. */
    method SlabOf(m: Master, obj: nat, ghost s: nat, ghost i: nat) returns (slab: nat)
      requires Ready(m) && (s, i) in Live() && obj == g.Obj(s, i)
      ensures slab == s
    {
      assert Holds(m, owner, g.order, s);
      m.HeldAligned(owner[s].0, owner[s].1, s);
      MaskRecovers(s, i);
      slab := AndNot(obj, Shl(PAGESIZE, g.order) - 1);
    }

    /** kslab_free of an object that is handed out. */
    method Free(m: Master, obj: nat, ghost s: nat, ghost i: nat)
      requires Ready(m) && (s, i) in Live() && obj == g.Obj(s, i)
      modifies this, m.table
      ensures Ready(m) && m.table == old(m.table) && Others(m) == old(Others(m))
      ensures Live() == old(Live()) - {(s, i)}
      ensures s in old(freeCount) && freeCount == OneMore(old(freeCount), s) && freelist == old(freelist)[s := obj]
      ensures next.Keys == old(next.Keys) - if old(TooMany(s)) then {old(FirstEmpty(s))} else {}
      ensures emptySlabs == old(if TooMany(s) then Down(Raised(s)) else Raised(s))
      ensures !old(TooMany(s)) ==> m.Heaps() == old(m.Heaps())
      ensures Empties() == old(Empties()) + (if freeCount[s] == g.perSlab then 1 else 0)
                           - if old(TooMany(s)) then 1 else 0
    {
      var slab := SlabOf(m, obj, s, i);
      var tooMany := PutBack(m, slab, obj, i);
      if tooMany {
        Shrink(m);
      }
    }

    /** kslab_free up to the decision whether a slab has to go. */
    method PutBack(ghost m: Master, slab: nat, obj: nat, ghost i: nat) returns (tooMany: bool)
      requires Ready(m) && (slab, i) in Live() && obj == g.Obj(slab, i)
      modifies this`heads, this`next, this`lists, this`word, this`freelist, this`freeCount, this`free, this`emptySlabs
      ensures Ready(m) && Others(m) == old(Others(m)) && m.Heaps() == old(m.Heaps())
      ensures next.Keys == old(next.Keys) && Live() == old(Live()) - {(slab, i)}
      ensures freeCount == OneMore(old(freeCount), slab) && freelist == old(freelist)[slab := obj]
      ensures tooMany == old(TooMany(slab)) && emptySlabs == old(Raised(slab))
      ensures Empties() == old(Empties()) + if freeCount[slab] == g.perSlab then 1 else 0
      ensures tooMany ==> heads[EMPTY] == old(FirstEmpty(slab)) != 0
    {
      tooMany := PushAndResettle(slab, obj, i);
    }

    method PushAndResettle(slab: nat, obj: nat, ghost i: nat) returns (tooMany: bool)
      requires Ok() && (slab, i) in Live() && obj == g.Obj(slab, i)
      modifies this`heads, this`next, this`lists, this`word, this`freelist, this`freeCount, this`free, this`emptySlabs
      ensures Ok() && next.Keys == old(next.Keys) && Live() == old(Live()) - {(slab, i)}
      ensures freeCount == OneMore(old(freeCount), slab) && freelist == old(freelist)[slab := obj]
      ensures tooMany == old(TooMany(slab)) && emptySlabs == old(Raised(slab))
      ensures Empties() == old(Empties()) + if freeCount[slab] == g.perSlab then 1 else 0
      ensures tooMany ==> heads[EMPTY] == old(FirstEmpty(slab)) != 0
    {
      var wasFull := freeCount[slab] == 0;
      ghost var count := freeCount;
      PushObject(slab, obj, i);
      tooMany := Resettle(slab, wasFull, count);
    }

    /** The last lines of kslab_free. */
    method Shrink(m: Master)
      requires Ready(m) && heads[EMPTY] != 0
      modifies this, m.table
      ensures Ready(m) && m.table == old(m.table) && Others(m) == old(Others(m))
      ensures next.Keys == old(next.Keys) - {old(heads)[EMPTY]} && Live() == old(Live()) && freeCount == old(freeCount)
      ensures emptySlabs == Down(old(emptySlabs)) && freelist == old(freelist)
      ensures Empties() == old(Empties()) - 1
    {
      RemoveFirstEmpty(m);
      emptySlabs := Down(emptySlabs);
    }

    lemma NextObj(s: nat, i: nat)
      ensures g.Obj(s, i + 1) == g.Obj(s, i) + g.objSize
    {
      MulDistr(i, 1, g.objSize);
    }
  }

  // ---- several caches -------------------------------------------------------------------------------

  /** Two caches over one page allocator that share no block of it. */
  ghost predicate Strangers(c: Cache, d: Cache, m: Master)
    reads c, d, m, m.regions, m.table
  {
    c != d && c.Ready(m) && d.Ready(m) && c.owner.Values !! d.owner.Values
  }

  /** The slabs of strangers do not overlap. */
  lemma StrangersApart(c: Cache, d: Cache, m: Master, s: nat, t: nat)
    requires Strangers(c, d, m) && s in c.next && t in d.next
    ensures s + c.g.Bytes() <= t || t + d.g.Bytes() <= s
  {
    assert Holds(m, c.owner, c.g.order, s) && Holds(m, d.owner, d.g.order, t);
    assert c.owner[s] in c.owner.Values && d.owner[t] in d.owner.Values;
    m.HeldApart(c.owner[s].0, c.owner[s].1, s, d.owner[t].0, d.owner[t].1, t);
  }

  /** What a cache held before a call that leaves the blocks of others alone, it holds after it. */
  lemma Undisturbed(d: Cache, m: Master, hs: seq<Heap>, own: set<(nat, Block)>, own': set<(nat, Block)>)
    requires d.Ok() && m.Valid() && |hs| == |m.table|
    requires forall s :: s in d.next ==> HeldIn(hs, m.table, d.owner, d.g.order, s)
    requires Outstanding(m.Heaps()) - own' == Outstanding(hs) - own && d.owner.Values !! own
    ensures d.Backed(m) && d.owner.Values !! own'
  {
    forall s | s in d.next ensures Holds(m, d.owner, d.g.order, s) && d.owner[s] !in own' {
      assert HeldIn(hs, m.table, d.owner, d.g.order, s);
      assert d.owner[s] in d.owner.Values && d.owner[s] in Outstanding(hs) - own;
    }
  }

  /** An allocation from one cache does not disturb another. */
  method AllocBeside(c: Cache, d: Cache, m: Master) returns (obj: nat, ghost s: nat, ghost i: nat)
    requires Strangers(c, d, m)
    modifies c, m.table
    ensures Strangers(c, d, m) && d.Live() == old(d.Live())
    ensures obj != KPAGE_ERR ==> c.Taken(old(c.Live()), c.Live(), obj, s, i)
  {
    ghost var hs, own := m.Heaps(), c.owner.Values;
    AllHeld(d, m);
    obj, s, i := c.Alloc(m);
    Undisturbed(d, m, hs, own, c.owner.Values);
  }

  /** Neither does a release. */
  method FreeBeside(c: Cache, d: Cache, m: Master, obj: nat, ghost s: nat, ghost i: nat)
    requires Strangers(c, d, m) && (s, i) in c.Live() && obj == c.g.Obj(s, i)
    modifies c, m.table
    ensures Strangers(c, d, m) && d.Live() == old(d.Live()) && c.Live() == old(c.Live()) - {(s, i)}
  {
    ghost var hs, own := m.Heaps(), c.owner.Values;
    AllHeld(d, m);
    c.Free(m, obj, s, i);
    Undisturbed(d, m, hs, own, c.owner.Values);
  }

  lemma AllHeld(d: Cache, m: Master)
    requires d.Ready(m)
    ensures forall s :: s in d.next ==> HeldIn(m.Heaps(), m.table, d.owner, d.g.order, s)
  {
    forall s | s in d.next ensures HeldIn(m.Heaps(), m.table, d.owner, d.g.order, s) {
      assert Holds(m, d.owner, d.g.order, s);
    }
  }

  // ---- creation -------------------------------------------------------------------------------------

  /** kslab_cache_create: 1 when no order holds eight objects, -1 when there are no pages for a slab. */
  method Create(m: Master, objSize: nat, alignment: nat) returns (ret: int, cache: Cache?)
    requires m.Valid() && 8 <= objSize && 0 < alignment
    modifies m.table
    ensures m.Valid() && m.table == old(m.table)
    ensures ret == 1 <==> !Cuttable(objSize, alignment)
    ensures ret == 1 ==> m.Heaps() == old(m.Heaps())
    ensures ret != 1 ==> cache != null && cache.Others(m) == Outstanding(old(m.Heaps()))
    ensures ret != 1 ==>
              && fresh(cache) && cache.Ok() && cache.Backed(m) && cache.Live() == {}
              && WellCut(cache.g, objSize, alignment)
              && cache.emptySlabs == 1 && cache.Empties() == |cache.next|
              && cache.next.Keys == (if ret == 0 then {cache.heads[EMPTY]} else {})
              && ret == if Dry(cache.g.order, old(m.Heaps())) then -1 else 0
  {
    var found, g := ChooseGeometry(objSize, alignment);
    if !found { return 1, null; }
    cache := new Cache(g);
    var slab := cache.NewSlab(m);
    ret := if slab == KPAGE_ERR then -1 else 0;
  }

  ghost predicate ChainedAt(g: Geometry, slab: nat, k: nat, word: map<nat, nat>)
  {
    g.Obj(slab, k) in word && word[g.Obj(slab, k)] == g.Obj(slab, k + 1)
  }

  /** The first i objects of a slab lead to the next ones. */
  ghost predicate ChainedUpto(g: Geometry, slab: nat, i: nat, word: map<nat, nat>)
  {
    forall k :: 0 <= k < i ==> ChainedAt(g, slab, k, word)
  }

  lemma AllChained(g: Geometry, slab: nat, word: map<nat, nat>)
    requires g.Ok() && slab > 0 && ChainedUpto(g, slab, g.perSlab - 1, word)
    requires g.Obj(slab, g.perSlab - 1) in word && word[g.Obj(slab, g.perSlab - 1)] == 0
    ensures Chained(g, slab, g.Obj(slab, 0), g.perSlab, Upto(g.perSlab), word)
  {
    var o := Objs(g, slab, Upto(g.perSlab));
    forall k | 0 <= k < |o| ensures Hop(word, o, k) {
      if k < g.perSlab - 1 { assert ChainedAt(g, slab, k, word); }
    }
  }

  /** Nothing was written outside the slab. */
  ghost predicate Outside(g: Geometry, slab: nat, word: map<nat, nat>, word': map<nat, nat>)
  {
    forall a :: a in word && (a < slab || slab + g.Bytes() <= a) ==> a in word' && word'[a] == word[a]
  }

  const U32: nat := 0x1_0000_0000

  /** One more free object in slab s. */
  function OneMore(count: map<nat, nat>, s: nat): map<nat, nat>
    requires s in count
  {
    count[s := count[s] + 1]
  }

  /** A u32 counter going up and down. */
  function Up(n: nat): nat { (n + 1) % U32 }

  function Down(n: nat): nat { (n - 1) % U32 }

  ghost function Upto(n: nat): seq<nat> { seq(n, i => i) }
}
