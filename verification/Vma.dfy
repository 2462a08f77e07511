/**
 Ranges of kernel virtual addresses (kernel/mm/vma.c): an ordered map of disjoint ranges in a red-black
 tree, with insertion, search by address and allocation of a free gap.
 */
module Vma {
  import opened Powers
  import opened Bits
  import opened Phys
  import opened RbTrees
  import opened RbHeap
  import opened RbWalk

  // ---- ranges as values ---------------------------------------------------------------------------

  datatype Area = Area(start: nat, end: nat)
  {
    predicate Has(addr: nat) { start <= addr < end }
  }

  /** The two tests of vma_insert both fail. */
  predicate Clash(a: Area, b: Area) { !(a.end <= b.start) && !(a.start >= b.end) }

  /** For ranges that are not empty, clashing is having an address in common. */
  lemma ClashIsOverlap(a: Area, b: Area)
    requires a.start < a.end && b.start < b.end
    ensures Clash(a, b) <==> exists addr :: a.Has(addr) && b.Has(addr)
  {
    if Clash(a, b) {
      var addr := if a.start < b.start then b.start else a.start;
      assert a.Has(addr) && b.Has(addr);
    }
  }

  predicate Ordered(s: seq<Area>)
  {
    && (forall i :: 0 <= i < |s| ==> s[i].start <= s[i].end)
    && (forall i, j :: 0 <= i < j < |s| ==> s[i].end <= s[j].start)
  }

  predicate Below(s: seq<Area>, addr: nat) { forall i :: 0 <= i < |s| ==> s[i].end <= addr }

  predicate Above(s: seq<Area>, addr: nat) { forall i :: 0 <= i < |s| ==> addr <= s[i].start }

  /** A range put into a sorted sequence of disjoint ones. */
  ghost predicate InsertedInto(before: seq<Area>, a: Area, after: seq<Area>)
  {
    exists k :: 0 <= k <= |before| && InsertedAt(before, a, after, k)
  }

  predicate InsertedAt(before: seq<Area>, a: Area, after: seq<Area>, k: int)
    requires 0 <= k <= |before|
  {
    after == before[..k] + [a] + before[k..]
  }

  /** In sorted order, what is left of a range ends before it and what is right of it begins after it. */
  lemma OrderedAround(l: seq<Area>, a: Area, r: seq<Area>)
    requires Ordered(l + [a] + r)
    ensures a.start <= a.end && Below(l, a.start) && Above(r, a.end)
  {
    var s := l + [a] + r;
    assert s[|l|] == a;
    assert forall i :: 0 <= i < |l| ==> s[i] == l[i];
    assert forall i :: 0 <= i < |r| ==> s[|l| + 1 + i] == r[i];
  }

  lemma OrderedParts(l: seq<Area>, r: seq<Area>)
    requires Ordered(l + r)
    ensures Ordered(l) && Ordered(r)
  {
    var s := l + r;
    assert forall i :: 0 <= i < |l| ==> s[i] == l[i];
    assert forall i :: 0 <= i < |r| ==> s[|l| + i] == r[i];
  }

  lemma BelowAround(l: seq<Area>, m: seq<Area>, a: Area, addr: nat)
    requires Below(l, addr) && Below(m, a.start) && a.start <= a.end <= addr
    ensures Below(l + m + [a], addr)
  {
  }

  lemma AboveAround(a: Area, m: seq<Area>, r: seq<Area>, addr: nat)
    requires addr <= a.start <= a.end && Above(m, a.end) && Above(r, addr)
    ensures Above([a] + m + r, addr)
  {
  }

  /** A range that fits between two stretches clashes with neither. */
  lemma FitsBetween(l: seq<Area>, a: Area, r: seq<Area>)
    requires Ordered(l + r) && Below(l, a.start) && Above(r, a.end)
    ensures a.start <= a.end ==> Ordered(l + [a] + r)
    ensures InsertedInto(l + r, a, l + [a] + r)
    ensures forall b :: b in l + r ==> !Clash(a, b)
  {
    if a.start <= a.end {
      OrderedParts(l, r);
      OrderedAbove([a], r);
      OrderedAbove(l, [a] + r);
      assert l + [a] + r == l + ([a] + r);
    }
    assert InsertedInto(l + r, a, l + [a] + r) by {
      assert (l + r)[..|l|] == l && (l + r)[|l|..] == r;
      assert InsertedAt(l + r, a, l + [a] + r, |l|);
    }
  }

  lemma OrderedAbove(l: seq<Area>, r: seq<Area>)
    requires Ordered(l) && Ordered(r) && forall i, j :: 0 <= i < |l| && 0 <= j < |r| ==> l[i].end <= r[j].start
    ensures Ordered(l + r)
  {
  }

  lemma NoneHas(l: seq<Area>, r: seq<Area>, addr: nat)
    requires Below(l, addr) && Above(r, addr + 1)
    ensures forall a :: a in l + [] + r ==> !a.Has(addr)
  {
  }

  /** An address lies in one range at most. */
  lemma OneHolder(s: seq<Area>, i: nat, j: nat, addr: nat)
    requires Ordered(s) && i < |s| && j < |s| && s[i].Has(addr) && s[j].Has(addr)
    ensures i == j
  {
  }

  // ---- gaps ---------------------------------------------------------------------------------------

  /** The gaps of a region: before the first range, between neighbours, after the last. */
  function GapStart(s: seq<Area>, lo: nat, k: nat): nat
    requires k <= |s|
  {
    if k == 0 then lo else s[k - 1].end
  }

  function GapEnd(s: seq<Area>, hi: nat, k: nat): nat
    requires k <= |s|
  {
    if k == |s| then hi else s[k].start
  }

  /** a + b on 64-bit words */
  function Plus(a: nat, b: nat): nat { (a + b) % U64 }

  /** a - b on 64-bit words */
  function Minus(a: nat, b: nat): nat { (a - b) % U64 }

  /** The differences the allocator takes are the sizes of the gaps, even when the end is stored as 0. */
  lemma GapSizes(s: seq<Area>, lo: nat, hi: nat, k: nat)
    requires Ordered(s) && Within(s, lo, hi) && hi <= U64 && hi < lo + U64 && k <= |s|
    ensures var size := GapEnd(s, hi, k) - GapStart(s, lo, k);
            size == if k == |s| then Minus(hi % U64, GapStart(s, lo, k))
                    else Minus(GapEnd(s, hi, k), GapStart(s, lo, k))
  {
    var a, b := GapStart(s, lo, k), GapEnd(s, hi, k);
    assert lo <= a <= b <= hi;
    WordDifference(a, b);
  }

  lemma WordDifference(a: nat, b: nat)
    requires a <= b <= U64 && b - a < U64
    ensures Minus(b % U64, a) == b - a && Minus(b, a) == b - a
  {
    if b == U64 { assert (0 - a) % U64 == U64 - a; }
  }

  predicate Roomy(s: seq<Area>, lo: nat, hi: nat, need: nat, k: nat)
    requires k <= |s|
  {
    GapEnd(s, hi, k) - GapStart(s, lo, k) >= need
  }

  predicate HasRoom(s: seq<Area>, lo: nat, hi: nat, need: nat)
  {
    exists k :: 0 <= k <= |s| && Roomy(s, lo, hi, need, k)
  }

  /** The low end of the region is tried first, then the high end, then the gaps from below. */
  predicate Preferred(s: seq<Area>, lo: nat, hi: nat, need: nat, k: nat)
    requires k <= |s|
  {
    && Roomy(s, lo, hi, need, k)
    && (k != 0 ==> !Roomy(s, lo, hi, need, 0))
    && (k != 0 && k != |s| ==>
          !Roomy(s, lo, hi, need, |s|) && forall j :: 0 <= j < k ==> !Roomy(s, lo, hi, need, j))
  }

  /** The outcome of the search for a gap. */
  ghost predicate Answers(s: seq<Area>, lo: nat, hi: nat, need: nat, found: bool, start: nat)
  {
    && (found <==> HasRoom(s, lo, hi, need))
    && (found ==> exists k :: 0 <= k <= |s| && Preferred(s, lo, hi, need, k) && start == GapStart(s, lo, k))
  }

  predicate Within(s: seq<Area>, lo: nat, hi: nat)
  {
    lo <= hi && forall i :: 0 <= i < |s| ==> lo <= s[i].start && s[i].end <= hi
  }

  /** A range free of clashes anywhere in the region. */
  predicate Vacant(s: seq<Area>, lo: nat, hi: nat, need: nat, b: nat)
  {
    lo <= b && b + need <= hi && forall i :: 0 <= i < |s| ==> !Clash(Area(b, b + need), s[i])
  }

  /** A new range is where it was preferred, and nothing else changed. */
  ghost predicate Placed(s: seq<Area>, lo: nat, hi: nat, need: nat, a: Area, s': seq<Area>)
  {
    && InsertedInto(s, a, s')
    && exists k :: 0 <= k <= |s| && Preferred(s, lo, hi, need, k) && a.start == GapStart(s, lo, k)
  }

  lemma StaysWithin(s: seq<Area>, a: Area, s': seq<Area>, lo: nat, hi: nat)
    requires InsertedInto(s, a, s') && Within(s, lo, hi) && lo <= a.start && a.end <= hi
    ensures Within(s', lo, hi)
  {
  }

  lemma OutOfOrder(s: seq<Area>, a: Area, s': seq<Area>)
    requires InsertedInto(s, a, s') && a.end < a.start
    ensures !Ordered(s')
  {
    var k :| 0 <= k <= |s| && InsertedAt(s, a, s', k);
    assert s'[k] == a;
  }

  lemma GapIsVacant(s: seq<Area>, lo: nat, hi: nat, need: nat, k: nat)
    requires Ordered(s) && Within(s, lo, hi) && k <= |s| && Roomy(s, lo, hi, need, k)
    ensures Vacant(s, lo, hi, need, GapStart(s, lo, k))
  {
  }

  /** The gaps between neighbours are all the room there is: some place in the region is free for a
      range of this size exactly when one of the gaps is large enough. */
  lemma RoomIff(s: seq<Area>, lo: nat, hi: nat, need: nat)
    requires Ordered(s) && Within(s, lo, hi)
    ensures HasRoom(s, lo, hi, need) <==> exists b: nat :: Vacant(s, lo, hi, need, b)
  {
    if HasRoom(s, lo, hi, need) {
      var k :| 0 <= k <= |s| && Roomy(s, lo, hi, need, k);
      GapIsVacant(s, lo, hi, need, k);
    }
    forall b: nat | Vacant(s, lo, hi, need, b) ensures HasRoom(s, lo, hi, need) {
      var j := GapOf(s, lo, hi, need, b, 0);
    }
  }

  /** Where a new range begins: at the low end of the region if it fits in front of all ranges, else behind
      the last one if it fits there, else at the lowest free place there is. */
  lemma PlacedWhere(s: seq<Area>, lo: nat, hi: nat, need: nat, a: Area, s': seq<Area>, bottom: nat, top: nat)
    requires Ordered(s) && Within(s, lo, hi) && Placed(s, lo, hi, need, a, s')
    requires bottom == (if s == [] then hi else s[0].start) && top == if s == [] then lo else s[|s| - 1].end
    ensures Vacant(s, lo, hi, need, a.start)
    ensures lo + need <= bottom ==> a.start == lo
    ensures lo + need > bottom && top + need <= hi ==> a.start == top
    ensures lo + need > bottom && top + need > hi ==> forall b: nat :: Vacant(s, lo, hi, need, b) ==> a.start <= b
  {
    var k :| 0 <= k <= |s| && Preferred(s, lo, hi, need, k) && a.start == GapStart(s, lo, k);
    GapIsVacant(s, lo, hi, need, k);
    if lo + need > bottom && top + need > hi {
      forall b: nat | Vacant(s, lo, hi, need, b) ensures a.start <= b {
        var j := GapOf(s, lo, hi, need, b, 0);
        assert k <= j;
      }
    }
  }

  /** The gap that a free place is in. */
  lemma {:induction false} GapOf(s: seq<Area>, lo: nat, hi: nat, need: nat, b: nat, k: nat) returns (j: nat)
    requires Vacant(s, lo, hi, need, b) && k <= |s| && GapStart(s, lo, k) <= b
    ensures k <= j <= |s| && Roomy(s, lo, hi, need, j) && GapStart(s, lo, j) <= b
    decreases |s| - k
  {
    if b + need <= GapEnd(s, hi, k) {
      j := k;
    } else {
      assert !Clash(Area(b, b + need), s[k]);
      j := GapOf(s, lo, hi, need, b, k + 1);
    }
  }

  /** Rounding to pages covers the request unless it wraps. */
  lemma RoundedCovers(size: nat)
    requires size < U64
    ensures PageAlignUp(size) >= size <==> size + PAGESIZE <= U64
    ensures size + PAGESIZE > U64 ==> PageAlignUp(size) == 0
  {
    if size + PAGESIZE <= U64 {
      AlignUp(size);
    } else {
      AlignDown(size + (PAGESIZE - 1) - U64);
    }
  }

  // ---- the ranges of a list of records ------------------------------------------------------------

  function AreaOf(n: Node): Area
    reads n`vmStart, n`vmEnd
  {
    Area(n.vmStart, n.vmEnd)
  }

  ghost function Areas(s: seq<Node>): seq<Area>
    reads (set n | n in s)`vmStart, (set n | n in s)`vmEnd
  {
    if s == [] then [] else [AreaOf(s[0])] + Areas(s[1..])
  }

  lemma {:induction false} AreasAt(s: seq<Node>)
    ensures |Areas(s)| == |s|
    ensures forall i :: 0 <= i < |s| ==> Areas(s)[i] == AreaOf(s[i])
  {
    if s != [] { AreasAt(s[1..]); }
  }

  lemma {:induction false} AreasAppend(s: seq<Node>, t: seq<Node>)
    ensures Areas(s + t) == Areas(s) + Areas(t)
  {
    if s == [] {
      assert s + t == t;
    } else {
      AreasAppend(s[1..], t);
      assert (s + t)[1..] == s[1..] + t;
    }
  }

  lemma AreasAround(l: seq<Node>, n: Node, r: seq<Node>)
    ensures Areas(l + [n] + r) == Areas(l) + [AreaOf(n)] + Areas(r)
  {
    AreasAppend(l + [n], r);
    AreasAppend(l, [n]);
  }

  ghost predicate Sorted(t: Tree)
    reads (set n | n in t.Order())`vmStart, (set n | n in t.Order())`vmEnd
  {
    Ordered(Areas(t.Order()))
  }

  /** The ranges around a hole and in it. */
  lemma AreasPlugged(c: Ctx, s: Tree)
    ensures Areas(c.Plug(s).Order()) == Areas(c.Before()) + Areas(s.Order()) + Areas(c.After())
  {
    PlugOrder(c, s);
    AreasAppend(c.Before() + s.Order(), c.After());
    AreasAppend(c.Before(), s.Order());
  }

  /** The ranges of a subtree, of its root, left and right of it. */
  lemma SubtreeOrdered(c: Ctx, s: Tree)
    requires s.Branch? && Sorted(c.Plug(s))
    ensures AreaOf(s.n).start <= AreaOf(s.n).end
    ensures Below(Areas(s.l.Order()), s.n.vmStart) && Above(Areas(s.r.Order()), s.n.vmEnd)
  {
    AreasPlugged(c, s);
    AreasAround(s.l.Order(), s.n, s.r.Order());
    OrderedParts(Areas(c.Before()) + Areas(s.Order()), Areas(c.After()));
    OrderedParts(Areas(c.Before()), Areas(s.Order()));
    OrderedAround(Areas(s.l.Order()), AreaOf(s.n), Areas(s.r.Order()));
  }

  /** One step of a descent. */
  lemma GoLeft(c: Ctx, s: Tree, x: Node, p: Node?, tree: Root, addr: nat)
    requires Zip(c, s, x, p, tree) && Sorted(c.Plug(s)) && Above(Areas(c.After()), addr) && addr <= x.vmStart
    ensures s.Branch? && x.parent == p
    ensures var d := InLeft(s.n, s.red, s.r, c);
            && Zip(d, s.l, x.left, x, tree) && d.Plug(s.l) == c.Plug(s) && LinkTo(d) == LeftOf(x)
            && Above(Areas(d.After()), addr) && d.Before() == c.Before() && s.l.Height() < s.Height()
  {
    ZipLeft(c, s, x, p, tree);
    DescendLeft(c, s, addr);
  }

  lemma GoRight(c: Ctx, s: Tree, x: Node, p: Node?, tree: Root, addr: nat)
    requires Zip(c, s, x, p, tree) && Sorted(c.Plug(s)) && Below(Areas(c.Before()), addr) && x.vmEnd <= addr
    ensures s.Branch? && x.parent == p
    ensures var d := InRight(s.l, s.n, s.red, c);
            && Zip(d, s.r, x.right, x, tree) && d.Plug(s.r) == c.Plug(s) && LinkTo(d) == RightOf(x)
            && Below(Areas(d.Before()), addr) && d.After() == c.After() && s.r.Height() < s.Height()
  {
    ZipRight(c, s, x, p, tree);
    DescendRight(c, s, addr);
  }

  lemma FoundInTree(c: Ctx, s: Tree)
    requires s.Branch?
    ensures s.n in c.Plug(s).Order()
  {
    PlugOrder(c, s);
  }

  lemma RootArea(c: Ctx, s: Tree)
    requires s.Branch?
    ensures AreaOf(s.n) in Areas(c.Plug(s).Order())
  {
    AreasPlugged(c, s);
    AreasAround(s.l.Order(), s.n, s.r.Order());
  }

  /** The descent keeps smaller ranges before the hole and larger ones after it. */
  lemma DescendLeft(c: Ctx, s: Tree, addr: nat)
    requires s.Branch? && Sorted(c.Plug(s)) && Above(Areas(c.After()), addr) && addr <= s.n.vmStart
    ensures Above(Areas(InLeft(s.n, s.red, s.r, c).After()), addr)
  {
    SubtreeOrdered(c, s);
    AreasAppend([s.n] + s.r.Order(), c.After());
    AreasAppend([s.n], s.r.Order());
    AboveAround(AreaOf(s.n), Areas(s.r.Order()), Areas(c.After()), addr);
  }

  lemma DescendRight(c: Ctx, s: Tree, addr: nat)
    requires s.Branch? && Sorted(c.Plug(s)) && Below(Areas(c.Before()), addr) && s.n.vmEnd <= addr
    ensures Below(Areas(InRight(s.l, s.n, s.red, c).Before()), addr)
  {
    SubtreeOrdered(c, s);
    AreasAround(c.Before() + s.l.Order(), s.n, []);
    AreasAppend(c.Before(), s.l.Order());
    BelowAround(Areas(c.Before()), Areas(s.l.Order()), AreaOf(s.n), addr);
    assert c.Before() + s.l.Order() + [s.n] + [] == c.Before() + s.l.Order() + [s.n];
    assert Areas(c.Before()) + Areas(s.l.Order()) + [AreaOf(s.n)] + []
        == Areas(c.Before()) + Areas(s.l.Order()) + [AreaOf(s.n)];
  }

  /** vma_region_t, with what its tree spells. */
  class Region {
    const rStart: nat
    const rEnd: nat          // the end modulo 2^64: the kernel's region ends with the address space
    const tree: Root
    ghost const limit: nat   // the end
    ghost var shape: Tree

    /** vma_subsystem_init */
    constructor (start: nat, length: nat)
      requires start + length <= U64 && length < U64
      ensures rStart == start && limit == start + length
      ensures Valid() && Inside() && Areas(Records()) == [] && fresh(tree)
    {
      rStart, rEnd := start, Plus(start, length);
      limit := start + length;
      tree := new Root();
      shape := Leaf;
    }

    ghost function Records(): seq<Node>
      reads this
    {
      shape.Order()
    }

    ghost predicate Shaped()
      reads this, tree, shape.Nodes()
    {
      Spells(tree, shape) && shape.RedBlack()
    }

    ghost predicate Valid()
      reads this, tree, shape.Nodes(), set n | n in Records()
    {
      Shaped() && Sorted(shape)
    }

    /** All ranges lie in the region. */
    ghost predicate Inside()
      reads this, set n | n in Records()
    {
      && rEnd == limit % U64 && limit <= U64 && limit < rStart + U64
      && Within(Areas(Records()), rStart, limit)
    }

    /** Nothing happened to the region and its records since. */
    twostate lemma Untouched(nodes: set<Node>)
      requires nodes == shape.Nodes() && unchanged(this) && unchanged(tree) && unchanged(nodes)
      ensures Areas(Records()) == old(Areas(Records()))
      ensures (old(Valid()) ==> Valid()) && (old(Inside()) ==> Inside())
    {
      forall n ensures n in nodes <==> n in Records() {
        InOrder(shape, n);
      }
      SameAreas(Records());
    }

    /** The loop of vma_insert: down to the null link where the range belongs, or to a clash. */
    method FindLink(vma: Node) returns (clash: bool, parent: Node?, link: Link, ghost c: Ctx)
      requires Valid()
      ensures Valid() && Areas(Records()) == old(Areas(Records()))
      ensures clash ==> exists a :: a in Areas(Records()) && Clash(AreaOf(vma), a)
      ensures !clash ==> Zip(c, Leaf, null, parent, tree) && link == LinkTo(c) && c.Plug(Leaf) == shape
      ensures !clash ==> Below(Areas(c.Before()), vma.vmStart) && Above(Areas(c.After()), vma.vmEnd)
    {
      link, parent := AtRoot, null;
      ghost var s := shape;
      c := Top;
      while Load(tree, link) != null
        invariant Zip(c, s, Load(tree, link), parent, tree) && link == LinkTo(c) && c.Plug(s) == shape
        invariant Below(Areas(c.Before()), vma.vmStart) && Above(Areas(c.After()), vma.vmEnd)
        invariant Valid() && Areas(Records()) == old(Areas(Records()))
        decreases s
      {
        var current := Load(tree, link);
        if vma.vmEnd <= current.vmStart {
          GoLeft(c, s, current, parent, tree, vma.vmEnd);
          link := LeftOf(current);
          c, s := InLeft(s.n, s.red, s.r, c), s.l;
        } else if vma.vmStart >= current.vmEnd {
          GoRight(c, s, current, parent, tree, vma.vmStart);
          link := RightOf(current);
          c, s := InRight(s.l, s.n, s.red, c), s.r;
        } else {
          RootArea(c, s);
          return true, parent, link, c;
        }
        parent := current;
      }
      clash := false;
    }

    /** vma_insert */
    method Insert(vma: Node) returns (ret: int)
      requires Valid() && vma !in shape.Nodes()
      modifies this`shape, tree
      modifies (shape.Nodes() + {vma})`left, (shape.Nodes() + {vma})`right
      modifies (shape.Nodes() + {vma})`parent, (shape.Nodes() + {vma})`red
      ensures Shaped() && (vma.vmStart <= vma.vmEnd ==> Valid())
      ensures ret == if exists a :: a in old(Areas(Records())) && Clash(AreaOf(vma), a) then -1 else 0
      ensures ret == -1 ==> shape == old(shape)
      ensures ret == 0 ==> InsertedInto(old(Areas(Records())), AreaOf(vma), Areas(Records()))
      ensures ret == 0 ==> shape.Nodes() == old(shape.Nodes()) + {vma}
    {
      var clash, parent, link, c := FindLink(vma);
      if clash { return -1; }
      PlugNodes(c, Leaf);
      HoleFits(c, vma);
      PlaceAt(vma, parent, link, c);
      ret := 0;
    }

    /** The call of rb_insert. */
    method PlaceAt(vma: Node, parent: Node?, link: Link, ghost c: Ctx)
      requires Spells(tree, shape) && shape.RedBlack() && c.Plug(Leaf) == shape
      requires Zip(c, Leaf, null, parent, tree) && link == LinkTo(c) && vma !in c.Nodes()
      modifies this`shape, tree, (c.Nodes() + {vma})`left, (c.Nodes() + {vma})`right
      modifies (c.Nodes() + {vma})`parent, (c.Nodes() + {vma})`red
      ensures Spells(tree, shape) && shape.RedBlack() && shape.Nodes() == c.Nodes() + {vma}
      ensures Areas(Records()) == old(PlacedAreas(c, vma))
    {
      RbHeap.Insert(tree, vma, parent, link, c);
      shape := Fixed(c, Branch(Leaf, vma, true, Leaf));
      SameAreas(c.Before() + [vma] + c.After());
    }

    /** vma_search; steps counts the turns of its loop. */
    method Search(addr: nat) returns (v: Node?, ghost steps: nat)
      requires Valid()
      ensures v != null ==> v in Records() && AreaOf(v).Has(addr)
      ensures v == null ==> forall a :: a in Areas(Records()) ==> !a.Has(addr)
      ensures Pow2((steps + 1) / 2) <= |Records()| + 1
    {
      var node := tree.root;
      ghost var c, s, p := Top, shape, null;
      steps := 0;
      while node != null
        invariant Zip(c, s, node, p, tree) && c.Plug(s) == shape
        invariant Below(Areas(c.Before()), addr) && Above(Areas(c.After()), addr + 1)
        invariant Sorted(shape) && shape.RedBlack() && steps + s.Height() <= shape.Height()
        decreases s
      {
        steps := steps + 1;
        v := node;
        p := node;
        SubtreeOrdered(c, s);
        if addr >= v.vmStart && addr < v.vmEnd {
          FoundInTree(c, s);
          Shallow(steps);
          return;
        }
        if addr < v.vmStart {
          GoLeft(c, s, v, v.parent, tree, addr + 1);
          node := node.left;
          c, s := InLeft(s.n, s.red, s.r, c), s.l;
        }
        if addr >= v.vmEnd {
          GoRight(c, s, v, v.parent, tree, addr);
          node := node.right;
          c, s := InRight(s.l, s.n, s.red, c), s.r;
        }
      }
      v := null;
      AreasPlugged(c, Leaf);
      NoneHas(Areas(c.Before()), Areas(c.After()), addr);
      Shallow(steps);
    }

    /** rb_first of a region that is not empty. */
    method Lowest() returns (lowest: Node)
      requires Valid() && tree.root != null
      ensures Valid() && Areas(Records()) == old(Areas(Records()))
      ensures |Records()| > 0 && lowest == Records()[0]
    {
      EndsOfOrder(shape);
      var n := First(tree, shape);
      Untouched(shape.Nodes());
      return n;
    }

    /** rb_last of a region that is not empty. */
    method Highest() returns (highest: Node)
      requires Valid() && tree.root != null
      ensures Valid() && Areas(Records()) == old(Areas(Records()))
      ensures |Records()| > 0 && highest == Records()[|Records()| - 1]
    {
      EndsOfOrder(shape);
      var n := Last(tree, shape);
      Untouched(shape.Nodes());
      return n;
    }

    /** rb_next of the i-th record. */
    method Following(node: Node, ghost i: nat) returns (next: Node)
      requires Valid() && i + 1 < |Records()| && node == Records()[i]
      ensures Valid() && Areas(Records()) == old(Areas(Records())) && next == Records()[i + 1]
    {
      OrderOnce(shape);
      IndexIs(Records(), i);
      var n := Next(node, shape, tree);
      Untouched(shape.Nodes());
      return n;
    }

    /** The loop of vma_alloc_area over the gaps between neighbours. */
    method ScanGaps(lowest: Node, highest: Node, need: nat) returns (found: bool, start: nat)
      requires Valid() && Inside() && |Records()| > 0 && lowest == Records()[0] && highest == Records()[|Records()| - 1]
      requires !Roomy(Areas(Records()), rStart, limit, need, 0)
      requires !Roomy(Areas(Records()), rStart, limit, need, |Areas(Records())|)
      ensures Valid() && Areas(Records()) == old(Areas(Records()))
      ensures Answers(Areas(Records()), rStart, limit, need, found, start)
    {
      ghost var areas := Areas(Records());
      AreasAt(Records());
      var node := lowest;
      ghost var i := 0;
      while node != highest
        invariant Valid() && Inside() && Areas(Records()) == areas && i < |areas| == |Records()| && Records()[i] == node
        invariant forall k :: 0 <= k <= i ==> !Roomy(areas, rStart, limit, need, k)
        decreases |areas| - i
      {
        var prevEnd := node.vmEnd;
        AreasAt(Records());
        node := Following(node, i);
        AreasAt(Records());
        i := i + 1;
        GapSizes(areas, rStart, limit, i);
        if Minus(node.vmStart, prevEnd) >= need {
          assert Preferred(areas, rStart, limit, need, i);
          return true, prevEnd;
        }
      }
      OrderOnce(shape);
      found, start := false, 0;
    }

    /** Where vma_alloc_area puts a range of the given size. */
    method FindGap(need: nat) returns (found: bool, start: nat)
      requires Valid() && Inside()
      ensures Valid() && Areas(Records()) == old(Areas(Records()))
      ensures Answers(Areas(Records()), rStart, limit, need, found, start)
    {
      ghost var areas := Areas(Records());
      AreasAt(Records());
      WordDifference(rStart, limit);
      if need > Minus(rEnd, rStart) { return false, 0; }
      if tree.root == null {
        assert Preferred(areas, rStart, limit, need, 0);
        return true, rStart;
      }
      var lowest := Lowest();
      var highest := Highest();
      AreasAt(Records());
      GapSizes(areas, rStart, limit, 0);
      GapSizes(areas, rStart, limit, |areas|);
      if Minus(lowest.vmStart, rStart) >= need {
        assert Preferred(areas, rStart, limit, need, 0);
        return true, rStart;
      } else if Minus(rEnd, highest.vmEnd) >= need {
        assert Preferred(areas, rStart, limit, need, |areas|);
        return true, highest.vmEnd;
      }
      found, start := ScanGaps(lowest, highest, need);
    }

    /** vma_alloc_area; record is what the record allocation returns, null when it fails. A range that ends
        with the address space gets vm_end 0, and the map is no longer in order: the guarantees hold
        exactly for the ranges below. */
    method AllocArea(size: nat, flags: nat, record: Node?) returns (vma: Node?)
      requires Valid() && Inside() && size < U64 && (record != null ==> record !in shape.Nodes())
      modifies this`shape, tree, Only(record)
      modifies (shape.Nodes())`left, (shape.Nodes())`right, (shape.Nodes())`parent, (shape.Nodes())`red
      ensures vma != null <==> record != null && HasRoom(old(Areas(Records())), rStart, limit, PageAlignUp(size))
      ensures vma == null ==> Valid() && shape == old(shape) && Areas(Records()) == old(Areas(Records()))
      ensures vma != null ==>
                && vma == record && vma.vmFlags == flags && shape.Nodes() == old(shape.Nodes()) + {vma}
                && AreaOf(vma).end == Plus(AreaOf(vma).start, PageAlignUp(size))
                && Placed(old(Areas(Records())), rStart, limit, PageAlignUp(size), AreaOf(vma), Areas(Records()))
      ensures vma != null && vma.vmStart + PageAlignUp(size) < U64 ==> Valid() && Inside()
      ensures vma != null && vma.vmStart + PageAlignUp(size) >= U64 && rStart > 0 ==> Shaped() && !Valid()
    {
      var areaSize := PageAlignUp(size);
      var found, start := FindGap(areaSize);
      if !found || record == null { return null; }
      ghost var areas, k := Areas(Records()), 0;
      k :| 0 <= k <= |areas| && Preferred(areas, rStart, limit, areaSize, k) && start == GapStart(areas, rStart, k);
      GapIsVacant(areas, rStart, limit, areaSize, k);
      Claim(record, start, areaSize, flags);
      return record;
    }

    /** The record takes a free place; vma_insert, whose result is ignored, cannot refuse it. */
    method Claim(record: Node, start: nat, size: nat, flags: nat)
      requires Valid() && Inside() && record !in shape.Nodes()
      requires Vacant(Areas(Records()), rStart, limit, size, start)
      modifies this`shape, tree, record
      modifies (shape.Nodes())`left, (shape.Nodes())`right, (shape.Nodes())`parent, (shape.Nodes())`red
      ensures Shaped() && shape.Nodes() == old(shape.Nodes()) + {record}
      ensures AreaOf(record) == Area(start, Plus(start, size)) && record.vmFlags == flags
      ensures InsertedInto(old(Areas(Records())), AreaOf(record), Areas(Records()))
      ensures start + size < U64 ==> Valid() && Inside()
      ensures start + size >= U64 && rStart > 0 ==> !Valid()
    {
      ghost var areas := Areas(Records());
      Assign(record, start, size, flags);
      assert record.vmEnd == if start + size < U64 then start + size else 0;
      var _ := Insert(record);
      if start + size < U64 {
        StaysWithin(areas, AreaOf(record), Areas(Records()), rStart, limit);
        assert Inside();
      } else if rStart > 0 {
        OutOfOrder(areas, AreaOf(record), Areas(Records()));
        assert !Sorted(shape);
      }
    }

    /** vma_assign_struct on a record that is not in the tree. */
    method Assign(v: Node, begin: nat, size: nat, flags: nat)
      requires Valid() && v !in shape.Nodes()
      modifies v
      ensures Valid() && Areas(Records()) == old(Areas(Records()))
      ensures v.vmStart == begin && v.vmEnd == Plus(begin, size) && v.vmFlags == flags
      ensures v.left == v.right == v.parent == null && !v.red
    {
      v.left, v.right, v.parent, v.red := null, null, null, false;
      v.vmStart, v.vmEnd, v.vmFlags := begin, Plus(begin, size), flags;
      Untouched(shape.Nodes());
    }

    lemma Shallow(steps: nat)
      requires shape.RedBlack() && steps <= shape.Height()
      ensures Pow2((steps + 1) / 2) <= |Records()| + 1
    {
      LogarithmicHeight(shape);
      Pow2Monotone((steps + 1) / 2, (shape.Height() + 1) / 2);
    }
  }

  ghost function PlacedAreas(c: Ctx, n: Node): seq<Area>
    reads (set m | m in c.Before() + [n] + c.After())`vmStart, (set m | m in c.Before() + [n] + c.After())`vmEnd
  {
    Areas(c.Before() + [n] + c.After())
  }

  lemma HoleFits(c: Ctx, n: Node)
    requires Sorted(c.Plug(Leaf))
    requires Below(Areas(c.Before()), n.vmStart) && Above(Areas(c.After()), n.vmEnd)
    ensures n.vmStart <= n.vmEnd ==> Ordered(PlacedAreas(c, n))
    ensures InsertedInto(Areas(c.Plug(Leaf).Order()), AreaOf(n), PlacedAreas(c, n))
    ensures forall a :: a in Areas(c.Plug(Leaf).Order()) ==> !Clash(AreaOf(n), a)
  {
    AreasPlugged(c, Leaf);
    assert Areas(c.Before()) + Areas(Leaf.Order()) + Areas(c.After()) == Areas(c.Before()) + Areas(c.After());
    FitsBetween(Areas(c.Before()), AreaOf(n), Areas(c.After()));
    AreasAround(c.Before(), n, c.After());
  }

  twostate lemma {:induction false} SameAreas(s: seq<Node>)
    requires forall n <- s :: n.vmStart == old(n.vmStart) && n.vmEnd == old(n.vmEnd)
    ensures Areas(s) == old(Areas(s))
  {
    if s != [] { SameAreas(s[1..]); }
  }
}
