/**
 The buddy system as sets of blocks: what splitting and merging do to a tiling, why both keep it,
 and why a region whose blocks have all come back is exactly what was handed over.
 Page numbers are relative to the first usable page of the region.
 */
module BuddyBlocks {
  import opened Powers

  /** PFRAME_MAX_ORDER - 1, the largest order the merge loop can reach. */
  const TOP: nat := 10

  datatype Block = Block(pfn: nat, ord: nat)
  {
    function Size(): nat { Pow2(ord) }

    function End(): nat { pfn + Size() }

    predicate Aligned() { pfn % Size() == 0 }

    predicate Has(page: int) { pfn <= page < End() }

    predicate Within(that: Block) { that.pfn <= pfn && End() <= that.End() }

    predicate Apart(that: Block) { End() <= that.pfn || that.End() <= pfn }

    predicate IsLeft() { pfn / Size() % 2 == 0 }

    /** The other half of the block one order up. */
    function Buddy(): Block
      requires Aligned()
    {
      if IsLeft() then Block(pfn + Size(), ord)
      else BuddyIsLow(this); Block(pfn - Size(), ord)
    }

    /** The block one order up that holds this one. */
    function Parent(): Block
      requires Aligned()
    {
      if IsLeft() then Block(pfn, ord + 1)
      else BuddyIsLow(this); Block(pfn - Size(), ord + 1)
    }
  }

  lemma BuddyIsLow(b: Block)
    requires b.Aligned() && !b.IsLeft()
    ensures b.pfn >= b.Size()
  {
    if b.pfn < b.Size() {
      DivModUnique(b.pfn, b.Size(), 0, b.pfn);
    }
  }

  // ---- geometry of aligned blocks -----------------------------------------------------------

  /** Two aligned blocks are nested or apart. */
  lemma Laminar(b: Block, c: Block)
    requires b.Aligned() && c.Aligned() && b.ord <= c.ord
    ensures b.Within(c) || b.Apart(c)
  {
    Pow2Add(c.ord - b.ord, b.ord);
    NestedOrApart(b.pfn, b.Size(), c.pfn, c.Size(), Pow2(c.ord - b.ord));
  }

  lemma NestedOrApart(p: int, s: int, q: int, t: int, d: int)
    requires s > 0 && d > 0 && t == d * s && p % s == 0 && q % t == 0
    ensures p + s <= q || q + t <= p || (q <= p && p + s <= q + t)
  {
    var x, y := p / s, q / t;
    assert p == x * s && q == y * t;
    assert q == (y * d) * s by { MulAssoc(y, d, s); }
    assert q + t == (y * d + d) * s by { MulDistr(y * d, d, s); }
    if x < y * d {
      MulGap(x, y * d, s);
    } else if x >= y * d + d {
      MulMono(y * d + d, x, s);
    } else {
      MulMono(y * d, x, s);
      MulGap(x, y * d + d, s);
    }
  }

  /** Aligned blocks of one order that overlap are the same block. */
  lemma SameOrder(b: Block, c: Block)
    requires b.Aligned() && c.Aligned() && b.ord == c.ord && !b.Apart(c)
    ensures b == c
  {
    Laminar(b, c);
    Laminar(c, b);
  }

  /** Even multiples of s are multiples of 2s, and odd ones are followed by them. */
  lemma EvenHalf(p: nat, s: nat, q: nat)
    requires s > 0 && p == q * s && q % 2 == 0
    ensures p % (2 * s) == 0 && (p + s) % s == 0 && (p + s) / s == q + 1
  {
    MulDistr(q, 1, s);
    DivModUnique(p + s, s, q + 1, 0);
    assert p == (q / 2) * (2 * s) by { MulAssoc(q / 2, 2, s); }
    DivModUnique(p, 2 * s, q / 2, 0);
  }

  lemma OddHalf(p: nat, s: nat, q: nat)
    requires s > 0 && p == q * s && q % 2 == 1
    ensures p >= s && (p - s) % (2 * s) == 0 && (p - s) % s == 0 && (p - s) / s == q - 1
  {
    MulDistr(q - 1, 1, s);
    MulMono(1, q, s);
    EvenHalf(p - s, s, q - 1);
    DivModUnique(p - s, s, q - 1, 0);
  }

  /** The buddy of a left block is the right block behind it, with the same parent. */
  lemma LeftFamily(b: Block, c: Block, up: Block)
    requires b.Aligned() && b.IsLeft() && c == Block(b.pfn + b.Size(), b.ord) && up == Block(b.pfn, b.ord + 1)
    ensures b.Buddy() == c && b.Parent() == up && c.Aligned() && c.Buddy() == b && c.Parent() == up && up.Aligned()
  {
    EvenHalf(b.pfn, b.Size(), b.pfn / b.Size());
    assert up.Size() == 2 * b.Size();
    assert !c.IsLeft();
  }

  lemma RightFamily(b: Block, c: Block)
    requires b.Aligned() && !b.IsLeft()
    requires b.pfn >= b.Size() ==> c == Block(b.pfn - b.Size(), b.ord)
    ensures b.pfn >= b.Size() && c.Aligned() && c.IsLeft()
  {
    OddHalf(b.pfn, b.Size(), b.pfn / b.Size());
  }

  /** A block and its buddy are the two halves of their common parent. */
  lemma Family(b: Block)
    requires b.Aligned()
    ensures b.Buddy().Aligned() && b.Buddy().Buddy() == b && b.Buddy() != b
    ensures b.Parent().Aligned() && b.Buddy().Parent() == b.Parent()
    ensures b.Within(b.Parent()) && b.Buddy().Within(b.Parent()) && b.Apart(b.Buddy())
    ensures forall p :: b.Parent().Has(p) <==> b.Has(p) || b.Buddy().Has(p)
  {
    if b.IsLeft() {
      LeftFamily(b, Block(b.pfn + b.Size(), b.ord), Block(b.pfn, b.ord + 1));
    } else {
      BuddyIsLow(b);
      var c := Block(b.pfn - b.Size(), b.ord);
      RightFamily(b, c);
      LeftFamily(c, b, Block(c.pfn, c.ord + 1));
    }
    assert b.Parent().Size() == 2 * b.Size();
  }

  /** The lower half of an aligned block of positive order, whose buddy is the upper half. */
  function LowHalf(b: Block): Block
    requires b.ord > 0
  {
    Block(b.pfn, b.ord - 1)
  }

  lemma Halves(b: Block)
    requires b.Aligned() && b.ord > 0
    ensures LowHalf(b).Aligned() && LowHalf(b).Parent() == b
    ensures LowHalf(b).Buddy() == Block(b.pfn + Pow2(b.ord - 1), b.ord - 1)
  {
    var s := Pow2(b.ord - 1);
    var q := b.pfn / b.Size();
    assert b.pfn == q * (2 * s);
    assert b.pfn == (q * 2) * s by { MulAssoc(q, 2, s); }
    DivModUnique(b.pfn, s, q * 2, 0);
  }

  /** Growing past a block's own order takes the parent along. */
  lemma ParentWithin(b: Block, c: Block)
    requires b.Aligned() && c.Aligned() && b.ord < c.ord && !b.Apart(c)
    ensures b.Parent().Within(c) && b.Buddy().Within(c) && b.Within(c)
  {
    Family(b);
    Laminar(b.Parent(), c);
  }

  // ---- tilings ------------------------------------------------------------------------------

  ghost predicate Inside(b: Block, accepted: set<Block>)
  {
    exists a :: a in accepted && b.Within(a)
  }

  ghost predicate Covers(blocks: set<Block>, page: nat)
  {
    exists b :: b in blocks && b.Has(page)
  }

  ghost predicate Disjoint(blocks: set<Block>)
  {
    forall b, c :: b in blocks && c in blocks && b != c ==> b.Apart(c)
  }

  ghost predicate AllAligned(blocks: set<Block>)
  {
    forall b :: b in blocks ==> b.Aligned() && b.ord <= TOP
  }

  /** No block below the top order sits in the set together with its buddy. */
  ghost predicate NoBuddies(blocks: set<Block>)
    requires AllAligned(blocks)
  {
    forall b :: b in blocks && b.ord < TOP ==> b.Buddy() !in blocks
  }

  /** What a hand-over must deliver for the region to be restorable. */
  ghost predicate Sound(accepted: set<Block>)
  {
    AllAligned(accepted) && Disjoint(accepted) && NoBuddies(accepted)
  }

  /** `blocks` cuts up exactly the pages of `accepted`, each block inside one accepted block. */
  ghost predicate Tiles(blocks: set<Block>, accepted: set<Block>)
  {
    && AllAligned(blocks)
    && Disjoint(blocks)
    && (forall b :: b in blocks ==> Inside(b, accepted))
    && (forall p: nat :: Covers(accepted, p) ==> Covers(blocks, p))
  }

  /** The blocks on the free lists and the blocks handed to callers. */
  datatype Heap = Heap(free: set<Block>, out: set<Block>)

  ghost predicate Inv(accepted: set<Block>, h: Heap)
  {
    && Sound(accepted)
    && h.free !! h.out
    && Tiles(h.free + h.out, accepted)
    && NoBuddies(h.free)
  }

  // ---- the four elementary moves ------------------------------------------------------------

  /** Unlinking a free block. */
  function Pop(h: Heap, b: Block): Heap { Heap(h.free - {b}, h.out + {b}) }

  /** Linking a block in. */
  function Push(h: Heap, b: Block): Heap { Heap(h.free + {b}, h.out - {b}) }

  /** Keeping the lower half of a block in hand and freeing the upper half. */
  function SplitOnce(h: Heap, b: Block): Heap
    requires b.Aligned() && b.ord > 0
  {
    Halves(b);
    Heap(h.free + {LowHalf(b).Buddy()}, h.out - {b} + {LowHalf(b)})
  }

  /** Joining a block in hand with its free buddy. */
  function MergeOnce(h: Heap, b: Block): Heap
    requires b.Aligned()
  {
    Heap(h.free - {b.Buddy()}, h.out - {b} + {b.Parent()})
  }

  lemma PopKeepsInv(accepted: set<Block>, h: Heap, b: Block)
    requires Inv(accepted, h) && b in h.free
    ensures Inv(accepted, Pop(h, b))
  {
    var h' := Pop(h, b);
    assert h'.free + h'.out == h.free + h.out;
  }

  lemma PushKeepsInv(accepted: set<Block>, h: Heap, b: Block)
    requires Inv(accepted, h) && b in h.out && b.Aligned()
    requires b.ord < TOP ==> b.Buddy() !in h.free
    ensures Inv(accepted, Push(h, b))
  {
    var h' := Push(h, b);
    assert h'.free + h'.out == h.free + h.out;
    forall c | c in h'.free && c.ord < TOP ensures c.Buddy() !in h'.free {
      Family(c);
    }
  }

  /** Replacing a block by its two halves keeps a tiling. */
  lemma SplitTiles(accepted: set<Block>, blocks: set<Block>, b: Block)
    requires Tiles(blocks, accepted) && b in blocks && b.ord > 0
    ensures LowHalf(b).Aligned()
    ensures Tiles(blocks - {b} + {LowHalf(b), LowHalf(b).Buddy()}, accepted)
  {
    Halves(b);
    Family(LowHalf(b));
    SplitCovers(accepted, blocks, b);
    var blocks' := blocks - {b} + {LowHalf(b), LowHalf(b).Buddy()};
    var a :| a in accepted && b.Within(a);
    forall c | c in blocks' ensures Inside(c, accepted) {
      assert c in blocks ==> Inside(c, accepted);
      assert c !in blocks ==> c.Within(a);
    }
    forall c | c in blocks && c != b ensures c.Apart(LowHalf(b)) && c.Apart(LowHalf(b).Buddy()) {
      assert c.Apart(b);
    }
  }

  lemma SplitCovers(accepted: set<Block>, blocks: set<Block>, b: Block)
    requires Tiles(blocks, accepted) && b in blocks && b.ord > 0 && LowHalf(b).Aligned()
    ensures forall p: nat :: Covers(accepted, p) ==>
                               Covers(blocks - {b} + {LowHalf(b), LowHalf(b).Buddy()}, p)
  {
    Halves(b);
    Family(LowHalf(b));
    var blocks' := blocks - {b} + {LowHalf(b), LowHalf(b).Buddy()};
    forall p: nat | Covers(accepted, p) ensures Covers(blocks', p) {
      assert Covers(blocks, p);
      var c :| c in blocks && c.Has(p);
      var c' := if c != b then c else if LowHalf(b).Has(p) then LowHalf(b) else LowHalf(b).Buddy();
      assert c' in blocks' && c'.Has(p);
    }
  }

  /** Two buddies of a tiling lie in one and the same accepted block. */
  lemma BuddiesShareBlock(accepted: set<Block>, b: Block, a: Block, a': Block)
    requires Sound(accepted) && b.Aligned() && b.ord < TOP
    requires a in accepted && b.Within(a)
    requires a' in accepted && b.Buddy().Within(a')
    ensures b.Parent().Within(a)
  {
    Family(b);
    if a.ord > b.ord {
      ParentWithin(b, a);
    } else {
      WithinOrder(b, a);
      SameOrder(b, a);
      assert a != a' ==> a.Apart(a');
      WithinOrder(b.Buddy(), a');
      if a'.ord > b.ord {
        ParentWithin(b.Buddy(), a');
      } else {
        SameOrder(b.Buddy(), a');
      }
    }
  }

  lemma WithinOrder(b: Block, a: Block)
    requires b.Within(a)
    ensures b.ord <= a.ord
  {
    if a.ord < b.ord {
      Pow2Monotone(a.ord + 1, b.ord);
    }
  }

  /** `blocks` with a block and its buddy replaced by their parent. */
  function Merged(blocks: set<Block>, b: Block): set<Block>
    requires b.Aligned()
  {
    blocks - {b, b.Buddy()} + {b.Parent()}
  }

  /** Replacing two buddies by their parent keeps a tiling. */
  lemma MergeTiles(accepted: set<Block>, blocks: set<Block>, b: Block)
    requires Sound(accepted) && Tiles(blocks, accepted)
    requires b in blocks && b.ord < TOP && b.Buddy() in blocks
    ensures b.Parent() !in blocks
    ensures Tiles(Merged(blocks, b), accepted)
  {
    Family(b);
    assert b.Parent() in blocks ==> b.Parent().Apart(b);
    MergeInside(accepted, blocks, b);
    MergeCovers(accepted, blocks, b);
    forall c | c in Merged(blocks, b) && c != b.Parent() ensures c.Apart(b.Parent()) {
      OutsideParent(b, c);
    }
  }

  lemma MergeInside(accepted: set<Block>, blocks: set<Block>, b: Block)
    requires Sound(accepted) && Tiles(blocks, accepted)
    requires b in blocks && b.ord < TOP && b.Buddy() in blocks
    ensures forall c :: c in Merged(blocks, b) ==> Inside(c, accepted)
  {
    assert Inside(b, accepted) && Inside(b.Buddy(), accepted);
    var a :| a in accepted && b.Within(a);
    var a' :| a' in accepted && b.Buddy().Within(a');
    BuddiesShareBlock(accepted, b, a, a');
  }

  lemma MergeCovers(accepted: set<Block>, blocks: set<Block>, b: Block)
    requires Tiles(blocks, accepted) && b in blocks && b.Buddy() in blocks
    ensures forall p: nat :: Covers(accepted, p) ==> Covers(Merged(blocks, b), p)
  {
    Family(b);
    forall p: nat | Covers(accepted, p) ensures Covers(Merged(blocks, b), p) {
      assert Covers(blocks, p);
      var c :| c in blocks && c.Has(p);
      var c' := if c == b || c == b.Buddy() then b.Parent() else c;
      assert c' in Merged(blocks, b) && c'.Has(p);
    }
  }

  lemma OutsideParent(b: Block, c: Block)
    requires b.Aligned() && c.Aligned() && c.Apart(b) && c.Apart(b.Buddy())
    ensures c.Apart(b.Parent())
  {
    Family(b);
    var up := b.Parent();
    if c.ord > b.ord {
      Laminar(up, c);
    } else {
      Laminar(c, up);
      assert !c.Apart(up) ==> b.Has(c.pfn) || b.Buddy().Has(c.pfn) by {
        assert !c.Apart(up) ==> up.Has(c.pfn);
      }
    }
  }

  lemma SplitKeepsInv(accepted: set<Block>, h: Heap, b: Block)
    requires Inv(accepted, h) && b in h.out && b.ord > 0
    ensures b.Aligned() && LowHalf(b).Aligned()
    ensures Inv(accepted, SplitOnce(h, b))
    ensures LowHalf(b) in SplitOnce(h, b).out
    ensures LowHalf(b) !in h.out && LowHalf(b).Buddy() !in h.free + h.out
  {
    Halves(b);
    var lo := LowHalf(b);
    var hi := lo.Buddy();
    Family(lo);
    SplitTiles(accepted, h.free + h.out, b);
    var h' := SplitOnce(h, b);
    HalvesAreNew(h.free + h.out, b);
    assert h'.free + h'.out == (h.free + h.out) - {b} + {lo, hi};
    forall c | c in h'.free && c.ord < TOP ensures c.Buddy() !in h'.free {
      Family(c);
      assert c.Buddy() == hi ==> c == lo;
    }
  }

  lemma HalvesAreNew(blocks: set<Block>, b: Block)
    requires b in blocks && b.Aligned() && b.ord > 0 && Disjoint(blocks)
    ensures LowHalf(b).Aligned()
    ensures LowHalf(b) !in blocks && LowHalf(b).Buddy() !in blocks
  {
    Halves(b);
    Family(LowHalf(b));
    assert LowHalf(b) in blocks ==> LowHalf(b).Apart(b);
    assert LowHalf(b).Buddy() in blocks ==> LowHalf(b).Buddy().Apart(b);
  }

  lemma MergeKeepsInv(accepted: set<Block>, h: Heap, b: Block)
    requires Inv(accepted, h) && b in h.out && b.Aligned() && b.ord < TOP && b.Buddy() in h.free
    ensures Inv(accepted, MergeOnce(h, b))
    ensures b.Parent() in MergeOnce(h, b).out && b.Parent() !in h.free + h.out
  {
    Family(b);
    MergeTiles(accepted, h.free + h.out, b);
    var h' := MergeOnce(h, b);
    assert h'.free + h'.out == Merged(h.free + h.out, b);
  }

  // ---- allocation and release as steps ------------------------------------------------------

  /** Halving the block in hand until its order is `req`. */
  function SplitTo(h: Heap, b: Block, req: nat): Heap
    requires b.Aligned() && req <= b.ord
    decreases b.ord
  {
    if b.ord == req then h
    else
      Halves(b);
      SplitTo(SplitOnce(h, b), LowHalf(b), req)
  }

  /** Merging the block in hand for as long as its buddy is free, then linking it in. */
  function Release(h: Heap, b: Block): Heap
    requires b.Aligned() && b.ord <= TOP
    decreases TOP - b.ord
  {
    if b.ord < TOP && b.Buddy() in h.free then
      Family(b);
      Release(MergeOnce(h, b), b.Parent())
    else
      Push(h, b)
  }

  /** One call: an allocation that pops `b` for order `req`, or a release of `b`. */
  datatype Event = Alloc(b: Block, req: nat) | Free(b: Block)

  ghost predicate Enabled(h: Heap, e: Event)
  {
    && e.b.Aligned() && e.b.ord <= TOP
    && match e
       case Alloc(b, req) =>
         b in h.free && req <= b.ord && (forall c :: c in h.free && req <= c.ord ==> b.ord <= c.ord)
       case Free(b) => b in h.out
  }

  ghost function Step(h: Heap, e: Event): Heap
    requires Enabled(h, e)
  {
    match e
    case Alloc(b, req) => SplitTo(Pop(h, b), b, req)
    case Free(b) => Release(h, b)
  }

  lemma {:induction false} SplitToKeepsInv(accepted: set<Block>, h: Heap, b: Block, req: nat)
    requires Inv(accepted, h) && b in h.out && b.Aligned() && req <= b.ord
    ensures Inv(accepted, SplitTo(h, b, req))
    ensures SplitTo(h, b, req).out == h.out - {b} + {Block(b.pfn, req)}
    ensures Block(b.pfn, req) == b || Block(b.pfn, req) !in h.out
    decreases b.ord
  {
    if b.ord != req {
      SplitKeepsInv(accepted, h, b);
      SplitToKeepsInv(accepted, SplitOnce(h, b), LowHalf(b), req);
      assert Block(b.pfn, req) in h.out ==> Block(b.pfn, req).Apart(b);
    }
  }

  /** The blocks a split hands to the free lists. */
  function Remnants(h: Heap, b: Block, req: nat): set<Block>
    requires b.Aligned() && req <= b.ord
  {
    SplitTo(h, b, req).free - h.free
  }

  /** The remnants and the block that is left in hand cut up exactly the block that was split. */
  lemma {:induction false} SplitTilesBlock(accepted: set<Block>, h: Heap, b: Block, req: nat)
    requires Inv(accepted, h) && b in h.out && b.Aligned() && req <= b.ord
    ensures h.free <= SplitTo(h, b, req).free
    ensures var cut := Remnants(h, b, req) + {Block(b.pfn, req)};
            && Disjoint(cut) && (forall c :: c in cut ==> c.Within(b))
            && (forall p: nat :: b.Has(p) ==> Covers(cut, p))
    decreases b.ord
  {
    var last := Block(b.pfn, req);
    if b.ord == req {
      forall p: nat | b.Has(p) ensures Covers({} + {last}, p) { assert last in {} + {last}; }
      assert Remnants(h, b, req) == {};
    } else {
      SplitKeepsInv(accepted, h, b);
      Halves(b);
      Family(LowHalf(b));
      var h1, lo, hi := SplitOnce(h, b), LowHalf(b), LowHalf(b).Buddy();
      SplitTilesBlock(accepted, h1, lo, req);
      var cut1, cut := Remnants(h1, lo, req) + {last}, Remnants(h, b, req) + {last};
      assert cut == cut1 + {hi};
      forall p: nat | b.Has(p) ensures Covers(cut, p) {
        if lo.Has(p) {
          assert Covers(cut1, p);
          var c :| c in cut1 && c.Has(p);
          assert c in cut;
        } else {
          assert hi in cut && hi.Has(p);
        }
      }
    }
  }

  lemma {:induction false} ReleaseKeepsInv(accepted: set<Block>, h: Heap, b: Block)
    requires Inv(accepted, h) && b in h.out && b.Aligned()
    ensures b.ord <= TOP
    ensures Inv(accepted, Release(h, b))
    ensures Release(h, b).out == h.out - {b}
    decreases TOP - b.ord
  {
    if b.ord < TOP && b.Buddy() in h.free {
      MergeKeepsInv(accepted, h, b);
      ReleaseKeepsInv(accepted, MergeOnce(h, b), b.Parent());
      assert MergeOnce(h, b).out - {b.Parent()} == h.out - {b};
    } else {
      PushKeepsInv(accepted, h, b);
    }
  }

  /** Every call keeps the invariant and changes the outstanding blocks by exactly its own block. */
  lemma StepKeepsInv(accepted: set<Block>, h: Heap, e: Event)
    requires Inv(accepted, h) && Enabled(h, e)
    ensures Inv(accepted, Step(h, e))
    ensures e.Free? ==> Step(h, e).out == h.out - {e.b}
    ensures e.Alloc? ==>
              Block(e.b.pfn, e.req) !in h.out && Step(h, e).out == h.out + {Block(e.b.pfn, e.req)}
  {
    match e
    case Alloc(b, req) =>
      assert b in h.free + h.out;
      PopKeepsInv(accepted, h, b);
      SplitToKeepsInv(accepted, Pop(h, b), b, req);
      assert Block(b.pfn, req) in h.out ==> Block(b.pfn, req).Apart(b);
      assert Pop(h, b).out - {b} == h.out;
    case Free(b) =>
      assert b in h.free + h.out;
      ReleaseKeepsInv(accepted, h, b);
  }

  // ---- whole runs ---------------------------------------------------------------------------

  ghost predicate IsRun(h: Heap, es: seq<Event>, h': Heap)
    decreases |es|
  {
    if es == [] then h' == h
    else Enabled(h, es[0]) && IsRun(Step(h, es[0]), es[1..], h')
  }

  lemma {:induction false} RunKeepsInv(accepted: set<Block>, h: Heap, es: seq<Event>, h': Heap)
    requires Inv(accepted, h) && IsRun(h, es, h')
    ensures Inv(accepted, h')
    decreases |es|
  {
    if es == [] {
    } else {
      StepKeepsInv(accepted, h, es[0]);
      RunKeepsInv(accepted, Step(h, es[0]), es[1..], h');
    }
  }

  /** A block that is part of an accepted one, but not all of it. */
  lemma PartOf(accepted: set<Block>, free: set<Block>, f: Block) returns (a: Block)
    requires Inv(accepted, Heap(free, {})) && f in free && f !in accepted
    ensures f.Aligned() && f.ord < a.ord <= TOP && a in accepted && f.Parent().Within(a) && f.Buddy().Within(a)
  {
    assert free + {} == free;
    assert Inside(f, accepted);
    a :| a in accepted && f.Within(a);
    WithinOrder(f, a);
    if f.ord == a.ord { SameOrder(f, a); }
    ParentWithin(f, a);
  }

  /** The free block on the first page of its buddy is a smaller such part. */
  lemma SmallerPart(accepted: set<Block>, free: set<Block>, f: Block) returns (c: Block)
    requires Inv(accepted, Heap(free, {})) && f in free && f !in accepted
    ensures c in free && c !in accepted && c.ord < f.ord
  {
    var a := PartOf(accepted, free, f);
    Family(f);
    var g := f.Buddy();
    assert free + {} == free && a.Has(g.pfn);
    assert Covers(accepted, g.pfn);
    assert Covers(free, g.pfn);
    c :| c in free && c.Has(g.pfn);
    assert c != f ==> f.Apart(c);
    if c.ord > f.ord {
      ParentWithin(g, c);
    } else if c.ord == f.ord {
      SameOrder(c, g);
    } else {
      Laminar(c, g);
      assert c.Within(a) && c != a;
      assert c in accepted ==> c.Apart(a);
    }
  }

  /** In a fully released, coalesced tiling a free block that is no accepted block cannot exist. */
  lemma {:induction false} NoFragment(accepted: set<Block>, free: set<Block>, f: Block)
    requires Inv(accepted, Heap(free, {})) && f in free && f !in accepted
    ensures false
    decreases f.ord
  {
    var c := SmallerPart(accepted, free, f);
    NoFragment(accepted, free, c);
  }

  /** Once nothing is outstanding, the free blocks are exactly the accepted blocks. */
  lemma CanonicalRestoration(accepted: set<Block>, h: Heap)
    requires Inv(accepted, h) && h.out == {}
    ensures h.free == accepted
  {
    assert h == Heap(h.free, {});
    assert h.free + h.out == h.free;
    forall f | f in h.free ensures f in accepted {
      if f !in accepted { NoFragment(accepted, h.free, f); }
    }
    forall a | a in accepted ensures a in h.free {
      assert a.Has(a.pfn);
      assert Covers(accepted, a.pfn);
      assert Covers(h.free, a.pfn);
      var c :| c in h.free && c.Has(a.pfn);
      assert c != a ==> c.Apart(a);
    }
  }

  /** After any run from the hand-over that ends with every block released, in any order, the free
      blocks are the accepted ones again. */
  lemma RunRestores(accepted: set<Block>, es: seq<Event>, h': Heap)
    requires Sound(accepted) && IsRun(Heap(accepted, {}), es, h') && h'.out == {}
    ensures h'.free == accepted
  {
    HandedOver(accepted);
    RunKeepsInv(accepted, Heap(accepted, {}), es, h');
    CanonicalRestoration(accepted, h');
  }

  lemma HandedOver(accepted: set<Block>)
    requires Sound(accepted)
    ensures Inv(accepted, Heap(accepted, {}))
  {
    assert accepted + {} == accepted;
    forall b | b in accepted ensures Inside(b, accepted) {
      assert b.Within(b);
    }
  }

  // ---- conservation of pages ----------------------------------------------------------------

  ghost function Pages(blocks: set<Block>): nat
  {
    if blocks == {} then 0
    else
      var b :| b in blocks;
      b.Size() + Pages(blocks - {b})
  }

  lemma {:induction false} PagesRemove(blocks: set<Block>, c: Block)
    requires c in blocks
    ensures Pages(blocks) == c.Size() + Pages(blocks - {c})
  {
    var b :| b in blocks && Pages(blocks) == b.Size() + Pages(blocks - {b});
    if b != c {
      PagesRemove(blocks - {b}, c);
      PagesRemove(blocks - {c}, b);
      assert blocks - {b} - {c} == blocks - {c} - {b};
    }
  }

  lemma PagesAdd(blocks: set<Block>, c: Block)
    requires c !in blocks
    ensures Pages(blocks + {c}) == Pages(blocks) + c.Size()
  {
    PagesRemove(blocks + {c}, c);
    assert blocks + {c} - {c} == blocks;
  }

  lemma PagesReplace(blocks: set<Block>, b: Block, c: Block)
    requires b in blocks && c !in blocks
    ensures Pages(blocks - {b} + {c}) == Pages(blocks) - b.Size() + c.Size()
  {
    PagesRemove(blocks, b);
    PagesAdd(blocks - {b}, c);
  }

  ghost function Held(h: Heap): nat { Pages(h.free) + Pages(h.out) }

  lemma PopHeld(h: Heap, b: Block)
    requires b in h.free && b !in h.out
    ensures Held(Pop(h, b)) == Held(h)
  {
    PagesRemove(h.free, b);
    PagesAdd(h.out, b);
  }

  lemma PushHeld(h: Heap, b: Block)
    requires b in h.out && b !in h.free
    ensures Held(Push(h, b)) == Held(h)
  {
    PagesRemove(h.out, b);
    PagesAdd(h.free, b);
  }

  lemma SplitHeld(accepted: set<Block>, h: Heap, b: Block)
    requires Inv(accepted, h) && b in h.out && b.ord > 0 && b.Aligned()
    ensures Held(SplitOnce(h, b)) == Held(h)
  {
    SplitKeepsInv(accepted, h, b);
    Halves(b);
    assert b.Size() == LowHalf(b).Size() + LowHalf(b).Buddy().Size();
    PagesReplace(h.out, b, LowHalf(b));
    PagesAdd(h.free, LowHalf(b).Buddy());
  }

  lemma MergeHeld(accepted: set<Block>, h: Heap, b: Block)
    requires Inv(accepted, h) && b in h.out && b.Aligned() && b.ord < TOP && b.Buddy() in h.free
    ensures Held(MergeOnce(h, b)) == Held(h)
  {
    MergeKeepsInv(accepted, h, b);
    assert b.Parent().Size() == b.Size() + b.Buddy().Size();
    PagesReplace(h.out, b, b.Parent());
    PagesRemove(h.free, b.Buddy());
  }

  lemma {:induction false} SplitToHeld(accepted: set<Block>, h: Heap, b: Block, req: nat)
    requires Inv(accepted, h) && b in h.out && b.Aligned() && req <= b.ord
    ensures Held(SplitTo(h, b, req)) == Held(h)
    decreases b.ord
  {
    if b.ord != req {
      SplitHeld(accepted, h, b);
      SplitKeepsInv(accepted, h, b);
      SplitToHeld(accepted, SplitOnce(h, b), LowHalf(b), req);
    }
  }

  lemma {:induction false} ReleaseHeld(accepted: set<Block>, h: Heap, b: Block)
    requires Inv(accepted, h) && b in h.out && b.Aligned() && b.ord <= TOP
    ensures Held(Release(h, b)) == Held(h)
    decreases TOP - b.ord
  {
    if b.ord < TOP && b.Buddy() in h.free {
      MergeHeld(accepted, h, b);
      MergeKeepsInv(accepted, h, b);
      ReleaseHeld(accepted, MergeOnce(h, b), b.Parent());
    } else {
      PushHeld(h, b);
    }
  }

  /** At every moment of a run free pages plus outstanding pages equal accepted pages. */
  lemma {:induction false} RunConserves(accepted: set<Block>, h: Heap, es: seq<Event>, h': Heap)
    requires Inv(accepted, h) && IsRun(h, es, h')
    ensures Held(h') == Held(h)
    decreases |es|
  {
    if es != [] {
      StepKeepsInv(accepted, h, es[0]);
      StepConserves(accepted, h, es[0]);
      RunConserves(accepted, Step(h, es[0]), es[1..], h');
    }
  }

  lemma StepConserves(accepted: set<Block>, h: Heap, e: Event)
    requires Inv(accepted, h) && Enabled(h, e)
    ensures Held(Step(h, e)) == Held(h)
  {
    match e
    case Alloc(b, req) =>
      PopHeld(h, b);
      PopKeepsInv(accepted, h, b);
      SplitToHeld(accepted, Pop(h, b), b, req);
    case Free(b) =>
      ReleaseHeld(accepted, h, b);
  }
}
