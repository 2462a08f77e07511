/**
 Where the buddy allocator's guarantees stop. Splitting computes a buddy from the physical address
 and merging computes it from the page number within the region; and the merge loop runs up to order
 10 whatever the region's own maximal order is.
 */
module BuddyLimits {
  import opened Powers
  import opened Bits
  import opened BuddyBlocks
  import opened BuddyLayout
  import opened BuddyRegion
  import opened BuddyHandover

  // ---- physical against relative buddies --------------------------------------------------------

  /** Order k splits and merges name the same buddy for every physically aligned block. */
  ghost predicate BuddiesAgree(m: nat, k: nat)
  {
    forall p: nat {:trigger Xor(p, Shl(1, k))} :: (m + p) % Pow2(k) == 0 ==>
      Xor(4096 * (m + p), Shl(4096, k)) == 4096 * (m + Xor(p, Shl(1, k)))
  }

  /** The two notions agree on every order that is split exactly when the first usable frame m is
      aligned to the largest block of the region. */
  lemma AgreementIff(m: nat, maxOrder: nat)
    ensures (forall k: nat :: k < maxOrder ==> BuddiesAgree(m, k)) <==> m % Pow2(maxOrder) == 0
  {
    if m % Pow2(maxOrder) == 0 {
      forall k: nat | k < maxOrder ensures BuddiesAgree(m, k) {
        AlignedAgrees(m, maxOrder, k);
      }
    }
    if forall k: nat :: k < maxOrder ==> BuddiesAgree(m, k) {
      AgreementAligns(m, maxOrder);
    }
  }

  lemma AlignedAgrees(m: nat, maxOrder: nat, k: nat)
    requires m % Pow2(maxOrder) == 0 && k < maxOrder
    ensures BuddiesAgree(m, k)
  {
    ModPow2Down(m, k + 1, maxOrder);
    forall p: nat | (m + p) % Pow2(k) == 0
      ensures Xor(4096 * (m + p), Shl(4096, k)) == 4096 * (m + Xor(p, Shl(1, k)))
    {
      EvenShift(m, p, Pow2(k));
      XorScaled(m + p, k);
      assert Shl(1, k) == Pow2(k);
      XorBit(p, k);
    }
  }

  lemma EvenMultiple(m: nat, d: nat)
    requires d > 0 && m % d == 0 && m / d % 2 == 0
    ensures m % (2 * d) == 0
  {
    var h := m / d / 2;
    assert m == (h * 2) * d;
    MulAssoc(h, 2, d);
    DivModUnique(m, 2 * d, h, 0);
  }

  lemma {:induction false} AgreementAligns(m: nat, k: nat)
    requires forall j: nat :: j < k ==> BuddiesAgree(m, j)
    ensures m % Pow2(k) == 0
    decreases k
  {
    if k > 0 {
      var j := k - 1;
      AgreementAligns(m, j);
      assert BuddiesAgree(m, j);
      assert Xor(0, Shl(1, j)) == Shl(1, j) == Pow2(j);
      assert Xor(4096 * (m + 0), Shl(4096, j)) == 4096 * (m + Xor(0, Shl(1, j)));
      XorScaled(m, j);
      EvenMultiple(m, Pow2(j));
    }
  }

  /** At the first order k where the alignment of m breaks, every block that merging can form one
      order up is split wrongly: the half put on the free list lies wholly below the block, on pages
      somebody else may hold. */
  lemma UnalignedSplitEscapes(m: nat, k: nat, b: Block)
    requires m % Pow2(k) == 0 && m / Pow2(k) % 2 == 1 && b.Aligned() && b.ord == k + 1
    ensures Xor(4096 * (m + b.pfn), Shl(4096, k)) == 4096 * (m + b.pfn - Pow2(k))
    ensures Pow2(k) > 0 && m + b.pfn >= Pow2(k)
  {
    EvenShift(b.pfn, m, Pow2(k));
    XorScaled(b.pfn + m, k);
  }

  // ---- regions below the top order --------------------------------------------------------------

  /** buddy_bit_chk for a region of rpages pages */
  predicate Chk(maxOrder: nat, rpages: nat, b: Block)
  {
    b.ord <= maxOrder && PairIdx(b.pfn, b.ord) < PairIdx(rpages, b.ord)
  }

  /** It is the check of the region, and passes exactly the blocks that lie in the region together with
      their buddies. */
  lemma ChkIs(r: Region, b: Block)
    requires r.Shape() && b.Aligned() && b.ord <= TOP
    ensures Chk(r.maxOrder, r.rpages, b) <==> r.BitChk(b.pfn, b.ord)
    ensures Chk(r.maxOrder, r.rpages, b) <==> b.ord <= r.maxOrder && b.Parent().End() <= r.rpages
  {
    if b.ord <= r.maxOrder {
      RefusedAtTheEnd(r, b);
    }
  }

  /** kbud_free with its last push as it is: refused when the merged block fails the bitmap check. */
  function FreeAsWritten(maxOrder: nat, rpages: nat, h: Heap, b: Block): Heap
    requires b.Aligned() && b.ord <= TOP
    decreases TOP - b.ord
  {
    if b.ord < TOP && Chk(maxOrder, rpages, b.Buddy()) && b.Buddy() in h.free then
      Family(b);
      FreeAsWritten(maxOrder, rpages, MergeOnce(h, b), b.Parent())
    else if Chk(maxOrder, rpages, b) then
      Push(h, b)
    else
      Heap(h.free, h.out - {b})
  }

  ghost predicate AllChecked(maxOrder: nat, rpages: nat, blocks: set<Block>)
  {
    forall b :: b in blocks ==> Chk(maxOrder, rpages, b) && b.End() <= rpages
  }

  /** From a sound hand-over no push of a release is ever refused. */
  lemma {:induction false} NeverRefused(maxOrder: nat, rpages: nat, accepted: set<Block>, h: Heap, b: Block)
    requires Inv(accepted, h) && AllChecked(maxOrder, rpages, accepted)
    requires b in h.out && b.Aligned() && b.ord <= TOP
    ensures FreeAsWritten(maxOrder, rpages, h, b) == Release(h, b)
    decreases TOP - b.ord
  {
    assert b in h.free + h.out;
    InsideChecked(maxOrder, rpages, accepted, b);
    Family(b);
    if b.ord < TOP && b.Buddy() in h.free {
      assert b.Buddy() in h.free + h.out;
      InsideChecked(maxOrder, rpages, accepted, b.Buddy());
      MergeKeepsInv(accepted, h, b);
      NeverRefused(maxOrder, rpages, accepted, MergeOnce(h, b), b.Parent());
    }
  }

  lemma InsideChecked(maxOrder: nat, rpages: nat, accepted: set<Block>, b: Block)
    requires Sound(accepted) && AllChecked(maxOrder, rpages, accepted) && b.Aligned() && Inside(b, accepted)
    ensures Chk(maxOrder, rpages, b)
  {
    var a :| a in accepted && b.Within(a);
    WithinOrder(b, a);
    if b.ord < a.ord {
      ParentWithin(b, a);
      PairIsParent(b);
      CellFits(PairIdx(b.pfn, b.ord), Pow2(b.ord + 1), rpages);
    } else {
      SameOrder(b, a);
    }
  }

  /** A region below the top order with room for two blocks of its maximal order loses both: take
      them, give them back, and they merge into a block no list accepts. */
  lemma SmallRegionLoses(r: Region, m: nat)
    requires r.Shape() && m == r.mbase / 4096 && m > 0 && !Restorable(r.maxOrder, r.totalPages)
    ensures var accepted := Taken(r, Greedy(m, 0, r.totalPages, r.maxOrder));
            var lo, hi := Block(0, r.maxOrder), Block(Pow2(r.maxOrder), r.maxOrder);
            && lo in accepted && hi in accepted && lo.Aligned() && hi.Aligned()
            && var taken := Pop(Pop(Heap(accepted, {}), lo), hi);
               var given := FreeAsWritten(r.maxOrder, r.rpages, FreeAsWritten(r.maxOrder, r.rpages, taken, lo), hi);
               given == Heap(accepted - {lo, hi}, {})
  {
    var accepted := Taken(r, Greedy(m, 0, r.totalPages, r.maxOrder));
    var lo, hi := Block(0, r.maxOrder), Block(Pow2(r.maxOrder), r.maxOrder);
    GreedyStart(m, r.totalPages, r.maxOrder);
    TopPair(r);
    Family(lo);
    var taken := Pop(Pop(Heap(accepted, {}), lo), hi);
    assert Chk(r.maxOrder, r.rpages, lo) && Chk(r.maxOrder, r.rpages, hi);
    assert !Chk(r.maxOrder, r.rpages, lo.Parent()) && !Chk(r.maxOrder, r.rpages, lo.Parent().Buddy()) by {
      Family(lo.Parent());
    }
    var once := FreeAsWritten(r.maxOrder, r.rpages, taken, lo);
    assert once == Push(taken, lo);
    assert lo == hi.Buddy();
    var merged := MergeOnce(once, hi);
    assert FreeAsWritten(r.maxOrder, r.rpages, once, hi)
        == FreeAsWritten(r.maxOrder, r.rpages, merged, hi.Parent());
    assert merged.out == {hi.Parent()};
  }
}
