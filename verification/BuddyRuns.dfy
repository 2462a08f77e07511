/**
 Whole runs of the allocator over all its regions: what a sequence of kbud_alloc and kbud_free calls
 keeps, restores and conserves, whichever regions the calls fall into.
 */
module BuddyRuns {
  import opened Phys
  import opened BuddyBlocks
  import opened BuddyMaster

  /** A call that succeeded: region k split b for order req, or took b back. */
  datatype Call = Took(k: nat, b: Block, req: nat) | Gave(k: nat, b: Block)

  /** The call changes the regions as Master.Alloc and Master.Free say. */
  ghost predicate Does(hs: seq<Heap>, c: Call, hs': seq<Heap>)
  {
    match c
    case Took(k, b, req) => AllocatedIn(hs, hs', k, b, req)
    case Gave(k, b) => ReleasedIn(hs, hs', k, b) && b in hs[k].out
  }

  /** The states between the calls of a run: one more than there are calls. */
  ghost predicate Run(states: seq<seq<Heap>>, calls: seq<Call>)
  {
    && |states| == |calls| + 1
    && forall n {:trigger calls[n]} :: 0 <= n < |calls| ==> Does(states[n], calls[n], states[n + 1])
  }

  /** Every region is a tiling of what it was handed. */
  ghost predicate AllInv(accepted: seq<set<Block>>, hs: seq<Heap>)
  {
    && |hs| == |accepted|
    && forall i {:trigger hs[i]} :: 0 <= i < |hs| ==> Inv(accepted[i], hs[i])
  }

  /** Regions as their hand-over leaves them. */
  ghost predicate HandedOut(accepted: seq<set<Block>>, hs: seq<Heap>)
  {
    && |hs| == |accepted|
    && forall i {:trigger Untouched(accepted[i], hs[i])} :: 0 <= i < |hs| ==> Untouched(accepted[i], hs[i])
  }

  ghost predicate Untouched(accepted: set<Block>, h: Heap) { Sound(accepted) && h == Heap(accepted, {}) }

  lemma HandedOutInv(accepted: seq<set<Block>>, hs: seq<Heap>)
    requires HandedOut(accepted, hs)
    ensures AllInv(accepted, hs)
  {
    forall i | 0 <= i < |hs| ensures Inv(accepted[i], hs[i]) {
      assert Untouched(accepted[i], hs[i]);
      HandedOver(accepted[i]);
    }
  }

  /** The pages of all regions, free or held. */
  ghost function AllPages(hs: seq<Heap>): nat
  {
    if hs == [] then 0 else Held(hs[0]) + AllPages(hs[1..])
  }

  lemma {:induction false} AllPagesUpdated(hs: seq<Heap>, k: nat, h: Heap)
    requires k < |hs| && Held(h) == Held(hs[k])
    ensures AllPages(hs[k := h]) == AllPages(hs)
    decreases |hs|
  {
    if k == 0 {
      assert hs[0 := h][1..] == hs[1..];
    } else {
      assert hs[k := h][1..] == hs[1..][k - 1 := h];
      AllPagesUpdated(hs[1..], k - 1, h);
    }
  }

  /** One call keeps the tilings and the page sum of all regions, and changes the outstanding blocks by
      its own block. */
  lemma CallKeeps(accepted: seq<set<Block>>, hs: seq<Heap>, c: Call, hs': seq<Heap>)
    requires AllInv(accepted, hs) && Does(hs, c, hs')
    ensures AllInv(accepted, hs') && AllPages(hs') == AllPages(hs)
    ensures c.Took? ==> (c.k, Block(c.b.pfn, c.req)) !in Outstanding(hs)
                        && Outstanding(hs') == Outstanding(hs) + {(c.k, Block(c.b.pfn, c.req))}
    ensures c.Gave? ==> Outstanding(hs') == Outstanding(hs) - {(c.k, c.b)}
  {
    var k := c.k;
    match c {
      case Took(k, b, req) =>
        OneStep(accepted[k], hs[k], Event.Alloc(b, req), hs'[k]);
        OutstandingAllocated(hs, hs', k, b, req, (k, Block(b.pfn, req)));
      case Gave(k, b) =>
        OneStep(accepted[k], hs[k], Event.Free(b), hs'[k]);
        OutstandingReleased(hs, hs', k, b, (k, b));
    }
    AllPagesUpdated(hs, k, hs'[k]);
    assert forall i :: 0 <= i < |hs| && i != k ==> hs'[i] == hs[i];
  }

  lemma OneStep(accepted: set<Block>, h: Heap, e: Event, h': Heap)
    requires Inv(accepted, h) && Enabled(h, e) && h' == Step(h, e)
    ensures Inv(accepted, h') && Held(h') == Held(h)
  {
    StepKeepsInv(accepted, h, e);
    StepConserves(accepted, h, e);
  }

  /** At every moment of a run all regions are tilings of what they were handed, and free pages plus held
      pages are the pages handed over. */
  lemma {:induction false} RunKeeps(accepted: seq<set<Block>>, states: seq<seq<Heap>>, calls: seq<Call>, n: nat)
    requires Run(states, calls) && AllInv(accepted, states[0]) && n <= |calls|
    ensures AllInv(accepted, states[n]) && AllPages(states[n]) == AllPages(states[0])
  {
    if n > 0 {
      RunKeeps(accepted, states, calls, n - 1);
      assert Does(states[n - 1], calls[n - 1], states[n]);
      CallKeeps(accepted, states[n - 1], calls[n - 1], states[n]);
    }
  }

  /** However the blocks went out and came back, and from whichever regions: when none is outstanding any
      more, every region has exactly the free blocks of its hand-over. */
  lemma RunRestoresAll(accepted: seq<set<Block>>, states: seq<seq<Heap>>, calls: seq<Call>)
    requires Run(states, calls) && HandedOut(accepted, states[0]) && Outstanding(states[|calls|]) == {}
    ensures states[|calls|] == states[0]
  {
    HandedOutInv(accepted, states[0]);
    RunKeeps(accepted, states, calls, |calls|);
    AllRestored(accepted, states[0], states[|calls|]);
  }

  lemma AllRestored(accepted: seq<set<Block>>, hs: seq<Heap>, hs': seq<Heap>)
    requires HandedOut(accepted, hs) && AllInv(accepted, hs') && Outstanding(hs') == {}
    ensures hs' == hs
  {
    forall i | 0 <= i < |hs'| ensures hs'[i] == hs[i] {
      assert Untouched(accepted[i], hs[i]);
      NoneOut(hs', i);
      CanonicalRestoration(accepted[i], hs'[i]);
    }
  }

  lemma NoneOut(hs: seq<Heap>, i: nat)
    requires i < |hs| && Outstanding(hs) == {}
    ensures hs[i].out == {}
  {
    assert forall b :: b in hs[i].out ==> (i, b) in Outstanding(hs);
  }

  /** The blocks outstanding at the end are those taken and not given back. */
  ghost function Ledger(calls: seq<Call>): set<(nat, Block)>
  {
    if calls == [] then {}
    else
      match calls[|calls| - 1]
      case Took(k, b, req) => Ledger(calls[..|calls| - 1]) + {(k, Block(b.pfn, req))}
      case Gave(k, b) => Ledger(calls[..|calls| - 1]) - {(k, b)}
  }

  lemma {:induction false} LedgerIs(accepted: seq<set<Block>>, states: seq<seq<Heap>>, calls: seq<Call>, n: nat)
    requires Run(states, calls) && AllInv(accepted, states[0]) && Outstanding(states[0]) == {} && n <= |calls|
    ensures Outstanding(states[n]) == Ledger(calls[..n])
  {
    if n > 0 {
      LedgerIs(accepted, states, calls, n - 1);
      RunKeeps(accepted, states, calls, n - 1);
      assert Does(states[n - 1], calls[n - 1], states[n]);
      CallKeeps(accepted, states[n - 1], calls[n - 1], states[n]);
      LedgerStep(calls, n, calls[n - 1]);
    }
  }

  lemma LedgerStep(calls: seq<Call>, n: nat, c: Call)
    requires 0 < n <= |calls| && c == calls[n - 1]
    ensures c.Took? ==> Ledger(calls[..n]) == Ledger(calls[..n - 1]) + {(c.k, Block(c.b.pfn, c.req))}
    ensures c.Gave? ==> Ledger(calls[..n]) == Ledger(calls[..n - 1]) - {(c.k, c.b)}
  {
    assert calls[..n][..n - 1] == calls[..n - 1];
  }

  // ---- the allocator's own runs -----------------------------------------------------------------------

  /** What has happened so far. */
  datatype History = History(states: seq<seq<Heap>>, calls: seq<Call>)
  {
    ghost predicate Of(m: Master)
      reads m, m.table
    {
      Run(states, calls) && states[|calls|] == m.Heaps()
    }

    function Then(c: Call, hs: seq<Heap>): History { History(states + [hs], calls + [c]) }
  }

  lemma RunGrows(past: History, c: Call, hs: seq<Heap>)
    requires Run(past.states, past.calls) && Does(past.states[|past.calls|], c, hs)
    ensures Run(past.Then(c, hs).states, past.Then(c, hs).calls)
  {
    var next := past.Then(c, hs);
    forall n | 0 <= n < |next.calls| ensures Does(next.states[n], next.calls[n], next.states[n + 1]) {
      if n < |past.calls| { assert next.calls[n] == past.calls[n]; }
    }
  }

  /** kbud_alloc makes the next step of a run, or none. */
  method AllocInRun(m: Master, order: nat, ghost past: History) returns (addr: nat, ghost now: History)
    requires m.Valid() && past.Of(m)
    modifies m.table
    ensures m.Valid() && m.table == old(m.table) && now.Of(m)
    ensures addr == KPAGE_ERR ==> now == past
    ensures addr != KPAGE_ERR ==>
              exists k: nat, b :: now == past.Then(Took(k, b, order), m.Heaps()) && m.Held(k, Block(b.pfn, order), addr)
  {
    now := past;
    ghost var k, b;
    addr, k, b := m.Alloc(order);
    if addr != KPAGE_ERR {
      now := past.Then(Took(k, b, order), m.Heaps());
      RunGrows(past, Took(k, b, order), m.Heaps());
    }
  }

  /** So does kbud_free of a held block. */
  method FreeInRun(m: Master, vaddr: nat, order: nat, ghost k: nat, ghost b: Block, ghost past: History)
    returns (ghost now: History)
    requires m.Valid() && past.Of(m) && m.Held(k, b, vaddr) && order == b.ord
    modifies m.table
    ensures m.Valid() && m.table == old(m.table) && now.Of(m) && now == past.Then(Gave(k, b), m.Heaps())
  {
    m.HeldIsSpanned(k, b);
    m.Free(vaddr, order, k, b);
    now := past.Then(Gave(k, b), m.Heaps());
    RunGrows(past, Gave(k, b), m.Heaps());
  }

  /** The regions of a valid allocator are tilings of what they were handed. */
  lemma ValidIsInv(m: Master, accepted: seq<set<Block>>)
    requires m.Valid() && |accepted| == |m.table|
    requires forall i :: 0 <= i < |m.table| ==> accepted[i] == m.table[i].accepted
    ensures AllInv(accepted, m.Heaps())
  {
    forall i | 0 <= i < |m.table| ensures Inv(accepted[i], m.Heaps()[i]) {
      assert m.table[i] in m.table;
    }
  }
}
