/**
 The counter of empty slabs in kernel/mm/slab.c over runs of calls. A slab that becomes empty is counted
 twice and one that is added is not counted, so that the counter is off by the difference of the two.
 */
module SlabTally {
  import opened Phys
  import opened BuddyMaster
  import opened Sequences
  import opened LinkedLists
  import opened Slab

  /** So many slabs at most: 8 TiB of them, so that the counter keeps its sign. */
  const SLABS: nat := 0x8000_0000

  /** Slabs that are empty, all slabs, how often a slab became empty, and how many were added to the first. */
  datatype Tally = Tally(empty: nat, slabs: nat, emptied: nat, added: nat)
  {
    /** What the counter would be if it could not wrap. */
    function Counter(): int { empty + emptied - added }
  }

  /** A cache fresh from kslab_cache_create. */
  const FIRST: Tally := Tally(1, 1, 0, 0)

  /** The first object of an empty slab is handed out, of a new one if there is none. */
  function Drawn(t: Tally): Tally
  {
    if t.empty > 0 then t.(empty := t.empty - 1) else t.(slabs := t.slabs + 1, added := t.added + 1)
  }

  /** A slab that becomes empty now makes one leave. */
  predicate Leaves(t: Tally) { t.Counter() < -2 || t.Counter() > MAX_EMPTY - 2 }

  /** The last object of a slab comes back. */
  function Emptied(t: Tally): Tally
    requires t.slabs > 0
  {
    if Leaves(t) then t.(slabs := t.slabs - 1, emptied := t.emptied + 1)
    else t.(empty := t.empty + 1, emptied := t.emptied + 1)
  }

  /** No more than three slabs are empty, and none while the counter is below -2. */
  predicate Kept(t: Tally)
  {
    && (if t.Counter() < -2 then t.empty == 0 else 2 * t.empty <= t.Counter() + 2)
    && t.empty <= 3 && t.slabs <= SLABS && -1 - t.slabs <= t.Counter() <= SLABS + 4 - t.slabs
  }

  /** What changes the count: a call that draws on an empty or a new slab, and one that empties a slab. */
  datatype Event = Draw | Empty

  predicate Legal(t: Tally, e: Event)
  {
    match e
    case Draw => t.empty > 0 || t.slabs < SLABS
    case Empty => t.slabs > t.empty
  }

  function After(t: Tally, e: Event): Tally
    requires Legal(t, e)
  {
    match e
    case Draw => Drawn(t)
    case Empty => Emptied(t)
  }

  // ---- the cache ------------------------------------------------------------------------------------

  /** The tally of a cache, from its list of empty slabs, its slabs and its 32-bit counter. */
  ghost predicate Counts(c: Cache, t: Tally)
    reads c
  {
    && |c.lists| == 3 && t.empty == c.Empties() && t.slabs == |c.next| && Kept(t)
    && c.emptySlabs == t.Counter() % U32
  }

  /** kslab_cache_create starts the count. */
  method CreateCounted(m: Master, objSize: nat, alignment: nat) returns (ret: int, cache: Cache?)
    requires m.Valid() && 8 <= objSize && 0 < alignment
    modifies m.table
    ensures ret == 0 ==> cache != null && cache.Ready(m) && Counts(cache, FIRST)
  {
    ret, cache := Create(m, objSize, alignment);
    if ret == 0 {
      assert |cache.next.Keys| == 1;
    }
  }

  /** kslab_alloc of any cache draws on an empty slab, or adds one, unless there is a partial one. */
  method AllocCounted(c: Cache, m: Master, ghost t: Tally)
    returns (obj: nat, ghost s: nat, ghost i: nat, ghost t': Tally)
    requires c.Ready(m) && Counts(c, t) && t.slabs < SLABS
    modifies c, m.table
    ensures c.Ready(m) && Counts(c, t')
    ensures obj != KPAGE_ERR ==> c.Taken(old(c.Live()), c.Live(), obj, s, i)
    ensures t' == if obj == KPAGE_ERR || old(c.heads)[PARTIAL] != 0 then t else After(t, Draw)
  {
    ghost var w, draws := c.emptySlabs, false;
    obj, s, i, draws := AllocSizes(c, m);
    t' := if draws then Drawn(t) else t;
    if draws { DrawnKept(t, w); }
  }

  /** What kslab_alloc does to the numbers of slabs. */
  method AllocSizes(c: Cache, m: Master) returns (obj: nat, ghost s: nat, ghost i: nat, ghost draws: bool)
    requires c.Ready(m)
    modifies c, m.table
    ensures c.Ready(m) && draws == (obj != KPAGE_ERR && old(c.heads)[PARTIAL] == 0)
    ensures obj != KPAGE_ERR ==> c.Taken(old(c.Live()), c.Live(), obj, s, i)
    ensures c.Empties() == old(c.Empties()) - if draws && old(c.Empties()) > 0 then 1 else 0
    ensures |c.next| == |old(c.next)| + if draws && old(c.Empties()) == 0 then 1 else 0
    ensures c.emptySlabs == if draws then Down(old(c.emptySlabs)) else old(c.emptySlabs)
  {
    ghost var next0 := c.next;
    EmptiesIff(c);
    obj, s, i := c.Alloc(m);
    draws := obj != KPAGE_ERR && old(c.heads)[PARTIAL] == 0;
    KeysAdded(next0, c.next, s);
  }

  /** kslab_free; the slab's last object makes it empty, and some slab leaves or not. */
  method FreeCounted(c: Cache, m: Master, obj: nat, ghost s: nat, ghost i: nat, ghost t: Tally)
    returns (ghost t': Tally)
    requires c.Ready(m) && (s, i) in c.Live() && obj == c.g.Obj(s, i) && Counts(c, t)
    modifies c, m.table
    ensures c.Ready(m) && Counts(c, t') && c.Live() == old(c.Live()) - {(s, i)}
    ensures s in old(c.freeCount) && t.empty < t.slabs
    ensures t' == if old(c.freeCount)[s] + 1 == c.g.perSlab then After(t, Empty) else t
  {
    OneNotEmpty(c, s, i);
    ghost var w := c.emptySlabs;
    ghost var empties := FreeSizes(c, m, obj, s, i);
    if empties { EmptiedKept(t, w); }
    t' := if empties then Emptied(t) else t;
  }

  /** What kslab_free does to the numbers of slabs. */
  method FreeSizes(c: Cache, m: Master, obj: nat, ghost s: nat, ghost i: nat) returns (ghost empties: bool)
    requires c.Ready(m) && (s, i) in c.Live() && obj == c.g.Obj(s, i)
    modifies c, m.table
    ensures c.Ready(m) && c.Live() == old(c.Live()) - {(s, i)}
    ensures s in old(c.freeCount) && empties == (old(c.freeCount)[s] + 1 == c.g.perSlab) && |old(c.next)| > 0
    ensures var leaves := empties && Up(Up(old(c.emptySlabs))) > MAX_EMPTY;
            && c.Empties() == old(c.Empties()) + (if empties && !leaves then 1 else 0)
            && |c.next| == |old(c.next)| - (if leaves then 1 else 0)
            && c.emptySlabs == if leaves then Down(Up(Up(old(c.emptySlabs))))
                               else if empties then Up(Up(old(c.emptySlabs))) else old(c.emptySlabs)
  {
    ghost var next0, gone := c.next, c.FirstEmpty(s);
    EmptiesIff(c);
    assert s in c.next && s in c.freeCount;
    c.Free(m, obj, s, i);
    empties := old(c.freeCount)[s] + 1 == c.g.perSlab;
    KeysRemoved(next0, c.next, gone);
  }

  /** A slab with an object in use is not on the list of empty slabs. */
  lemma OneNotEmpty(c: Cache, s: nat, i: nat)
    requires c.Ok() && (s, i) in c.Live()
    ensures c.Empties() < |c.next|
  {
    if c.freeCount[s] == c.g.perSlab {
      LiveDropped(c.g, c.next.Keys, c.freelist, c.freeCount, c.free, c.word, s);
    }
    OnceFits(c.lists[EMPTY], c.next.Keys - {s});
  }

  lemma {:induction false} OnceFits(l: seq<nat>, keys: set<nat>)
    requires Once(l) && forall x :: x in l ==> x in keys
    ensures |l| <= |keys|
  {
    if l != [] { OnceFits(l[1..], keys - {l[0]}); }
  }

  lemma KeysAdded(f: map<nat, nat>, g: map<nat, nat>, s: nat)
    ensures g.Keys == f.Keys ==> |g| == |f|
    ensures s !in f && g.Keys == f.Keys + {s} ==> |g| == |f| + 1
  {
    assert |f| == |f.Keys| && |g| == |g.Keys|;
  }

  lemma KeysRemoved(f: map<nat, nat>, g: map<nat, nat>, s: nat)
    requires s in f
    ensures g.Keys == f.Keys - {s} ==> |g| == |f| - 1
    ensures g.Keys == f.Keys ==> |g| == |f|
    ensures |f| > 0
  {
    assert |f| == |f.Keys| && |g| == |g.Keys|;
  }

  lemma DrawnKept(t: Tally, w: nat)
    requires Kept(t) && t.slabs < SLABS && w == t.Counter() % U32
    ensures Kept(Drawn(t)) && Down(w) == Drawn(t).Counter() % U32
  {
  }

  /** The counter of the code tells as its unbounded value would whether a slab leaves. */
  lemma EmptiedKept(t: Tally, w: nat)
    requires Kept(t) && t.slabs > 0 && w == t.Counter() % U32
    ensures Up(Up(w)) > MAX_EMPTY <==> Leaves(t)
    ensures Kept(Emptied(t))
    ensures Emptied(t).Counter() % U32 == if Leaves(t) then Down(Up(Up(w))) else Up(Up(w))
  {
    CounterUp(t.Counter(), w);
  }

  /** A 32-bit counter that goes up twice, and down again. */
  lemma CounterUp(n: int, w: nat)
    requires -0x8000_0001 <= n <= 0x8000_0004 && w == n % U32
    ensures Up(Up(w)) == (n + 2) % U32 && Down(Up(Up(w))) == (n + 1) % U32
    ensures Up(Up(w)) > 4 <==> n < -2 || n > 2
  {
  }

  lemma EmptiesIff(c: Cache)
    requires c.Ok()
    ensures c.Empties() > 0 <==> c.heads[EMPTY] != 0
    ensures c.heads[EMPTY] != 0 ==> c.heads[EMPTY] in c.next
  {
    if c.heads[EMPTY] != 0 { c.FirstOf(EMPTY); }
    assert c.lists[EMPTY] != [] ==> Hop(c.next, c.lists[EMPTY], 0);
  }

  // ---- runs -----------------------------------------------------------------------------------------

  predicate Run(t: Tally, es: seq<Event>, t': Tally)
    decreases es
  {
    if es == [] then t' == t else Legal(t, es[0]) && Run(After(t, es[0]), es[1..], t')
  }

  /** No cache ever keeps more than three empty slabs: whenever a slab leaves, it and the empty ones are no
      more than the limit. */
  lemma {:induction false} RunKept(t: Tally, es: seq<Event>, t': Tally)
    requires Kept(t) && Run(t, es, t')
    ensures Kept(t') && t'.empty + 1 <= MAX_EMPTY
    decreases es
  {
    if es != [] { RunKept(After(t, es[0]), es[1..], t'); }
  }

  lemma {:induction false} RunOn(t: Tally, es: seq<Event>, t': Tally, more: seq<Event>, t'': Tally)
    requires Run(t, es, t') && Run(t', more, t'')
    ensures Run(t, es + more, t'')
    decreases es
  {
    if es == [] {
      assert es + more == more;
    } else {
      RunOn(After(t, es[0]), es[1..], t', more, t'');
      assert (es + more)[1..] == es[1..] + more;
    }
  }

  lemma TwoEvents(t: Tally, e: Event, u: Tally, f: Event, v: Tally)
    requires Legal(t, e) && u == After(t, e) && Legal(u, f) && v == After(u, f)
    ensures Run(t, [e, f], v)
  {
    assert [e, f][1..] == [f];
    assert Run(v, [], v) && Run(u, [f], v);
  }

  /** Three are kept, when the objects of three full slabs come back. */
  lemma ThreeKept()
    ensures Run(FIRST, [Draw, Draw] + ([Draw, Empty] + [Empty, Empty]), Tally(3, 3, 3, 2))
  {
    var two, one := Tally(0, 2, 0, 1), Tally(1, 3, 1, 2);
    TwoEvents(FIRST, Draw, Tally(0, 1, 0, 0), Draw, two);
    TwoEvents(two, Draw, Tally(0, 3, 0, 2), Empty, one);
    TwoEvents(one, Empty, Tally(2, 3, 2, 2), Empty, Tally(3, 3, 3, 2));
    RunOn(two, [Draw, Empty], one, [Empty, Empty], Tally(3, 3, 3, 2));
    RunOn(FIRST, [Draw, Draw], two, [Draw, Empty] + [Empty, Empty], Tally(3, 3, 3, 2));
  }

  /** An object is handed out and comes back, so many times. */
  function Rounds(r: nat): seq<Event> { if r == 0 then [] else Rounds(r - 1) + [Draw, Empty] }

  /** With nothing else handed out: the only slab stays three times, and leaves from then on. */
  function Churned(r: nat): Tally { if r < 4 then Tally(1, 1, r, 0) else Tally(0, 0, r, r - 4) }

  lemma OneRound(r: nat, t: Tally)
    requires t == Churned(r)
    ensures Run(t, [Draw, Empty], Churned(r + 1))
  {
    TwoEvents(t, Draw, Drawn(t), Empty, Churned(r + 1));
  }

  /** From the fourth round on every release gives the slab back to the page allocator, and every allocation
      asks for a new one. */
  lemma {:induction false} Churn(r: nat)
    ensures Run(FIRST, Rounds(r), Churned(r))
  {
    if r > 0 {
      Churn(r - 1);
      OneRound(r - 1, Churned(r - 1));
      RunOn(FIRST, Rounds(r - 1), Churned(r - 1), [Draw, Empty], Churned(r));
    }
  }
}
