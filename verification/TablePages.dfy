/**
 Pages for page tables out of the page allocator: what kbud_alloc gives out, one page after another, is
 what the tables of kernel/pagetbl.c and kernel/mm/vmalloc.c are built from.
 */
module TablePages {
  import opened Powers
  import opened Phys
  import opened Sequences
  import opened BuddyBlocks
  import opened BuddyRegion
  import opened BuddyMaster
  import opened PageMaps
  import opened PageSpace
  import opened KernelCode
  import opened BootTables

  /** Whole pages that an entry of a table can name. */
  ghost predicate Nameable(pages: seq<nat>)
  {
    forall i :: 0 <= i < |pages| ==> pages[i] % 4096 == 0 && pages[i] < Pow2(52)
  }

  /** The i-th page is held as the i-th block from the regions t. */
  ghost predicate Drawn(hs: seq<Heap>, t: seq<Region>, pages: seq<nat>, held: seq<(nat, Block)>)
  {
    && |pages| == |held|
    && forall i {:trigger DrawnAt(hs, t, pages[i], held[i])} :: 0 <= i < |pages| ==> DrawnAt(hs, t, pages[i], held[i])
  }

  ghost predicate DrawnAt(hs: seq<Heap>, t: seq<Region>, page: nat, x: (nat, Block))
  {
    x.0 < |hs| && x.0 < |t| && x.1 in hs[x.0].out && PHMMAP + page == t[x.0].Virt(x.1.pfn)
  }

  lemma StillDrawn(hs: seq<Heap>, hs': seq<Heap>, t: seq<Region>, pages: seq<nat>, held: seq<(nat, Block)>)
    requires Drawn(hs, t, pages, held) && |hs'| == |hs| && forall i :: 0 <= i < |hs| ==> hs[i].out <= hs'[i].out
    ensures Drawn(hs', t, pages, held)
  {
    forall i | 0 <= i < |pages| ensures DrawnAt(hs', t, pages[i], held[i]) {
      assert DrawnAt(hs, t, pages[i], held[i]);
    }
  }

  lemma OneMoreDrawn(hs: seq<Heap>, t: seq<Region>, pages: seq<nat>, held: seq<(nat, Block)>,
                     page: nat, x: (nat, Block))
    requires Drawn(hs, t, pages, held) && DrawnAt(hs, t, page, x)
    requires Once(pages) && page !in pages && Nameable(pages) && page % 4096 == 0 && page < Pow2(52)
    ensures Drawn(hs, t, pages + [page], held + [x]) && Once(pages + [page]) && Nameable(pages + [page])
  {
    var pages', held' := pages + [page], held + [x];
    forall i | 0 <= i < |pages'| ensures DrawnAt(hs, t, pages'[i], held'[i]) {
      if i < |pages| { assert DrawnAt(hs, t, pages[i], held[i]); }
    }
  }

  /** The physical address of a block that was handed out. */
  lemma PageOf(m: Master, k: nat, b: Block, addr: nat, page: nat)
    requires m.Valid() && m.Held(k, b, addr) && page == VirtToPhys(addr)
    ensures page < Pow2(52) && page % 4096 == 0 && addr == PHMMAP + page
  {
    m.HeldAligned(k, b, addr);
    PowerTable();
    PageMultiple(addr, Pow2(b.ord));
    PhysicalOf(addr, page);
  }

  lemma PhysicalOf(addr: nat, page: nat)
    requires PHMMAP <= addr < PHMMAP + PHYS_MAX && addr % 4096 == 0 && page == VirtToPhys(addr)
    ensures page < PHYS_MAX && page % 4096 == 0 && addr == PHMMAP + page
  {
  }

  lemma PageMultiple(a: nat, d: nat)
    requires d > 0 && a % (4096 * d) == 0
    ensures a % 4096 == 0
  {
    var q := a / (4096 * d);
    assert a == (q * d) * 4096 by { MulAssoc(q, d, 4096); MulAssoc(4096, d, q); }
    DivModUnique(a, 4096, q * d, 0);
  }

  /** A page that was not held before is none of those that were. */
  lemma NewPage(m: Master, hs: seq<Heap>, pages: seq<nat>, held: seq<(nat, Block)>, page: nat, x: (nat, Block))
    requires m.Valid() && hs == m.Heaps() && Drawn(hs, m.table, pages, held) && DrawnAt(hs, m.table, page, x)
    requires x !in held
    ensures page !in pages
  {
    forall i | 0 <= i < |pages| ensures pages[i] != page {
      assert DrawnAt(hs, m.table, pages[i], held[i]) && held[i] in held;
      m.HeldApart(held[i].0, held[i].1, PHMMAP + pages[i], x.0, x.1, PHMMAP + page);
    }
  }

  ghost function Elements(held: seq<(nat, Block)>): set<(nat, Block)> { set x | x in held }

  lemma NotDrawn(hs: seq<Heap>, t: seq<Region>, pages: seq<nat>, held: seq<(nat, Block)>, x: (nat, Block))
    requires Drawn(hs, t, pages, held) && x !in Outstanding(hs)
    ensures x !in held
  {
    forall i | 0 <= i < |held| ensures held[i] != x {
      assert DrawnAt(hs, t, pages[i], held[i]);
    }
  }

  /** One more page from kbud_alloc(0). */
  method DrawOne(m: Master, pages: seq<nat>, ghost held: seq<(nat, Block)>)
    returns (more: bool, page: nat, ghost x: (nat, Block))
    requires m.Valid() && Nameable(pages) && Once(pages) && Drawn(m.Heaps(), m.table, pages, held)
    modifies m.table
    ensures m.Valid() && m.table == old(m.table)
    ensures !more <==> forall i :: 0 <= i < m.count ==> Exhausted(old(m.Heaps())[i], 0)
    ensures !more ==> m.Heaps() == old(m.Heaps())
    ensures more ==> Outstanding(m.Heaps()) == Outstanding(old(m.Heaps())) + {x}
    ensures more ==>
              && Nameable(pages + [page]) && Once(pages + [page])
              && Drawn(m.Heaps(), m.table, pages + [page], held + [x])
  {
    ghost var hs := m.Heaps();
    ghost var k, b;
    var addr;
    addr, k, b := m.Alloc(0);
    x := (k, Block(b.pfn, 0));
    more, page := addr != KPAGE_ERR, VirtToPhys(addr);
    if more {
      ghost var hs' := m.Heaps();
      OutstandingAllocated(hs, hs', k, b, 0, x);
      NotDrawn(hs, m.table, pages, held, x);
      StillDrawn(hs, hs', m.table, pages, held);
      PageOf(m, x.0, x.1, addr, page);
      NewPage(m, hs', pages, held, page, x);
      OneMoreDrawn(hs', m.table, pages, held, page, x);
    }
  }

  /** kbud_alloc(0), n times or until it fails. */
  method DrawPages(m: Master, n: nat) returns (pages: seq<nat>, ghost held: seq<(nat, Block)>)
    requires m.Valid()
    modifies m.table
    ensures m.Valid() && m.table == old(m.table) && |pages| <= n
    ensures Nameable(pages) && Once(pages) && Drawn(m.Heaps(), m.table, pages, held)
    ensures |pages| < n ==> forall i :: 0 <= i < m.count ==> Exhausted(m.Heaps()[i], 0)
    ensures Outstanding(m.Heaps()) == Outstanding(old(m.Heaps())) + Elements(held)
  {
    pages, held := [], [];
    ghost var start := Outstanding(m.Heaps());
    while |pages| < n
      invariant |pages| <= n && m.Valid() && m.table == old(m.table)
      invariant Nameable(pages) && Once(pages) && Drawn(m.Heaps(), m.table, pages, held)
      invariant Outstanding(m.Heaps()) == start + Elements(held)
      decreases n - |pages|
    {
      var more, page;
      ghost var x;
      more, page, x := DrawOne(m, pages, held);
      if !more { return; }
      assert Elements(held + [x]) == Elements(held) + {x};
      pages, held := pages + [page], held + [x];
    }
  }

  /** The boot tables out of the page allocator: n pages are drawn for them, and if they are enough, the
      kernel and all of memory are mapped linearly. */
  method RebuildFrom(m: Master, n: nat, offs: nat, kernelSize: nat, ramSize: nat, image: Image)
    returns (space: AddressSpace?, end: End, ghost pages: seq<nat>, ghost held: seq<(nat, Block)>)
    requires m.Valid() && offs == KERNEL_OFFS && kernelSize <= GIB && ramSize <= PHYS_MAX
    modifies m.table
    ensures m.Valid() && m.table == old(m.table)
    ensures Drawn(m.Heaps(), m.table, pages, held)
    ensures Outstanding(m.Heaps()) == Outstanding(old(m.Heaps())) + Elements(held)
    ensures space == null <==> pages == []
    ensures space != null ==>
              && space.Valid() && !end.HitHugePage?
              && (end.OutOfPages? ==> space.supply == [] && BootStarved(space.mem, space.root, kernelSize, ramSize))
              && (end.Done? ==> Rebuilt(space.mem, space.root, kernelSize, ramSize, image))
  {
    var drawn;
    drawn, held := DrawPages(m, n);
    pages := drawn;
    space, end := RebuildTables(drawn, offs, kernelSize, ramSize, image);
  }
}
