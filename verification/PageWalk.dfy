/**
 What a tree of page tables maps each page to, and how that changes when one entry is written or one
 table is added. A ghost map gives every table its place, so that no table is reached on two ways.
 */
module PageWalk {
  import opened PageTables

  /** Page numbers: bits 12 to 47 of an address. */
  const PAGES: nat := 0x10_0000_0000

  /** The part of a page number that is left above the k lowest indices. */
  function Block(vpn: nat, k: nat): nat { if k == 0 then vpn else Block(vpn, k - 1) / 512 }

  /** The index of a page in its table of level k. */
  function Index(vpn: nat, k: nat): nat
    requires k > 0
  {
    Block(vpn, k - 1) % 512
  }

  /** The entry that maps a page, in a table of level 1 (4 KiB), 2 (2 MiB) or 3 (1 GiB). */
  datatype Mapping = Unmapped | Mapped(entry: nat, level: nat)

  /** An entry of a level-k table that leads to a table of level k - 1. */
  predicate Points(e: nat, k: nat) { IsPresent(e) && (k == 4 || !IsHuge(e)) }

  /** An entry of a level-k table that maps memory. */
  predicate Maps(e: nat, k: nat) { IsPresent(e) && (k == 1 || (k < 4 && IsHuge(e))) }

  /** The walk down from the table f of level k. */
  function Down(mem: Memory, f: nat, vpn: nat, k: nat): Mapping
    requires 1 <= k <= 4
    decreases k
  {
    if f !in mem || |mem[f]| != ENTRIES then Unmapped
    else
      var e := mem[f][Index(vpn, k)];
      if Maps(e, k) then Mapped(e, k)
      else if k > 1 && Points(e, k) then Down(mem, PtRebase(e), vpn, k - 1)
      else Unmapped
  }

  /** What a page is mapped to. */
  function MappingOf(mem: Memory, root: nat, vpn: nat): Mapping { Down(mem, root, vpn, 4) }

  datatype Option<T> = None | Some(value: T)

  /** The table of level k for the pages whose upper indices are p. */
  function TableFor(mem: Memory, root: nat, k: nat, p: nat): Option<nat>
    requires 1 <= k <= 4
    decreases 4 - k
  {
    if k == 4 then Some(root)
    else
      match TableFor(mem, root, k + 1, p / 512)
      case None => None
      case Some(g) =>
        if g in mem && |mem[g]| == ENTRIES && Points(mem[g][p % 512], k + 1)
        then Some(PtRebase(mem[g][p % 512])) else None
  }

  /** p are the upper indices of some page. */
  predicate Prefix(k: nat, p: nat)
    requires k <= 4
    decreases 4 - k
  {
    if k == 4 then p == 0 else Prefix(k + 1, p / 512)
  }

  lemma BlockUnrolled(n: nat)
    ensures Block(n, 0) == n && Block(n, 1) == n / 512
    ensures Block(n, 2) == n / 512 / 512 && Block(n, 3) == n / 512 / 512 / 512
  {
    assert Block(n, 1) == Block(n, 0) / 512;
    assert Block(n, 2) == Block(n, 1) / 512;
    assert Block(n, 3) == Block(n, 2) / 512;
  }

  lemma BlockPrefix(vpn: nat, k: nat)
    requires vpn < PAGES && k <= 4
    ensures Prefix(k, Block(vpn, k))
    ensures Block(vpn, 4) == 0
    decreases 4 - k
  {
    assert Block(vpn, 4) == 0 by { BlockUnrolled(vpn); }
    if k < 4 { BlockPrefix(vpn, k + 1); }
  }

  lemma PrefixDown(k: nat, p: nat, i: nat)
    requires 1 <= k <= 4 && Prefix(k, p) && i < 512
    ensures Prefix(k - 1, 512 * p + i)
  {
    assert (512 * p + i) / 512 == p;
  }

  /** Some page lies in the unit. */
  lemma PageOfUnit(level: nat, slot: nat) returns (vpn: nat)
    requires 1 <= level <= 3 && Prefix(level - 1, slot)
    ensures vpn < PAGES && Block(vpn, level - 1) == slot
  {
    assert level <= 3 ==> Prefix(3, 0) ==> true;
    if level == 1 {
      vpn := slot;
      assert Prefix(1, slot / 512) && Prefix(2, slot / 512 / 512) && Prefix(3, slot / 512 / 512 / 512);
    } else if level == 2 {
      vpn := 512 * slot;
      assert Prefix(2, slot / 512) && Prefix(3, slot / 512 / 512);
      BlockUnrolled(vpn);
    } else {
      vpn := 512 * (512 * slot);
      assert Prefix(3, slot / 512);
      BlockUnrolled(vpn);
    }
  }

  // ---- the invariant --------------------------------------------------------------------------------

  /** Level and upper indices of a table. */
  datatype Place = Place(level: nat, prefix: nat)

  ghost predicate ChildOk(mem: Memory, at: map<nat, Place>, f: nat, i: nat)
    requires f in mem && f in at && i < |mem[f]|
  {
    var (e, k) := (mem[f][i], at[f].level);
    k > 1 && Points(e, k) ==>
      && PtRebase(e) in mem && PtRebase(e) in at
      && at[PtRebase(e)] == Place(k - 1, 512 * at[f].prefix + i)
  }

  ghost predicate WellFormed(mem: Memory, root: nat, at: map<nat, Place>)
  {
    && root in mem && at.Keys == mem.Keys && at[root] == Place(4, 0)
    && (forall f :: f in mem ==> |mem[f]| == ENTRIES && 1 <= at[f].level <= 4)
    && (forall f, i :: f in mem && 0 <= i < ENTRIES ==> ChildOk(mem, at, f, i))
  }

  lemma {:induction false} TablePlace(mem: Memory, root: nat, at: map<nat, Place>, k: nat, p: nat)
    requires WellFormed(mem, root, at) && 1 <= k <= 4 && Prefix(k, p)
    requires TableFor(mem, root, k, p).Some?
    ensures var f := TableFor(mem, root, k, p).value; f in mem && at[f] == Place(k, p)
    decreases 4 - k
  {
    if k < 4 {
      TablePlace(mem, root, at, k + 1, p / 512);
      var g := TableFor(mem, root, k + 1, p / 512).value;
      assert ChildOk(mem, at, g, p % 512);
    }
  }

  /** The walk goes through the table of its page. */
  lemma {:induction false} WalkThrough(mem: Memory, root: nat, vpn: nat, k: nat)
    requires 1 <= k <= 4 && TableFor(mem, root, k, Block(vpn, k)).Some?
    ensures MappingOf(mem, root, vpn) == Down(mem, TableFor(mem, root, k, Block(vpn, k)).value, vpn, k)
    decreases 4 - k
  {
    if k < 4 {
      WalkThrough(mem, root, vpn, k + 1);
    }
  }

  // ---- what a write changes -------------------------------------------------------------------------

  /** Only entry i of table f differs; tables may be added. */
  ghost predicate OnlyEntry(mem: Memory, mem': Memory, f: nat, i: nat)
  {
    && f in mem && f in mem' && |mem'[f]| == |mem[f]|
    && (forall g :: g in mem && g != f ==> g in mem' && mem'[g] == mem[g])
    && (forall j :: 0 <= j < |mem[f]| && j != i ==> mem'[f][j] == mem[f][j])
  }

  /** The memory after e is stored in entry i of table f. */
  function Written(mem: Memory, f: nat, i: nat, e: nat): Memory
    requires f in mem && i < |mem[f]|
  {
    var t: seq<nat> := mem[f][i := e];
    mem[f := t]
  }

  function EmptyTable(): seq<nat> { seq(ENTRIES, _ => 0) }

  /** The memory after page is cleared and e is stored in entry i of table f. */
  function WithTable(mem: Memory, f: nat, i: nat, page: nat, e: nat): Memory
    requires f in mem && i < |mem[f]| && page != f
  {
    Written(mem[page := EmptyTable()], f, i, e)
  }

  /** Walks that do not come through the entry stay as they are. */
  lemma {:induction false} DownSame(mem: Memory, mem': Memory, root: nat, at: map<nat, Place>,
                                    f: nat, i: nat, g: nat, vpn: nat, j: nat)
    requires WellFormed(mem, root, at) && OnlyEntry(mem, mem', f, i) && i < ENTRIES
    requires 1 <= j <= 4 && g in mem && at[g] == Place(j, Block(vpn, j))
    requires j >= at[f].level ==> Block(vpn, at[f].level - 1) != 512 * at[f].prefix + i
    ensures Down(mem', g, vpn, j) == Down(mem, g, vpn, j)
    decreases j
  {
    var x := Index(vpn, j);
    assert ChildOk(mem, at, g, x);
    assert mem'[g][x] == mem[g][x];
    var e := mem[g][x];
    if j > 1 && Points(e, j) { DownSame(mem, mem', root, at, f, i, PtRebase(e), vpn, j - 1); }
  }

  lemma {:induction false} TableSame(mem: Memory, mem': Memory, root: nat, at: map<nat, Place>,
                                     f: nat, i: nat, k: nat, p: nat)
    requires WellFormed(mem, root, at) && OnlyEntry(mem, mem', f, i)
    requires at[f].level <= k <= 4 && 1 <= k && Prefix(k, p) && TableFor(mem, root, k, p).Some?
    ensures TableFor(mem', root, k, p) == TableFor(mem, root, k, p)
    decreases 4 - k
  {
    if k < 4 {
      TableSame(mem, mem', root, at, f, i, k + 1, p / 512);
      TablePlace(mem, root, at, k + 1, p / 512);
    }
  }

  /** A mapping entry written into the table f of level k for the prefix p. */
  lemma EntryWritten(mem: Memory, root: nat, at: map<nat, Place>, f: nat, k: nat, p: nat, i: nat, e: nat,
                     mem': Memory)
    requires WellFormed(mem, root, at) && 1 <= k < 4 && Prefix(k, p) && TableFor(mem, root, k, p) == Some(f)
    requires i < ENTRIES && Maps(e, k)
    requires f in mem && |mem[f]| == ENTRIES && mem' == Written(mem, f, i, e)
    ensures WellFormed(mem', root, at)
    ensures forall vpn :: 0 <= vpn < PAGES ==>
              MappingOf(mem', root, vpn)
              == if Block(vpn, k - 1) == 512 * p + i then Mapped(e, k) else MappingOf(mem, root, vpn)
  {
    TablePlace(mem, root, at, k, p);
    forall g, j | g in mem' && 0 <= j < ENTRIES ensures ChildOk(mem', at, g, j) {
      assert ChildOk(mem, at, g, j);
    }
    forall vpn | 0 <= vpn < PAGES
      ensures MappingOf(mem', root, vpn)
           == if Block(vpn, k - 1) == 512 * p + i then Mapped(e, k) else MappingOf(mem, root, vpn)
    {
      BlockPrefix(vpn, k);
      if Block(vpn, k - 1) == 512 * p + i {
        assert Block(vpn, k) == p;
        TableSame(mem, mem', root, at, f, i, k, p);
        WalkThrough(mem', root, vpn, k);
      } else {
        BlockPrefix(vpn, 4);
        DownSame(mem, mem', root, at, f, i, root, vpn, 4);
      }
    }
  }

  /** An empty table that is hung into a level-k table f, which serves the pages with prefix p: it becomes
      the table behind entry i, where e is stored, and serves the pages with prefix q. */
  datatype Hook = Hook(f: nat, i: nat, k: nat, p: nat, q: nat, child: nat, e: nat)
  {
    /** The place of the new table. */
    function Spot(): Place
      requires k > 0
    {
      Place(k - 1, q)
    }

    predicate Ok()
    {
      2 <= k <= 4 && Prefix(k, p) && i < ENTRIES && q == 512 * p + i && Points(e, k) && PtRebase(e) == child
    }
  }

  /** The entry was not present, and the table is new. */
  ghost predicate Hung(mem: Memory, root: nat, at: map<nat, Place>, h: Hook, mem': Memory, at': map<nat, Place>)
  {
    && WellFormed(mem, root, at) && h.Ok() && TableFor(mem, root, h.k, h.p) == Some(h.f)
    && h.f in mem && |mem[h.f]| == ENTRIES && !IsPresent(mem[h.f][h.i]) && h.child !in mem
    && mem' == WithTable(mem, h.f, h.i, h.child, h.e)
    && at' == at[h.child := h.Spot()]
  }

  lemma HungWellFormed(mem: Memory, root: nat, at: map<nat, Place>, h: Hook, mem': Memory, at': map<nat, Place>)
    requires Hung(mem, root, at, h, mem', at')
    ensures WellFormed(mem', root, at') && TableFor(mem', root, h.k - 1, h.q) == Some(h.child)
    ensures at[h.f] == Place(h.k, h.p) && TableFor(mem', root, h.k, h.p) == Some(h.f)
  {
    TablePlace(mem, root, at, h.k, h.p);
    assert OnlyEntry(mem, mem', h.f, h.i);
    TableSame(mem, mem', root, at, h.f, h.i, h.k, h.p);
    assert h.q / 512 == h.p && h.q % 512 == h.i;
    assert mem'.Keys == at'.Keys;
    forall g, j | g in mem' && 0 <= j < ENTRIES ensures ChildOk(mem', at', g, j) {
      HungChild(mem, root, at, h, mem', at', g, j);
    }
  }

  lemma HungChild(mem: Memory, root: nat, at: map<nat, Place>, h: Hook, mem': Memory, at': map<nat, Place>,
                  g: nat, j: nat)
    requires Hung(mem, root, at, h, mem', at') && at[h.f] == Place(h.k, h.p)
    requires g in mem' && j < ENTRIES
    ensures g in at' && j < |mem'[g]| && ChildOk(mem', at', g, j)
  {
    if g == h.child {
      assert mem'[g][j] == 0 && !IsPresent(0);
    } else {
      assert ChildOk(mem, at, g, j);
      assert g != h.f || j != h.i ==> mem'[g][j] == mem[g][j];
    }
  }

  /** An empty table changes no mapping. */
  lemma HungSame(mem: Memory, root: nat, at: map<nat, Place>, h: Hook, mem': Memory, at': map<nat, Place>, vpn: nat)
    requires Hung(mem, root, at, h, mem', at') && vpn < PAGES
    ensures MappingOf(mem', root, vpn) == MappingOf(mem, root, vpn)
  {
    HungWellFormed(mem, root, at, h, mem', at');
    if Block(vpn, h.k - 1) == h.q {
      HungBelow(mem, root, at, h, mem', at', vpn);
    } else {
      BlockPrefix(vpn, 4);
      DownSame(mem, mem', root, at, h.f, h.i, root, vpn, 4);
    }
  }

  /** The pages of the new table were not mapped and are not. */
  lemma HungBelow(mem: Memory, root: nat, at: map<nat, Place>, h: Hook, mem': Memory, at': map<nat, Place>, vpn: nat)
    requires Hung(mem, root, at, h, mem', at') && vpn < PAGES && Block(vpn, h.k - 1) == h.q
    requires TableFor(mem', root, h.k - 1, h.q) == Some(h.child)
    ensures MappingOf(mem, root, vpn) == MappingOf(mem', root, vpn) == Unmapped
  {
    assert Block(vpn, h.k) == h.p && Index(vpn, h.k) == h.i;
    WalkThrough(mem, root, vpn, h.k);
    WalkThrough(mem', root, vpn, h.k - 1);
    EmptyMapsNothing(mem', h.child, vpn, h.k - 1);
  }

  lemma EmptyMapsNothing(mem: Memory, f: nat, vpn: nat, k: nat)
    requires 1 <= k <= 4 && f in mem && mem[f] == EmptyTable()
    ensures Down(mem, f, vpn, k) == Unmapped
  {
    assert mem[f][Index(vpn, k)] == 0;
  }
}
