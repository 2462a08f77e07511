/**
 The records of the map of virtual ranges come from a slab cache (vma_cache in kernel/mm/vma.c): when a
 range can be allocated, and that no two records share memory.
 */
module VmaRecords {
  import opened Powers
  import opened Bits
  import opened Phys
  import opened BuddyMaster
  import opened PageSpace
  import opened PageJobs
  import opened PageMaps
  import opened PageMappers
  import opened RbTrees
  import opened RbHeap
  import opened Vma
  import opened Slab
  import opened Ioremap

  /** sizeof(kernel_vma_t) and its alignment */
  const RECORD_SIZE: nat := 64
  const RECORD_ALIGN: nat := 8

  /** The record cache has 63 records to the page. */
  lemma RecordGeometry(g: Geometry)
    requires WellCut(g, RECORD_SIZE, RECORD_ALIGN)
    ensures g == Geometry(0, 48, 63, 64)
  {
    assert Pow2(0) == 1;
    assert CutUp(0, 63, 48, RECORD_SIZE, RECORD_ALIGN);
    LeftOver(g.order, g.perSlab, g.reserved);
  }

  lemma LeftOver(order: nat, n: nat, r: nat)
    requires CutUp(order, n, r, RECORD_SIZE, RECORD_ALIGN)
    ensures r == 48 && Remaining(order, n, r, RECORD_SIZE) >= 16
  {
  }

  /** Every record is an object that the cache handed out, and no two are the same object. */
  ghost predicate Housed(nodes: set<Node>, home: map<Node, (nat, nat)>, live: set<(nat, nat)>)
  {
    && home.Keys == nodes && (forall n :: n in nodes ==> home[n] in live)
    && forall n, n' :: n in nodes && n' in nodes && n != n' ==> home[n] != home[n']
  }

  lemma HousedMore(nodes: set<Node>, home: map<Node, (nat, nat)>, live: set<(nat, nat)>, n: Node, x: (nat, nat))
    requires Housed(nodes, home, live) && n !in nodes && x !in live
    ensures Housed(nodes + {n}, home[n := x], live + {x})
  {
  }

  /** With or without a new record. */
  lemma HomeWith(nodes: set<Node>, home: map<Node, (nat, nat)>, live: set<(nat, nat)>, vma: Node?, s: nat, i: nat,
                 nodes': set<Node>, live': set<(nat, nat)>)
    returns (home': map<Node, (nat, nat)>)
    requires Housed(nodes, home, live)
    requires vma == null ==> nodes' == nodes && live' == live
    requires vma != null ==> vma !in nodes && (s, i) !in live && nodes' == nodes + {vma} && live' == live + {(s, i)}
    ensures Housed(nodes', home', live')
  {
    home' := home;
    if vma != null {
      home' := home[vma := (s, i)];
      HousedMore(nodes, home, live, vma, (s, i));
    }
  }

  /** Records in their objects do not overlap. */
  lemma RecordsApart(cache: Cache, nodes: set<Node>, home: map<Node, (nat, nat)>, n: Node, n': Node)
    requires cache.Ok() && Housed(nodes, home, cache.Live()) && n in nodes && n' in nodes && n != n'
    ensures var (o, o') := (cache.g.Obj(home[n].0, home[n].1), cache.g.Obj(home[n'].0, home[n'].1));
            o + cache.g.objSize <= o' || o' + cache.g.objSize <= o
  {
    cache.ObjsApart(home[n].0, home[n].1, home[n'].0, home[n'].1);
  }

  /** vma_cache_alloc does not concern the map. */
  method NewRecord(cache: Cache, m: Master, region: Region) returns (record: Node?, ghost s: nat, ghost i: nat)
    requires cache.Ready(m) && region.Valid() && region.Inside()
    modifies cache, m.table
    ensures cache.Ready(m) && m.table == old(m.table) && cache.Others(m) == old(cache.Others(m))
    ensures region.Valid() && region.Inside() && Areas(region.Records()) == old(Areas(region.Records()))
    ensures record == null <==> old(cache.Used()) && Dry(cache.g.order, old(m.Heaps()))
    ensures record == null ==> cache.Live() == old(cache.Live())
    ensures record != null ==>
              && fresh(record) && record !in region.shape.Nodes()
              && (s, i) !in old(cache.Live()) && cache.Live() == old(cache.Live()) + {(s, i)}
  {
    ghost var nodes := region.shape.Nodes();
    record := new Node(0, 0, 0);
    var obj;
    obj, s, i := cache.Alloc(m);
    region.Untouched(nodes);
    if obj == KPAGE_ERR { record := null; }
  }

  /** The record for a range of this size: none is asked for when the search finds no gap. */
  method TakeRecord(cache: Cache, m: Master, region: Region, need: nat)
    returns (record: Node?, ghost s: nat, ghost i: nat)
    requires cache.Ready(m) && region.Valid() && region.Inside()
    modifies cache, m.table
    ensures cache.Ready(m) && m.table == old(m.table) && cache.Others(m) == old(cache.Others(m))
    ensures region.Valid() && region.Inside() && Areas(region.Records()) == old(Areas(region.Records()))
    ensures record == null <==>
              || !HasRoom(old(Areas(region.Records())), region.rStart, region.limit, need)
              || (old(cache.Used()) && Dry(cache.g.order, old(m.Heaps())))
    ensures record == null ==> cache.Live() == old(cache.Live())
    ensures record != null ==>
              && fresh(record) && record !in region.shape.Nodes()
              && (s, i) !in old(cache.Live()) && cache.Live() == old(cache.Live()) + {(s, i)}
  {
    var found, start := region.FindGap(need);
    if found {
      record, s, i := NewRecord(cache, m, region);
    } else {
      record, s, i := null, 0, 0;
    }
  }

  /** The search, the fields and the insertion do not concern the cache. */
  method PlaceRecord(cache: Cache, m: Master, region: Region, size: nat, flags: nat, record: Node?,
                     ghost areas: seq<Area>)
    returns (vma: Node?)
    requires cache.Ready(m) && region.Valid() && region.Inside() && size < U64
    requires record != null ==> record !in region.shape.Nodes()
    requires areas == Areas(region.Records())
    modifies region`shape, region.tree, Only(record)
    modifies (region.shape.Nodes())`left, (region.shape.Nodes())`right
    modifies (region.shape.Nodes())`parent, (region.shape.Nodes())`red
    ensures cache.Ready(m) == old(cache.Ready(m))
    ensures cache.Live() == old(cache.Live()) && cache.Others(m) == old(cache.Others(m))
    ensures vma != null <==>
              record != null && HasRoom(areas, region.rStart, region.limit, PageAlignUp(size))
    ensures vma == null ==> region.shape == old(region.shape) && Areas(region.Records()) == areas
    ensures vma != null ==>
              && vma == record && vma.vmFlags == flags && region.shape.Nodes() == old(region.shape.Nodes()) + {vma}
              && Placed(areas, region.rStart, region.limit, PageAlignUp(size), AreaOf(vma), Areas(region.Records()))
    ensures vma == null || vma.vmStart + PageAlignUp(size) < U64 ==> region.Valid() && region.Inside()
  {
    vma := region.AllocArea(size, flags, record);
  }

  /** vma_alloc_area with its record from the slab cache: it fails exactly when there is no gap, or when all
      slabs are full and the page allocator has no pages for another one. */
  method AllocArea(cache: Cache, m: Master, region: Region, size: nat, flags: nat, ghost home: map<Node, (nat, nat)>)
    returns (vma: Node?, ghost home': map<Node, (nat, nat)>)
    requires cache.Ready(m) && region.Valid() && region.Inside() && size < U64
    requires Housed(region.shape.Nodes(), home, cache.Live())
    modifies cache, m.table, region`shape, region.tree
    modifies (region.shape.Nodes())`left, (region.shape.Nodes())`right
    modifies (region.shape.Nodes())`parent, (region.shape.Nodes())`red
    ensures cache.Ready(m) && m.table == old(m.table) && cache.Others(m) == old(cache.Others(m))
    ensures vma == null <==>
              || !HasRoom(old(Areas(region.Records())), region.rStart, region.limit, PageAlignUp(size))
              || (old(cache.Used()) && Dry(cache.g.order, old(m.Heaps())))
    ensures vma == null ==>
              Areas(region.Records()) == old(Areas(region.Records())) && cache.Live() == old(cache.Live())
    ensures vma != null ==>
              && fresh(vma) && vma.vmFlags == flags
              && Placed(old(Areas(region.Records())), region.rStart, region.limit, PageAlignUp(size), AreaOf(vma),
                        Areas(region.Records()))
    ensures vma == null || vma.vmStart + PageAlignUp(size) < U64 ==> region.Valid() && region.Inside()
    ensures Housed(region.shape.Nodes(), home', cache.Live())
  {
    ghost var nodes, live, areas := region.shape.Nodes(), cache.Live(), Areas(region.Records());
    var record;
    ghost var s, i;
    record, s, i := TakeRecord(cache, m, region, PageAlignUp(size));
    vma := PlaceRecord(cache, m, region, size, flags, record, areas);
    home' := HomeWith(nodes, home, live, vma, s, i, region.shape.Nodes(), cache.Live());
  }

  /** The rest of ioremap does not concern the cache. */
  method RemapBeside(cache: Cache, m: Master, region: Region, space: AddressSpace, phy: nat, len: nat, flags: nat,
                     record: Node?)
    returns (v: nat, end: End, ghost job: Job, ghost a: Area)
    requires cache.Ready(m)
    requires region.Valid() && region.Inside() && Paged(Areas(region.Records()), region.rStart)
    requires 0 < region.rStart && region.limit <= region.rStart + VMMAP_LEN && space.Valid()
    requires record != null ==> record !in region.shape.Nodes()
    modifies region`shape, region.tree, Only(record), space`mem, space`supply, space`at
    modifies (region.shape.Nodes())`left, (region.shape.Nodes())`right
    modifies (region.shape.Nodes())`parent, (region.shape.Nodes())`red
    ensures cache.Ready(m) && cache.Others(m) == old(cache.Others(m))
    ensures v == 0 <==>
              (record == null
               || !HasRoom(old(Areas(region.Records())), region.rStart, region.limit, RangeSize(phy, len)))
    ensures v == 0 ==> space.mem == old(space.mem) && Areas(region.Records()) == old(Areas(region.Records()))
    ensures v != 0 ==>
              && v == a.start + phy % 4096 && JobIs(job, phy, len, flags, a.start)
              && TakenAs(old(Areas(region.Records())), region.rStart, region.limit, RangeSize(phy, len), a,
                         Areas(region.Records()))
              && space.Valid() && Ends(end, space, old(space.mem), job)
    ensures v != 0 && a.start + RangeSize(phy, len) < U64 ==> region.Valid() && region.Inside()
  {
    v, end, job, a := Ioremap.Remap(region, space, phy, len, flags, record);
  }

  /** ioremap with its record from the slab cache: null exactly when there is no gap, or when all slabs are
      full and the page allocator has no pages for another one. */
  method Remap(cache: Cache, m: Master, region: Region, space: AddressSpace, phy: nat, len: nat, flags: nat)
    returns (v: nat, end: End, ghost job: Job, ghost a: Area)
    requires cache.Ready(m)
    requires region.Valid() && region.Inside() && Paged(Areas(region.Records()), region.rStart)
    requires 0 < region.rStart && region.limit <= region.rStart + VMMAP_LEN && space.Valid()
    modifies cache, m.table, region`shape, region.tree, space`mem, space`supply, space`at
    modifies (region.shape.Nodes())`left, (region.shape.Nodes())`right
    modifies (region.shape.Nodes())`parent, (region.shape.Nodes())`red
    ensures cache.Ready(m) && m.table == old(m.table) && cache.Others(m) == old(cache.Others(m))
    ensures v == 0 <==>
              || !HasRoom(old(Areas(region.Records())), region.rStart, region.limit, RangeSize(phy, len))
              || (old(cache.Used()) && Dry(cache.g.order, old(m.Heaps())))
    ensures v == 0 ==> space.mem == old(space.mem) && Areas(region.Records()) == old(Areas(region.Records()))
    ensures v != 0 ==>
              && v == a.start + phy % 4096 && JobIs(job, phy, len, flags, a.start)
              && TakenAs(old(Areas(region.Records())), region.rStart, region.limit, RangeSize(phy, len), a,
                         Areas(region.Records()))
              && space.Valid() && Ends(end, space, old(space.mem), job)
    ensures v != 0 && a.start + RangeSize(phy, len) < U64 ==> region.Valid() && region.Inside()
  {
    var record;
    ghost var s, i;
    record, s, i := TakeRecord(cache, m, region, RangeSize(phy, len));
    v, end, job, a := RemapBeside(cache, m, region, space, phy, len, flags, record);
  }
}
