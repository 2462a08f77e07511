/**
 What the tables permit (section 4.6 of the Intel SDM, volume 3A): a page may be written or used by user
 code only if every entry on the walk to it allows that, and executed only if none forbids it.
 */
module PageRights {
  import opened Bits
  import opened PageTables
  import opened PageWalk

  datatype Rights = Rights(write: bool, user: bool, exec: bool)
  {
    /** What two entries on a walk allow together. */
    function And(that: Rights): Rights { Rights(write && that.write, user && that.user, exec && that.exec) }
  }

  const NOTHING: Rights := Rights(false, false, false)

  /** What one entry allows. */
  function EntryRights(e: nat): Rights { Rights(TestBit(e, 1), TestBit(e, 2), !TestBit(e, 63)) }

  /** What the walk down from the table f of level k allows. */
  function Permitted(mem: Memory, f: nat, vpn: nat, k: nat): Rights
    requires 1 <= k <= 4
    decreases k
  {
    if f !in mem || |mem[f]| != ENTRIES then NOTHING
    else
      var e := mem[f][Index(vpn, k)];
      if Maps(e, k) then EntryRights(e)
      else if k > 1 && Points(e, k) then EntryRights(e).And(Permitted(mem, PtRebase(e), vpn, k - 1))
      else NOTHING
  }

  /** What is allowed on a page. */
  function RightsOf(mem: Memory, root: nat, vpn: nat): Rights { Permitted(mem, root, vpn, 4) }

  /** An entry that leads to a table is present and writable, and has no other flag. */
  ghost predicate PlainLink(mem: Memory, at: map<nat, Place>, f: nat, i: nat)
    requires f in mem && f in at && i < |mem[f]|
  {
    at[f].level > 1 && Points(mem[f][i], at[f].level) ==> FlagsAre(mem[f][i], {0, 1})
  }

  ghost predicate PlainLinks(mem: Memory, at: map<nat, Place>)
  {
    forall f, i :: f in mem && f in at && 0 <= i < |mem[f]| ==> PlainLink(mem, at, f, i)
  }

  /** What the entry of a page allows, but never to user code. */
  function LeafRights(m: Mapping): Rights
  {
    match m
    case Unmapped => NOTHING
    case Mapped(e, _) => Rights(TestBit(e, 1), false, !TestBit(e, 63))
  }

  /** The entries of the pages alone decide. */
  ghost predicate LeavesDecide(mem: Memory, root: nat)
  {
    forall vpn :: 0 <= vpn < PAGES ==> RightsOf(mem, root, vpn) == LeafRights(MappingOf(mem, root, vpn))
  }

  lemma PlainRights(e: nat)
    requires FlagsAre(e, {0, 1})
    ensures EntryRights(e) == Rights(true, false, true)
  {
    assert TestBit(e, 1) && !TestBit(e, 2) && !TestBit(e, 63);
  }

  /** Below a table of level k; only the entry of a page of that level itself lets user code through. */
  lemma {:induction false} LeafDecidesBelow(mem: Memory, root: nat, at: map<nat, Place>, f: nat, vpn: nat, k: nat)
    requires WellFormed(mem, root, at) && PlainLinks(mem, at) && f in mem && at[f].level == k <= 4
    ensures var (r, m) := (Permitted(mem, f, vpn, k), Down(mem, f, vpn, k));
            && r.write == LeafRights(m).write && r.exec == LeafRights(m).exec
            && (r.user ==> m.Mapped? && m.level == k)
    decreases k
  {
    var i := Index(vpn, k);
    var e := mem[f][i];
    assert ChildOk(mem, at, f, i) && PlainLink(mem, at, f, i);
    if k > 1 && Points(e, k) {
      PlainRights(e);
      LeafDecidesBelow(mem, root, at, PtRebase(e), vpn, k - 1);
    }
  }

  /** Where all entries that lead to tables are plain, what the walk permits is what the last entry says,
      and user code is never let through. */
  lemma LeafDecides(mem: Memory, root: nat, at: map<nat, Place>)
    requires WellFormed(mem, root, at) && PlainLinks(mem, at)
    ensures LeavesDecide(mem, root)
  {
    forall vpn | 0 <= vpn < PAGES ensures RightsOf(mem, root, vpn) == LeafRights(MappingOf(mem, root, vpn)) {
      LeafDecidesBelow(mem, root, at, root, vpn, 4);
      TopMapsNothing(mem, root, vpn);
    }
  }

  lemma TopMapsNothing(mem: Memory, root: nat, vpn: nat)
    ensures var m := MappingOf(mem, root, vpn); m.Mapped? ==> 1 <= m.level < 4
  {
    LevelBelow(mem, root, vpn, 4);
  }

  lemma {:induction false} LevelBelow(mem: Memory, f: nat, vpn: nat, k: nat)
    requires 1 <= k <= 4
    ensures var m := Down(mem, f, vpn, k); m.Mapped? ==> 1 <= m.level <= k && m.level < 4
    decreases k
  {
    if f in mem && |mem[f]| == ENTRIES {
      var e := mem[f][Index(vpn, k)];
      if k > 1 && !Maps(e, k) && Points(e, k) { LevelBelow(mem, PtRebase(e), vpn, k - 1); }
    }
  }

  // ---- what keeps the links plain -------------------------------------------------------------------

  /** A page's entry is no link. */
  lemma WrittenStaysPlain(mem: Memory, root: nat, at: map<nat, Place>, f: nat, i: nat, e: nat)
    requires WellFormed(mem, root, at) && PlainLinks(mem, at) && f in mem && i < ENTRIES
    requires Maps(e, at[f].level)
    ensures PlainLinks(Written(mem, f, i, e), at)
  {
    var mem' := Written(mem, f, i, e);
    forall g, j | g in mem' && g in at && 0 <= j < |mem'[g]| ensures PlainLink(mem', at, g, j) {
      assert PlainLink(mem, at, g, j);
    }
  }

  /** A new table is empty, and the entry that leads to it is plain. */
  lemma HungStaysPlain(mem: Memory, root: nat, at: map<nat, Place>, h: Hook, mem': Memory, at': map<nat, Place>)
    requires Hung(mem, root, at, h, mem', at') && PlainLinks(mem, at) && FlagsAre(h.e, {0, 1})
    requires WellFormed(mem', root, at')
    ensures PlainLinks(mem', at')
  {
    forall g, j | g in mem' && g in at' && 0 <= j < |mem'[g]| ensures PlainLink(mem', at', g, j) {
      if g == h.child {
        assert mem'[g][j] == 0 && !IsPresent(0);
      } else {
        assert PlainLink(mem, at, g, j);
      }
    }
  }
}
