/**
 What the three mappers of kernel/mm/vmalloc.c are asked for, which entry each of their writes goes to,
 and when that is the entry of the address it is meant for.
 */
module PageJobs {
  import opened Powers
  import opened Bits
  import opened PageTables
  import opened PageWalk
  import opened PageSpace

  /** The part of page_ctx_t the mappers use, in units of 4 KiB, 2 MiB or 1 GiB for level 1, 2 or 3:
      the address divided by the unit, the number of units, the physical address and the flags. */
  datatype Job = Job(level: nat, start: nat, count: nat, phys: nat, flags: nat)
  {
    predicate Ok() { 1 <= level <= 3 && IsPresent(flags) && FlagsOnly(flags) }

    function Vaddr(): nat { Scaled(level, start) }

    /** aligned_size */
    function Bytes(): nat { Scaled(level, count) }

    /** The entry of the n-th unit. */
    function Entry(n: nat): nat { EntryFor(level, phys + Scaled(level, n), flags) }

    /** The n-th unit as it lies in the address space. */
    function Target(n: nat): nat { (start + n) % UnitsIn(level) }
  }

  /** n units in bytes: PT_L1_ENTRYSZ to PT_L3_ENTRYSZ */
  function Scaled(level: nat, n: nat): nat
  {
    if level == 3 then GIB * n else if level == 2 then MIB2 * n else 4096 * n
  }

  /** The number of units in the 48 bits that are translated. */
  function UnitsIn(level: nat): nat
  {
    if level == 3 then 0x4_0000 else if level == 2 then 0x800_0000 else PAGES
  }

  /** The value the mappers store. */
  function EntryFor(level: nat, pbase: nat, flags: nat): nat
  {
    if level == 1 then Or(pbase, flags) else Or(Or(pbase, flags), PAGESIZE_BIT)
  }

  // ---- where the writes go ------------------------------------------------------------------------

  /** An index is read from the running address only when its table is chosen, every b units. */
  function Digit(start: nat, n: nat, b: nat): nat
    requires b > 0
  {
    (start + n - n % b) / b % 512
  }

  /** The unit with these four indices. */
  function Composed(d4: nat, d3: nat, d2: nat, d1: nat): nat { 512 * (512 * (512 * d4 + d3) + d2) + d1 }

  lemma ComposedEqual(a4: nat, a3: nat, a2: nat, a1: nat, b4: nat, b3: nat, b2: nat, b1: nat)
    requires a1 < 512 && a2 < 512 && a3 < 512 && b1 < 512 && b2 < 512 && b3 < 512
    ensures Composed(a4, a3, a2, a1) == Composed(b4, b3, b2, b1) <==> a4 == b4 && a3 == b3 && a2 == b2 && a1 == b1
  {
    LastDigit(512 * (512 * a4 + a3) + a2, a1, 512 * (512 * b4 + b3) + b2, b1);
    LastDigit(512 * a4 + a3, a2, 512 * b4 + b3, b2);
    LastDigit(a4, a3, b4, b3);
  }

  lemma LastDigit(x: nat, a: nat, y: nat, b: nat)
    requires a < 512 && b < 512
    ensures 512 * x + a == 512 * y + b <==> x == y && a == b
  {
  }

  /** The entry the n-th write goes to, as a unit of the address space. pt_map_large never looks at the
      top index again: its middle loop runs over all entries of the first turn. */
  function Slot(job: Job, n: nat): nat
    requires job.Ok()
  {
    var v := job.start;
    if job.level == 1 then
      Composed(Digit(v, n, 0x800_0000), Digit(v, n, 0x4_0000), Digit(v, n, 512), (v + n) % 512)
    else if job.level == 2 then
      Composed(0, v / 0x4_0000 % 512, Digit(v, n, 512), (v + n) % 512)
    else
      Composed(0, 0, Digit(v, n, 512), (v + n) % 512)
  }

  function Slots(job: Job): seq<nat>
    requires job.Ok()
  {
    seq(job.count, n requires 0 <= n < job.count => Slot(job, n))
  }

  /** The mapping of a page after the first n writes to these units. */
  function After(mem: Memory, root: nat, job: Job, slots: seq<nat>, n: nat, vpn: nat): Mapping
    requires job.Ok() && n <= |slots|
  {
    if n == 0 then MappingOf(mem, root, vpn)
    else if Block(vpn, job.level - 1) == slots[n - 1] then Mapped(job.Entry(n - 1), job.level)
    else After(mem, root, job, slots, n - 1, vpn)
  }

  /** What the pages are mapped to when the mapper is done. */
  function Outcome(mem: Memory, root: nat, job: Job, vpn: nat): Mapping
    requires job.Ok()
  {
    After(mem, root, job, Slots(job), job.count, vpn)
  }

  // ---- when they go where they should ---------------------------------------------------------------

  /** The units start in a group of b, or stay in one. */
  predicate Tidy(job: Job, b: nat)
    requires b > 0
  {
    job.start % b == 0 || job.start % b + job.count <= b
  }

  /** What the loops of the mapper of this level need. */
  predicate Straight(job: Job)
  {
    && Tidy(job, 512)
    && (job.level == 2 ==> job.start % 0x4_0000 + job.count <= 0x4_0000)
    && (job.level == 1 ==> Tidy(job, 0x4_0000) && Tidy(job, 0x800_0000))
  }

  /** Quotients of a sum, with and without the remainder of the second number. */
  lemma QuotientSum(v: nat, n: nat, b: nat)
    requires b > 0
    ensures (v + n - n % b) / b == v / b + n / b
    ensures (v + n) / b == v / b + n / b + (if v % b + n % b < b then 0 else 1)
  {
    var q, r, s, t := v / b, v % b, n / b, n % b;
    assert v + n - t == (q + s) * b + r by { MulDistr(q, s, b); }
    DivModUnique(v + n - t, b, q + s, r);
    if r + t < b {
      DivModUnique(v + n, b, q + s, r + t);
    } else {
      MulDistr(q + s, 1, b);
      DivModUnique(v + n, b, q + s + 1, r + t - b);
    }
  }

  lemma DigitRight(v: nat, n: nat, b: nat)
    requires b > 0
    ensures Digit(v, n, b) == (v + n) / b % 512 <==> v % b + n % b < b
  {
    QuotientSum(v, n, b);
    DivNonNegative(v, b);
    DivNonNegative(n, b);
    NextDigit(v / b + n / b);
  }

  lemma NextDigit(x: nat)
    ensures (x + 1) % 512 != x % 512
  {
  }

  /** The four lowest digits of a number in base 512. */
  lemma Digits(u: nat)
    ensures u % 0x4_0000 == 512 * (u / 512 % 512) + u % 512
    ensures u % 0x800_0000 == 0x4_0000 * (u / 0x4_0000 % 512) + u % 0x4_0000
    ensures u % PAGES == 0x800_0000 * (u / 0x800_0000 % 512) + u % 0x800_0000
  {
    var a, b, c := u / 512, u / 0x4_0000, u / 0x800_0000;
    DivModUnique(u, 0x4_0000, a / 512, 512 * (a % 512) + u % 512);
    DivModUnique(u, 0x800_0000, b / 512, 0x4_0000 * (b % 512) + u % 0x4_0000);
    DivModUnique(u, PAGES, c / 512, 0x800_0000 * (c % 512) + u % 0x800_0000);
  }

  /** The n-th unit of an address space, by its indices. */
  lemma TargetDigits(job: Job, n: nat)
    requires job.Ok()
    ensures var u := job.start + n;
            job.Target(n) ==
              if job.level == 1 then Composed(u / 0x800_0000 % 512, u / 0x4_0000 % 512, u / 512 % 512, u % 512)
              else if job.level == 2 then Composed(0, u / 0x4_0000 % 512, u / 512 % 512, u % 512)
              else Composed(0, 0, u / 512 % 512, u % 512)
  {
    Digits(job.start + n);
  }

  /** The n-th unit counted from v is in the group of b units its count says. */
  predicate InStep(v: nat, n: nat, b: nat)
    requires b > 0
  {
    v % b + n % b < b
  }

  predicate SameTop(v: nat, n: nat) { v / 0x4_0000 % 512 == (v + n) / 0x4_0000 % 512 }

  /** For which units the running address has not left its table, for all indices above the lowest. */
  predicate Meets(job: Job, n: nat)
    requires job.Ok()
  {
    && InStep(job.start, n, 512)
    && (job.level == 2 ==> SameTop(job.start, n))
    && (job.level == 1 ==> InStep(job.start, n, 0x4_0000) && InStep(job.start, n, 0x800_0000))
  }

  lemma SlotIsTarget(job: Job, n: nat)
    requires job.Ok()
    ensures Slot(job, n) == job.Target(n) <==> Meets(job, n)
  {
    var v := job.start;
    var u := v + n;
    TargetDigits(job, n);
    DigitRight(v, n, 512);
    DigitRight(v, n, 0x4_0000);
    DigitRight(v, n, 0x800_0000);
    var d2, d1 := Digit(v, n, 512), u % 512;
    if job.level == 1 {
      ComposedEqual(Digit(v, n, 0x800_0000), Digit(v, n, 0x4_0000), d2, d1,
                    u / 0x800_0000 % 512, u / 0x4_0000 % 512, u / 512 % 512, u % 512);
    } else if job.level == 2 {
      ComposedEqual(0, v / 0x4_0000 % 512, d2, d1, 0, u / 0x4_0000 % 512, u / 512 % 512, u % 512);
    } else {
      ComposedEqual(0, 0, d2, d1, 0, 0, u / 512 % 512, u % 512);
    }
  }

  /** The indices that lead to a unit. */
  function UnitIndex(unit: nat, k: nat): nat
  {
    (if k == 0 then unit else if k == 1 then unit / 512 else if k == 2 then unit / 0x4_0000
     else unit / 0x800_0000) % 512
  }

  lemma ComposedIndices(d4: nat, d3: nat, d2: nat, d1: nat)
    requires d4 < 512 && d3 < 512 && d2 < 512 && d1 < 512
    ensures var u := Composed(d4, d3, d2, d1);
            UnitIndex(u, 0) == d1 && UnitIndex(u, 1) == d2 && UnitIndex(u, 2) == d3 && UnitIndex(u, 3) == d4
  {
    var u := Composed(d4, d3, d2, d1);
    assert u / 512 == 512 * (512 * d4 + d3) + d2;
    assert u / 0x4_0000 == 512 * d4 + d3;
    assert u / 0x800_0000 == d4;
  }

  /** Wherever a write goes, straight or not: its lowest index is that of its own unit, and every other one is
      that of the unit with which the table was chosen, every 512, 0x4_0000 or 0x800_0000 units, but for
      pt_map_large, which keeps its first level-3 index. */
  lemma SlotIndices(job: Job, n: nat, n1: nat, n2: nat, n3: nat)
    requires job.Ok() && n1 == n - n % 512 && n2 == n - n % 0x4_0000 && n3 == n - n % 0x800_0000
    ensures UnitIndex(Slot(job, n), 0) == UnitIndex(job.Target(n), 0)
    ensures UnitIndex(Slot(job, n), 1) == UnitIndex(job.Target(n1), 1)
    ensures job.level == 2 ==> UnitIndex(Slot(job, n), 2) == UnitIndex(job.Target(0), 2)
    ensures job.level == 1 ==>
              && UnitIndex(Slot(job, n), 2) == UnitIndex(job.Target(n2), 2)
              && UnitIndex(Slot(job, n), 3) == UnitIndex(job.Target(n3), 3)
  {
    TargetIndices(job, n);
    TargetIndices(job, n1);
    TargetIndices(job, n2);
    TargetIndices(job, n3);
    TargetIndices(job, 0);
    SlotParts(job, n);
  }

  lemma TargetIndices(job: Job, n: nat)
    requires job.Ok()
    ensures var u := job.start + n;
            && UnitIndex(job.Target(n), 0) == u % 512 && UnitIndex(job.Target(n), 1) == u / 512 % 512
            && (job.level <= 2 ==> UnitIndex(job.Target(n), 2) == u / 0x4_0000 % 512)
            && (job.level == 1 ==> UnitIndex(job.Target(n), 3) == u / 0x800_0000 % 512)
  {
    var u := job.start + n;
    TargetDigits(job, n);
    ComposedIndices(u / 0x800_0000 % 512, u / 0x4_0000 % 512, u / 512 % 512, u % 512);
    ComposedIndices(0, u / 0x4_0000 % 512, u / 512 % 512, u % 512);
    ComposedIndices(0, 0, u / 512 % 512, u % 512);
  }

  lemma SlotParts(job: Job, n: nat)
    requires job.Ok()
    ensures var (v, s) := (job.start, Slot(job, n));
            && UnitIndex(s, 0) == (v + n) % 512 && UnitIndex(s, 1) == Digit(v, n, 512)
            && (job.level == 2 ==> UnitIndex(s, 2) == v / 0x4_0000 % 512)
            && (job.level == 1 ==>
                  UnitIndex(s, 2) == Digit(v, n, 0x4_0000) && UnitIndex(s, 3) == Digit(v, n, 0x800_0000))
  {
    var v := job.start;
    ComposedIndices(Digit(v, n, 0x800_0000), Digit(v, n, 0x4_0000), Digit(v, n, 512), (v + n) % 512);
    ComposedIndices(0, v / 0x4_0000 % 512, Digit(v, n, 512), (v + n) % 512);
    ComposedIndices(0, 0, Digit(v, n, 512), (v + n) % 512);
  }

  lemma TidyInStep(job: Job, b: nat, n: nat)
    requires b > 0 && Tidy(job, b) && n < job.count
    ensures InStep(job.start, n, b)
  {
    if job.start % b != 0 { DivModUnique(n, b, 0, n); }
  }

  lemma UntidyOutOfStep(job: Job, b: nat) returns (n: nat)
    requires b > 0 && !Tidy(job, b)
    ensures n < job.count && !InStep(job.start, n, b)
  {
    n := b - job.start % b;
    DivModUnique(n, b, 0, n);
  }

  lemma TopIff(v: nat, n: nat)
    requires n <= 0x4_0000
    ensures SameTop(v, n) <==> v % 0x4_0000 + n < 0x4_0000
  {
    var q, r := v / 0x4_0000, v % 0x4_0000;
    if r + n < 0x4_0000 {
      DivModUnique(v + n, 0x4_0000, q, r + n);
    } else if r + n < 0x8_0000 {
      DivModUnique(v + n, 0x4_0000, q + 1, r + n - 0x4_0000);
    }
  }

  lemma StraightMeets(job: Job, n: nat)
    requires job.Ok() && Straight(job) && n < job.count
    ensures Meets(job, n)
  {
    TidyInStep(job, 512, n);
    if job.level == 2 {
      TopIff(job.start, n);
    } else if job.level == 1 {
      TidyInStep(job, 0x4_0000, n);
      TidyInStep(job, 0x800_0000, n);
    }
  }

  lemma CrookedMisses(job: Job) returns (n: nat)
    requires job.Ok() && !Straight(job)
    ensures n < job.count && !Meets(job, n)
  {
    if !Tidy(job, 512) {
      n := UntidyOutOfStep(job, 512);
    } else if job.level == 2 {
      n := 0x4_0000 - job.start % 0x4_0000;
      TopIff(job.start, n);
    } else if !Tidy(job, 0x4_0000) {
      n := UntidyOutOfStep(job, 0x4_0000);
    } else {
      n := UntidyOutOfStep(job, 0x800_0000);
    }
  }

  /** All writes go where they should exactly when the range is straight. */
  lemma StraightIff(job: Job)
    requires job.Ok()
    ensures Straight(job) <==> forall n :: 0 <= n < job.count ==> Slot(job, n) == job.Target(n)
  {
    forall n | 0 <= n < job.count ensures Slot(job, n) == job.Target(n) <==> Meets(job, n) {
      SlotIsTarget(job, n);
    }
    if Straight(job) {
      forall n | 0 <= n < job.count ensures Meets(job, n) { StraightMeets(job, n); }
    } else {
      var n := CrookedMisses(job);
      SlotIsTarget(job, n);
    }
  }

  // ---- what the writes come to --------------------------------------------------------------------

  /** Either a write came here or the page is mapped as before. */
  lemma {:induction false} AfterIs(mem: Memory, root: nat, job: Job, slots: seq<nat>, n: nat, vpn: nat)
    requires job.Ok() && n <= |slots|
    ensures var m := After(mem, root, job, slots, n, vpn);
            && ((m.Mapped? && m.level == job.level) || m == MappingOf(mem, root, vpn))
            && ((forall i :: 0 <= i < n ==> slots[i] != Block(vpn, job.level - 1)) ==>
                  m == MappingOf(mem, root, vpn))
  {
    if n > 0 { AfterIs(mem, root, job, slots, n - 1, vpn); }
  }

  /** The last write to an entry is the one that counts. */
  lemma {:induction false} AfterWrite(mem: Memory, root: nat, job: Job, slots: seq<nat>, n: nat, i: nat, vpn: nat)
    requires job.Ok() && i < n <= |slots| && slots[i] == Block(vpn, job.level - 1)
    requires forall j :: i < j < n ==> slots[j] != Block(vpn, job.level - 1)
    ensures After(mem, root, job, slots, n, vpn) == Mapped(job.Entry(i), job.level)
  {
    if i + 1 < n { AfterWrite(mem, root, job, slots, n - 1, i, vpn); }
  }

  /** A page whose write went astray keeps its mapping or gets another unit's entry. */
  lemma {:induction false} AfterMissed(mem: Memory, root: nat, job: Job, slots: seq<nat>, n: nat, i: nat, vpn: nat)
    requires job.Ok() && i < |slots| && n <= |slots| && slots[i] != Block(vpn, job.level - 1)
    ensures var m := After(mem, root, job, slots, n, vpn);
            m == MappingOf(mem, root, vpn) || exists j :: 0 <= j < n && j != i && m == Mapped(job.Entry(j), job.level)
  {
    if n > 0 { AfterMissed(mem, root, job, slots, n - 1, i, vpn); }
  }

  /** The page is in the n-th unit of the job. */
  predicate InUnit(job: Job, n: nat, vpn: nat)
    requires job.Ok()
  {
    Block(vpn, job.level - 1) == job.Target(n)
  }

  lemma TargetsDiffer(job: Job, i: nat, j: nat)
    requires job.Ok() && i < j < job.count <= UnitsIn(job.level)
    ensures job.Target(i) != job.Target(j)
  {
    RemaindersDiffer(job.start + i, job.start + j, UnitsIn(job.level));
  }

  lemma RemaindersDiffer(a: nat, b: nat, m: nat)
    requires a < b < a + m
    ensures a % m != b % m
  {
    var q, r := a / m, b / m;
    if a % m == b % m {
      assert a == q * m + a % m && b == r * m + a % m;
      if q < r { MulGap(q, r, m); } else { MulMono(r, q, m); }
    }
  }

  lemma SlotElsewhere(job: Job, i: nat, j: nat)
    requires job.Ok() && Straight(job) && i < j < job.count <= UnitsIn(job.level)
    ensures Slot(job, j) != job.Target(i)
  {
    TargetsDiffer(job, i, j);
    StraightMeets(job, j);
    SlotIsTarget(job, j);
  }

  lemma SlotAt(job: Job, i: nat)
    requires job.Ok() && Straight(job) && i < job.count
    ensures Slot(job, i) == job.Target(i)
  {
    StraightMeets(job, i);
    SlotIsTarget(job, i);
  }

  /** On a straight range every page gets the entry of its unit. */
  lemma StraightMaps(mem: Memory, root: nat, job: Job, i: nat, vpn: nat)
    requires job.Ok() && Straight(job) && i < job.count <= UnitsIn(job.level) && InUnit(job, i, vpn)
    ensures Outcome(mem, root, job, vpn) == Mapped(job.Entry(i), job.level)
  {
    var slots := Slots(job);
    SlotAt(job, i);
    forall j | i < j < job.count ensures slots[j] != Block(vpn, job.level - 1) {
      SlotElsewhere(job, i, j);
    }
    AfterWrite(mem, root, job, slots, job.count, i, vpn);
  }

  /** And all other pages keep theirs. */
  lemma StraightKeeps(mem: Memory, root: nat, job: Job, vpn: nat)
    requires job.Ok() && Straight(job) && forall i :: 0 <= i < job.count ==> !InUnit(job, i, vpn)
    ensures Outcome(mem, root, job, vpn) == MappingOf(mem, root, vpn)
  {
    var slots := Slots(job);
    forall i | 0 <= i < job.count ensures slots[i] != Block(vpn, job.level - 1) {
      SlotAt(job, i);
      assert !InUnit(job, i, vpn);
    }
    AfterIs(mem, root, job, slots, job.count, vpn);
  }

  /** On any other range some unit that was unmapped does not get its entry. */
  lemma CrookedFails(mem: Memory, root: nat, job: Job) returns (n: nat)
    requires job.Ok() && !Straight(job)
    requires forall i, j :: 0 <= i < j < job.count ==> job.Entry(i) != job.Entry(j)
    requires forall i, vpn :: 0 <= i < job.count && 0 <= vpn < PAGES && InUnit(job, i, vpn) ==>
               MappingOf(mem, root, vpn) == Unmapped
    ensures n < job.count
    ensures forall vpn :: 0 <= vpn < PAGES && InUnit(job, n, vpn) ==>
              Outcome(mem, root, job, vpn) != Mapped(job.Entry(n), job.level)
  {
    n := CrookedMisses(job);
    SlotIsTarget(job, n);
    forall vpn | 0 <= vpn < PAGES && InUnit(job, n, vpn)
      ensures Outcome(mem, root, job, vpn) != Mapped(job.Entry(n), job.level)
    {
      AfterMissed(mem, root, job, Slots(job), job.count, n, vpn);
    }
  }
}
