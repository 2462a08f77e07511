/**
 Four-level page tables as values (kernel/pagetbl.h, kernel/pagetbl.c; the format of section 4.5 of the
 Intel SDM, volume 3A): what the tables map a page to, and what one write to them changes.
 */
module PageTables {
  import opened Powers
  import opened Bits
  import opened Phys

  const ENTRIES: nat := 512

  const PRESENT: nat := 1
  const WRITABLE: nat := 2
  const USER: nat := 4
  const WRITE_THROUGH: nat := 8
  const PAGECACHE_DISABLE: nat := 16
  const PAGESIZE_BIT: nat := 128
  const NO_EXECUTE: nat := 0x8000_0000_0000_0000

  /** Page tables by physical address, 512 entries each. */
  type Memory = map<nat, seq<nat>>

  /** BITRANGE_MASK */
  function RangeMask(a: nat, b: nat): nat
    requires b <= a
  {
    Shl(1, a - b + 1) - 1
  }

  /** page_phys_rebase */
  function PhysRebase(phys: nat, shift: nat, mask: nat): nat { Shl(And(Shr(phys, shift), mask), shift) }

  /** PT_REBASE */
  function PtRebase(p: nat): nat { PhysRebase(p, 12, RangeMask(51, 12)) }

  predicate IsPresent(e: nat) { And(e, PRESENT) != 0 }

  predicate IsHuge(e: nat) { And(e, PAGESIZE_BIT) != 0 }

  // ---- entries --------------------------------------------------------------------------------------

  /** A number without address bits: bits 12 to 51 are clear. */
  predicate FlagsOnly(f: nat) { f % Pow2(52) < 4096 }

  lemma FlagsOr(f: nat, g: nat)
    requires FlagsOnly(f) && FlagsOnly(g)
    ensures FlagsOnly(Or(f, g))
  {
    var a, b := f % Pow2(52), g % Pow2(52);
    OrMod(f, g, 52);
    OrShr(a, b, 12);
    SmallShr(a, 12);
    SmallShr(b, 12);
    SmallShr(Or(a, b), 12);
    OrZero(0);
    Pow12();
  }

  lemma PresentBit(e: nat)
    ensures IsPresent(e) <==> TestBit(e, 0)
  {
    AndBit(e, 0);
  }

  lemma HugeBit(e: nat)
    ensures IsHuge(e) <==> TestBit(e, 7)
  {
    Pow2Add(4, 3);
    assert Pow2(4) == 16 && Pow2(3) == 8;
    AndBit(e, 7);
  }

  /** Bits 12 to 51 of an entry are its address. */
  predicate AddressBit(k: nat) { 12 <= k < 52 }

  /** The other bits of an entry that are set. */
  ghost predicate FlagsAre(e: nat, bits: set<nat>)
  {
    forall k: nat :: !AddressBit(k) ==> (TestBit(e, k) <==> k in bits)
  }

  lemma FlagsOfBit(k: nat, f: nat)
    requires f == Pow2(k)
    ensures FlagsAre(f, {k})
  {
    forall j: nat ensures TestBit(f, j) <==> j in {k} { TestBitPow2(k, j); }
  }

  lemma FlagsOfOr(e: nat, f: nat, bits: set<nat>, more: set<nat>)
    requires FlagsAre(e, bits) && FlagsAre(f, more)
    ensures FlagsAre(Or(e, f), bits + more)
  {
    forall k: nat | !AddressBit(k) ensures TestBit(Or(e, f), k) <==> k in bits + more { TestBitOr(e, f, k); }
  }

  lemma FlagValues()
    ensures FlagsAre(PRESENT, {0}) && FlagsAre(WRITABLE, {1}) && FlagsAre(PAGESIZE_BIT, {7})
    ensures FlagsAre(Or(PRESENT, WRITABLE), {0, 1})
  {
    assert Pow2(0) == 1 && Pow2(1) == 2 && Pow2(4) == 16;
    assert Pow2(7) == 128 by { Pow2Add(4, 3); assert Pow2(3) == 8; }
    FlagsOfBit(0, PRESENT);
    FlagsOfBit(1, WRITABLE);
    FlagsOfBit(7, PAGESIZE_BIT);
    FlagsOfOr(PRESENT, WRITABLE, {0}, {1});
    assert {0} + {1} == {0, 1};
  }

  /** A page's address has none of them. */
  lemma AddressHasNoFlags(p: nat)
    requires p % 4096 == 0 && p < Pow2(52)
    ensures FlagsAre(p, {})
  {
    forall k: nat | !AddressBit(k) ensures !TestBit(p, k) {
      if k < 12 { LowBits(p, k); } else { HighBits(p, k); }
    }
  }

  lemma LowBits(p: nat, k: nat)
    requires p % 4096 == 0 && k < 12
    ensures !TestBit(p, k)
  {
    var q, d, h := p / 4096, Pow2(k), Pow2(11 - k);
    assert 4096 == (2 * h) * d by { Pow12(); Pow2Add(12 - k, k); }
    assert p == (q * (2 * h)) * d by { MulAssoc(q, 2 * h, d); }
    DivModUnique(p, d, q * (2 * h), 0);
    TwiceIsEven(q, h, p / d);
  }

  lemma TwiceIsEven(q: nat, h: nat, x: nat)
    requires x == q * (2 * h)
    ensures x % 2 == 0
  {
    assert x == (q * h) * 2 by { MulAssoc(q, h, 2); }
    DivModUnique(x, 2, q * h, 0);
  }

  lemma HighBits(p: nat, k: nat)
    requires p < Pow2(52) && k >= 52
    ensures !TestBit(p, k)
  {
    Pow2Monotone(52, k);
    DivModUnique(p, Pow2(k), 0, p);
  }

  /** What is or-ed to an address are the flags of the entry. */
  lemma EntryFlags(p: nat, f: nat, bits: set<nat>)
    requires p % 4096 == 0 && p < Pow2(52) && FlagsAre(f, bits)
    ensures FlagsAre(Or(p, f), bits)
  {
    AddressHasNoFlags(p);
    FlagsOfOr(p, f, {}, bits);
    assert {} + bits == bits;
  }

  lemma FlagsHaveNoAddress(f: nat, s: nat)
    requires 12 <= s < 52 && FlagsOnly(f)
    ensures Shr(f, s) % Pow2(52 - s) == 0
  {
    MiddleDigits(f, s, 52 - s);
    Pow12();
    Pow2Monotone(12, s);
    SmallShr(f % Pow2(52), s);
  }

  lemma AddressFits(p: nat, s: nat)
    requires s < 52 && p < Pow2(52)
    ensures Shr(p, s) % Pow2(52 - s) == Shr(p, s)
  {
    MiddleDigits(p, s, 52 - s);
    DivModUnique(p, Pow2(52), 0, p);
  }

  lemma AlignedShl(p: nat, s: nat)
    requires p % Pow2(s) == 0
    ensures Shl(Shr(p, s), s) == p
  {
  }

  /** Flags or-ed into an entry leave its address alone. */
  lemma AddressKept(e: nat, f: nat, s: nat)
    requires 12 <= s < 52 && FlagsOnly(f)
    ensures PhysRebase(Or(e, f), s, RangeMask(51, s)) == PhysRebase(e, s, RangeMask(51, s))
  {
    var x, y, t := Shr(e, s), Shr(f, s), 52 - s;
    calc {
      And(Shr(Or(e, f), s), RangeMask(51, s));
      { OrShr(e, f, s); }
      And(Or(x, y), Pow2(t) - 1);
      { AndMask(Or(x, y), t); }
      Or(x, y) % Pow2(t);
      { OrMod(x, y, t); FlagsHaveNoAddress(f, s); }
      Or(x % Pow2(t), 0);
      { OrZero(x % Pow2(t)); }
      x % Pow2(t);
      { AndMask(x, t); }
      And(x, RangeMask(51, s));
    }
  }

  /** An aligned address is its own entry, as far as the address goes. */
  lemma AddressAlone(p: nat, s: nat)
    requires 12 <= s < 52 && p % Pow2(s) == 0 && p < Pow2(52)
    ensures PhysRebase(p, s, RangeMask(51, s)) == p
  {
    calc {
      And(Shr(p, s), RangeMask(51, s));
      { AndMask(Shr(p, s), 52 - s); }
      Shr(p, s) % Pow2(52 - s);
      { AddressFits(p, s); }
      Shr(p, s);
    }
    AlignedShl(p, s);
  }

  lemma AddressOf(p: nat, f: nat, s: nat)
    requires 12 <= s < 52 && p % Pow2(s) == 0 && p < Pow2(52) && FlagsOnly(f)
    ensures PhysRebase(Or(p, f), s, RangeMask(51, s)) == p
  {
    AddressKept(p, f, s);
    AddressAlone(p, s);
  }
}
