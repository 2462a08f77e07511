/** Page constants and the linear direct map of physical memory (kernel/pagetbl.h). */
module Phys {
  import opened Powers
  import opened Bits

  const PAGESIZE: nat := 4096

  /** Base of the direct map and the 64 TiB it may span. */
  const PHMMAP: nat := 0xFFFF_8000_0000_0000
  const PHYS_MAX: nat := 0x4000_0000_0000

  /** (void *)-1, the error pointer of the allocators */
  const KPAGE_ERR: nat := 0xFFFF_FFFF_FFFF_FFFF

  function PhysToVirt(phy: nat): nat { (phy + PHMMAP) % U64 }

  function VirtToPhys(virt: nat): nat { (virt - PHMMAP) % U64 }

  function PageAlignDown(x: nat): nat { AndNot(x, PAGESIZE - 1) }

  function PageAlignUp(x: nat): nat { AndNot((x + (PAGESIZE - 1)) % U64, PAGESIZE - 1) }

  lemma NullIsHigh()
    ensures VirtToPhys(0) == 0x8000_0000_0000
  {
  }

  lemma Pow12()
    ensures Pow2(12) == PAGESIZE
  {
    assert Pow2(4) == 16;
    assert Pow2(8) == 256 by { Pow2Add(4, 4); }
    Pow2Add(8, 4);
  }

  lemma AlignDown(x: nat)
    ensures PageAlignDown(x) == x - x % PAGESIZE
  {
    Pow12();
    AndNotMask(x, 12);
  }

  lemma AlignUp(x: nat)
    requires x + PAGESIZE <= U64
    ensures x <= PageAlignUp(x) < x + PAGESIZE && PageAlignUp(x) % PAGESIZE == 0
  {
    AlignDown(x + (PAGESIZE - 1));
  }
}
