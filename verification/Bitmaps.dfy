/** Bit arrays packed into bytes, as the buddy bitmaps are. */
module Bitmaps {
  import opened Bits

  function BitGet(bytes: seq<nat>, i: nat): bool
    requires i / 8 < |bytes|
  {
    TestBit(bytes[i / 8], i % 8)
  }

  function BitSet(bytes: seq<nat>, i: nat): (r: seq<nat>)
    requires i / 8 < |bytes|
    ensures |r| == |bytes| && BitGet(r, i)
    ensures forall j: nat {:trigger BitGet(r, j)} ::
              j / 8 < |bytes| && j != i ==> BitGet(r, j) == BitGet(bytes, j)
  {
    var b, m := bytes[i / 8], Shl(1, i % 8);
    forall k: nat ensures TestBit(Or(b, m), k) <==> k == i % 8 || TestBit(b, k) {
      TestBitOr(b, m, k);
      TestBitPow2(i % 8, k);
    }
    bytes[i / 8 := Or(b, m)]
  }

  function BitClr(bytes: seq<nat>, i: nat): (r: seq<nat>)
    requires i / 8 < |bytes|
    ensures |r| == |bytes| && !BitGet(r, i)
    ensures forall j: nat {:trigger BitGet(r, j)} ::
              j / 8 < |bytes| && j != i ==> BitGet(r, j) == BitGet(bytes, j)
  {
    var b, m := bytes[i / 8], Shl(1, i % 8);
    forall k: nat ensures TestBit(AndNot(b, m), k) <==> k != i % 8 && TestBit(b, k) {
      TestBitAndNot(b, m, k);
      TestBitPow2(i % 8, k);
    }
    bytes[i / 8 := AndNot(b, m)]
  }

  /** Clearing a clear bit changes nothing. */
  lemma ClrClear(bytes: seq<nat>, i: nat)
    requires i / 8 < |bytes| && !BitGet(bytes, i)
    ensures BitClr(bytes, i) == bytes
  {
    AndNotBit(bytes[i / 8], i % 8);
  }
}
