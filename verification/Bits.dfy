/** One-bit-per-item byte bitmaps, as kernel/src/mm/pmm.rs and kernel/src/mm/swap.rs both keep. */
module Bits {
  function Mask(k: nat): bv8
    requires k < 8
  {
    if k == 0 then 1 else if k == 1 then 2 else if k == 2 then 4 else if k == 3 then 8
    else if k == 4 then 16 else if k == 5 then 32 else if k == 6 then 64 else 128
  }

  predicate TestBit(b: bv8, k: nat)
    requires k < 8
  {
    b & Mask(k) != 0
  }

  // Setting or clearing one bit of a byte changes that bit and no other.
  lemma SetClearBit(b: bv8, k: nat, j: nat)
    requires k < 8 && j < 8
    ensures TestBit(b | Mask(k), j) <==> j == k || TestBit(b, j)
    ensures TestBit(b & !Mask(k), j) <==> j != k && TestBit(b, j)
  {
  }

  lemma AllOnes(k: nat)
    requires k < 8
    ensures TestBit(0xFF, k) && !TestBit(0, k)
  {
  }

  predicate IsSet(bm: array<bv8>, i: nat)
    requires i / 8 < bm.Length
    reads bm
  {
    TestBit(bm[i / 8], i % 8)
  }

  method Set(bm: array<bv8>, i: nat)
    requires i / 8 < bm.Length
    modifies bm
    ensures forall j: nat :: j / 8 < bm.Length ==> (IsSet(bm, j) <==> j == i || old(IsSet(bm, j)))
  {
    ghost var was := bm[i / 8];
    bm[i / 8] := bm[i / 8] | Mask(i % 8);
    forall j: nat | j / 8 < bm.Length ensures IsSet(bm, j) <==> j == i || old(IsSet(bm, j)) {
      SetClearBit(was, i % 8, j % 8);
    }
  }

  method Clear(bm: array<bv8>, i: nat)
    requires i / 8 < bm.Length
    modifies bm
    ensures forall j: nat :: j / 8 < bm.Length ==> (IsSet(bm, j) <==> j != i && old(IsSet(bm, j)))
  {
    ghost var was := bm[i / 8];
    bm[i / 8] := bm[i / 8] & !Mask(i % 8);
    forall j: nat | j / 8 < bm.Length ensures IsSet(bm, j) <==> j != i && old(IsSet(bm, j)) {
      SetClearBit(was, i % 8, j % 8);
    }
  }
}
