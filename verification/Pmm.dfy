/** Physical frame allocator (kernel/src/mm/pmm.rs): one bit per frame in a byte bitmap, bit set = used,
    and a hint below which every frame is used. */
module Pmm {
  import opened Wrappers
  import Bits

  const PAGE_SIZE: nat := 4096

  class FrameAllocator {
    var bitmap: array<bv8>
    var totalFrames: nat
    var firstFree: nat

    // A frame whose byte lies outside the bitmap counts as used.
    predicate Test(bit: nat)
      reads this`bitmap, bitmap
    {
      bit / 8 >= bitmap.Length || Bits.IsSet(bitmap, bit)
    }

    ghost function Free(): (s: set<nat>)
      reads this`bitmap, this`totalFrames, bitmap
    {
      set f: nat | 0 <= f < totalFrames && !Test(f)
    }

    // Every frame below the hint is used.
    ghost predicate Valid()
      reads this, bitmap
    {
      && totalFrames <= 8 * bitmap.Length
      && forall f: nat :: f < firstFree && f < totalFrames ==> Test(f)
    }

    method BitmapSet(bit: nat)
      modifies bitmap
      ensures forall j: nat :: Test(j) <==> j == bit || old(Test(j))
    {
      if bit / 8 < bitmap.Length {
        Bits.Set(bitmap, bit);
      }
    }

    method BitmapClear(bit: nat)
      modifies bitmap
      ensures forall j: nat :: Test(j) <==> (old(Test(j)) && !(j == bit && bit / 8 < bitmap.Length))
    {
      if bit / 8 < bitmap.Length {
        Bits.Clear(bitmap, bit);
      }
    }

    // krust_mm_cpp_pmm_init: all frames used, then those above the kernel and the bitmap itself freed.
    constructor Init(memUpperKb: nat, placement: nat)
      requires memUpperKb < 0x1_0000_0000
      ensures Valid() && fresh(bitmap)
      ensures totalFrames == (memUpperKb + 1024) * 1024 / PAGE_SIZE
      ensures forall f: nat ::
        f in Free() <==> (placement + (totalFrames + 7) / 8 + PAGE_SIZE - 1) / PAGE_SIZE <= f < totalFrames
    {
      var total := (memUpperKb + 1024) * 1024 / PAGE_SIZE;
      var size := (total + 7) / 8;
      totalFrames := total;
      bitmap := new bv8[size](_ => 0xFF);
      var usedFrames := (placement + size + PAGE_SIZE - 1) / PAGE_SIZE;
      firstFree := usedFrames;
      new;
      assert forall j: nat :: Test(j) by {
        forall j: nat | j / 8 < size ensures Bits.IsSet(bitmap, j) { Bits.AllOnes(j % 8); }
      }
      var i := usedFrames;
      while i < total
        modifies bitmap
        invariant bitmap.Length == size && usedFrames <= i
        invariant forall j: nat :: Test(j) <==> !(usedFrames <= j < i && j < total)
      {
        BitmapClear(i);
        i := i + 1;
      }
    }

    // The hinted search finds the lowest free frame of all, not just the lowest above the hint.
    method FindFirstFree() returns (r: Option<nat>)
      requires Valid()
      ensures r.None? <==> Free() == {}
      ensures r.Some? ==> r.value in Free() && forall f :: f in Free() ==> r.value <= f
    {
      var i := firstFree;
      while i < totalFrames
        invariant firstFree <= i
        invariant forall f: nat :: f < i && f < totalFrames ==> Test(f)
      {
        if !Test(i) {
          assert i in Free();
          return Some(i);
        }
        i := i + 1;
      }
      return None;
    }

    method Alloc() returns (r: Option<nat>)
      requires Valid()
      modifies this`firstFree, bitmap
      ensures Valid() && totalFrames == old(totalFrames)
      ensures r.None? <==> old(Free()) == {}
      ensures r.None? ==> Free() == {}
      ensures r.Some? ==> r.value in old(Free()) && forall f :: f in old(Free()) ==> r.value <= f
      ensures r.Some? ==> Free() == old(Free()) - {r.value} && |Free()| == |old(Free())| - 1
    {
      hide Test;
      r := FindFirstFree();
      if r.Some? {
        assert forall f: nat :: f < r.value && f < totalFrames && !Test(f) ==> f in Free();
        BitmapSet(r.value);
        firstFree := r.value + 1;
        assert Free() == old(Free()) - {r.value};
      }
    }

    // krust_pmm_free_frame, for any argument at all: out-of-range frames change nothing that can be seen.
    method FreeFrame(frame: nat)
      requires Valid()
      modifies this`firstFree, bitmap
      ensures Valid() && totalFrames == old(totalFrames)
      ensures Free() == old(Free()) + (if frame < totalFrames then {frame} else {})
      ensures frame < totalFrames && frame !in old(Free()) ==> |Free()| == |old(Free())| + 1
    {
      hide Test, Valid;
      ghost var was := Free();
      ClearedFree(frame);
      if frame < firstFree {
        firstFree := frame;
      }
      ValidAgain(frame);
      assert frame < totalFrames && frame !in was ==> |was + {frame}| == |was| + 1;
    }

    method ClearedFree(frame: nat)
      requires Valid()
      modifies bitmap
      ensures Free() == old(Free()) + (if frame < totalFrames then {frame} else {})
      ensures totalFrames <= 8 * bitmap.Length
      ensures forall f: nat :: f < firstFree && f < totalFrames && f != frame ==> Test(f)
    {
      hide Test;
      BitmapClear(frame);
      forall f ensures f in Free() <==> f in old(Free()) || (f == frame && frame < totalFrames) {}
    }

    lemma ValidAgain(frame: nat)
      requires firstFree <= frame && totalFrames <= 8 * bitmap.Length
      requires forall f: nat :: f < firstFree && f < totalFrames && f != frame ==> Test(f)
      ensures Valid()
    {
    }

    method FreeCount() returns (count: nat)
      ensures count == |Free()|
    {
      count := 0;
      var i := 0;
      ghost var seen: set<nat> := {};
      while i < totalFrames
        invariant i <= totalFrames
        invariant seen == set f: nat | 0 <= f < i && !Test(f)
        invariant count == |seen|
      {
        if !Test(i) {
          count := count + 1;
          seen := seen + {i};
        }
        i := i + 1;
      }
      assert seen == Free();
    }
  }
}
