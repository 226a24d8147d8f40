/** The slot bitmap and the two transfer routines of kernel/src/mm/swap.rs. Disk transfers and the bounce buffer
    may fail; whether they do is a parameter. */
module SwapDevice {
  import opened Wrappers
  import opened Paging
  import opened Swap
  import Bits
  import Pmm

  class Slots {
    var totalSlots: nat
    var bitmap: array<bv8>
    var swapUsed: array<bool>

    predicate Bit(slot: nat)
      reads this`bitmap, bitmap
    {
      slot / 8 < bitmap.Length && Bits.IsSet(bitmap, slot)
    }

    ghost predicate Valid()
      reads this, bitmap, swapUsed
    {
      && 0 < totalSlots <= MAX_SWAP_SLOTS == swapUsed.Length && totalSlots <= 8 * bitmap.Length
      && bitmap as object != swapUsed
      && forall i: nat :: i < totalSlots ==> swapUsed[i] == Bit(i)
    }

    ghost function Taken(): set<nat>
      reads this`bitmap, this`totalSlots, bitmap
    {
      set i: nat | 0 <= i < totalSlots && Bit(i)
    }

    // krust_swap_init
    constructor Init(totalSectors: nat)
      requires 16 <= totalSectors && (totalSectors - 8) / 8 <= MAX_SWAP_SLOTS
      ensures Valid() && Taken() == {} && totalSlots == (totalSectors - 8) / 8
      ensures fresh(bitmap) && fresh(swapUsed)
    {
      var slots := (totalSectors - 8) / 8;
      totalSlots := slots;
      bitmap := new bv8[(slots + 63) / 64 * 8](_ => 0);
      swapUsed := new bool[MAX_SWAP_SLOTS](_ => false);
      new;
      forall j: nat ensures !Bit(j) { Bits.AllOnes(j % 8); }
    }

    method BitmapSet(slot: nat)
      requires Valid() && slot < totalSlots
      modifies bitmap, swapUsed
      ensures Valid() && forall j: nat :: Bit(j) <==> j == slot || old(Bit(j))
    {
      Bits.Set(bitmap, slot);
      swapUsed[slot] := true;
    }

    method BitmapClear(slot: nat)
      requires Valid() && slot < totalSlots
      modifies bitmap, swapUsed
      ensures Valid() && forall j: nat :: Bit(j) <==> j != slot && old(Bit(j))
    {
      Bits.Clear(bitmap, slot);
      swapUsed[slot] := false;
    }

    // swap_alloc_slot: the lowest slot not in use.
    method Alloc() returns (slot: Option<nat>)
      requires Valid()
      modifies bitmap, swapUsed
      ensures Valid()
      ensures slot.None? ==> Taken() == old(Taken()) && forall i: nat :: i < totalSlots ==> i in old(Taken())
      ensures slot.Some? ==>
        slot.value < totalSlots && slot.value !in old(Taken()) && Taken() == old(Taken()) + {slot.value}
      ensures slot.Some? ==> forall i: nat :: i < slot.value ==> i in old(Taken())
    {
      var i := 0;
      while i < totalSlots
        invariant 0 <= i <= totalSlots
        invariant forall j: nat :: j < i ==> Bit(j)
      {
        if !Bit(i) {
          BitmapSet(i);
          assert Taken() == old(Taken()) + {i};
          return Some(i);
        }
        i := i + 1;
      }
      return None;
    }

    method Free(slot: nat)
      requires Valid()
      modifies bitmap, swapUsed
      ensures Valid() && Taken() == old(Taken()) - {slot}
    {
      if slot < totalSlots {
        BitmapClear(slot);
      }
    }
  }

  class Swapper {
    const dev: Slots
    const pmm: Pmm.FrameAllocator
    var leaves: map<Loc, Word>
    var disk: map<nat, Page>
    var ram: map<nat, Page>
    ghost var slots: map<nat, Loc>
    ghost var users: map<nat, Loc>
    ghost var free: set<nat>
    ghost var taken: set<nat>

    ghost function S(): State
      reads this
    {
      State(leaves, slots, users, disk, ram, free)
    }

    // `free` and `taken` are what the frame bitmap and the slot bitmap say.
    ghost predicate Known()
      reads this`free, this`taken, pmm, pmm.bitmap, dev, dev.bitmap, dev.swapUsed
    {
      && pmm.Valid() && free == pmm.Free() && dev.Valid() && taken == dev.Taken()
      && pmm.bitmap != dev.bitmap && pmm.bitmap as object != dev.swapUsed
    }

    ghost predicate Valid()
      reads this, pmm, pmm.bitmap, dev, dev.bitmap, dev.swapUsed
    {
      Known() && slots.Keys == taken && Inv(S()) && forall f :: f in users ==> f < pmm.totalFrames
    }

    constructor (dev: Slots, pmm: Pmm.FrameAllocator, leaves: map<Loc, Word>, ram: map<nat, Page>,
                 ghost users: map<nat, Loc>)
      requires pmm.Valid() && dev.Valid() && dev.Taken() == {}
      requires pmm.bitmap != dev.bitmap && pmm.bitmap as object != dev.swapUsed
      requires Inv(State(leaves, map[], users, map[], ram, pmm.Free()))
      requires forall f :: f in users ==> f < pmm.totalFrames
      ensures Valid() && S() == State(leaves, map[], users, map[], ram, pmm.Free())
    {
      this.dev, this.pmm, this.leaves, this.disk, this.ram := dev, pmm, leaves, map[], ram;
      this.slots, this.users, this.free, this.taken := map[], users, pmm.Free(), {};
    }

    method TakeFrame() returns (r: Option<nat>)
      requires Known()
      modifies this`free, pmm`firstFree, pmm.bitmap
      ensures Known()
      ensures r.None? <==> old(free) == {}
      ensures r.None? ==> free == old(free)
      ensures r.Some? ==> r.value in old(free) && free == old(free) - {r.value} && r.value < pmm.totalFrames
    {
      r := pmm.Alloc();
      if r.Some? { free := free - {r.value}; }
    }

    method GiveFrame(frame: nat)
      requires Known() && frame < pmm.totalFrames
      modifies this`free, pmm`firstFree, pmm.bitmap
      ensures Known() && free == old(free) + {frame}
    {
      pmm.FreeFrame(frame);
      free := free + {frame};
    }

    method TakeSlot() returns (r: Option<nat>)
      requires Known()
      modifies this`taken, dev.bitmap, dev.swapUsed
      ensures Known()
      ensures r.Some? <==> exists i: nat :: i < dev.totalSlots && i !in old(taken)
      ensures r.None? ==> taken == old(taken)
      ensures r.Some? ==> r.value !in old(taken) && r.value < MAX_SWAP_SLOTS && taken == old(taken) + {r.value}
    {
      r := dev.Alloc();
      if r.Some? { taken := taken + {r.value}; }
    }

    method GiveSlot(slot: nat)
      requires Known()
      modifies this`taken, dev.bitmap, dev.swapUsed
      ensures Known() && taken == old(taken) - {slot}
    {
      dev.Free(slot);
      taken := taken - {slot};
    }

    // The end of swap_evict_page: the page is on disk, the leaf names the slot, the frame is given back.
    method MoveOut(l: Loc, w: Word, slot: nat, page: Page)
      requires Known() && w.frame < pmm.totalFrames
      modifies this`disk, this`leaves, this`free, this`slots, this`users, pmm`firstFree, pmm.bitmap
      ensures Known() && leaves == old(leaves)[l := SwapWord(w, slot)] && disk == old(disk)[slot := page]
      ensures free == old(free) + {w.frame} && slots == old(slots)[slot := l] && users == old(users) - {w.frame}
    {
      hide Known, SwapWord;
      disk := disk[slot := page];
      leaves := leaves[l := SwapWord(w, slot)];
      GiveFrame(w.frame);
      slots, users := slots[slot := l], users - {w.frame};
    }

    /** swap_evict_page on a page that is not shared. A failure at any stage gives the slot back. */
    method EvictPage(l: Loc, bufferOk: bool, diskOk: bool) returns (ok: bool, ghost slot: nat)
      requires Valid() && (l in leaves ==> !leaves[l].cow)
      modifies this, pmm`firstFree, pmm.bitmap, dev.bitmap, dev.swapUsed
      ensures Valid()
      ensures ok <==> && l in old(leaves) && old(leaves)[l].present && bufferOk && diskOk
                      && exists i: nat :: i < dev.totalSlots && i !in old(slots)
      ensures ok ==> slot !in old(slots) && slot < MAX_SWAP_SLOTS && S() == Evict(old(S()), l, slot)
      ensures !ok ==> S() == old(S())
    {
      hide Inv, Known, SlotOf, SwapWord;
      slot := 0;
      if l in leaves { Held(S(), l); }
      var got := TakeSlot();
      if got.None? { return false, slot; }
      slot := got.value;
      if l !in leaves || !leaves[l].present || !bufferOk {
        GiveSlot(got.value);
        return false, slot;
      }
      var w := leaves[l];
      var buf := ram[w.frame];
      if !diskOk {
        GiveSlot(got.value);
        return false, slot;
      }
      EvictKeeps(old(S()), l, slot);
      MoveOut(l, w, got.value, buf);
      return true, slot;
    }

    // swap_in_from_pte once the slot has been read: the leaf is made present and the slot given back.
    method Install(l: Loc, w: Word, frame: nat, page: Page)
      requires Known()
      modifies this`ram, this`leaves, this`taken, this`slots, this`users, dev.bitmap, dev.swapUsed
      ensures Known() && leaves == old(leaves)[l := BackWord(w, frame)] && ram == old(ram)[frame := page]
      ensures taken == old(taken) - {SlotOf(w)} && slots == old(slots) - {SlotOf(w)} && users == old(users)[frame := l]
    {
      hide Known, SlotOf;
      ram := ram[frame := page];
      leaves := leaves[l := BackWord(w, frame)];
      GiveSlot(SlotOf(w));
      slots, users := slots - {SlotOf(w)}, users[frame := l];
    }

    /** swap_handle_fault and swap_in_from_pte. A failure gives the frame back; it may have been overwritten, which
        no page can notice. */
    method HandleFault(l: Loc, diskOk: bool) returns (ok: bool, ghost frame: nat)
      requires Valid()
      modifies this, pmm`firstFree, pmm.bitmap, dev.bitmap, dev.swapUsed
      ensures Valid() && View(S()) == View(old(S()))
      ensures ok <==> l in old(leaves) && IsSwap(old(leaves)[l]) && diskOk && old(free) != {}
      ensures ok ==> && frame in old(free) && l in old(leaves) && SlotOf(old(leaves)[l]) in old(disk)
                     && S() == SwapIn(old(S()), l, frame)
      ensures !ok ==> leaves == old(leaves) && slots == old(slots) && free == old(free) && disk == old(disk)
    {
      hide Inv, Known, View, SlotOf, IsSwap, BackWord;
      frame := 0;
      if l in leaves { Held(S(), l); }
      if l !in leaves || !IsSwap(leaves[l]) { return false, frame; }
      SwapNotPresent(leaves[l]);
      var got := TakeFrame();
      if got.None? { return false, frame; }
      frame := got.value;
      SwapInKeeps(old(S()), l, frame);
      var zero: Page := seq(4096, _ => 0);
      ScratchFrame(old(S()), frame, zero);
      ram := ram[got.value := zero];
      if !diskOk {
        GiveFrame(got.value);
        assert S() == old(S()).(ram := old(ram)[frame := zero]);
        return false, frame;
      }
      Install(l, leaves[l], got.value, disk[SlotOf(leaves[l])]);
      assert ram == old(ram)[frame := disk[SlotOf(old(leaves)[l])]];
      return true, frame;
    }
  }
}
