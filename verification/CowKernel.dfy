/** The loops and in-place updates behind Cow: kernel/src/mm/cow.rs and the user-page code of
    kernel/src/mm/paging.rs, each proved to compute the step of the same name. */
module CowKernel {
  import opened Wrappers
  import opened Paging
  import opened Cow
  import Pmm

  class Kernel {
    var leaves: map<Loc, Word>
    var refcount: map<nat, nat>
    var ram: map<nat, Page>
    const pmm: Pmm.FrameAllocator
    ghost var free: set<nat>
    ghost const reserved: set<nat>

    ghost function S(): State
      reads this
    {
      State(leaves, refcount, free, ram, reserved)
    }

    ghost predicate FreeKnown()
      reads this`free, this`refcount, pmm, pmm.bitmap
    {
      pmm.Valid() && free == pmm.Free() && forall f :: f in refcount <==> 0 <= f < pmm.totalFrames
    }

    ghost predicate Valid()
      reads this, pmm, pmm.bitmap
    {
      FreeKnown() && Inv(S())
    }

    // krust_cow_init: all counts zero, no user page yet.
    constructor (pmm: Pmm.FrameAllocator, refcount: map<nat, nat>)
      requires pmm.Valid() && forall f :: f in refcount <==> 0 <= f < pmm.totalFrames
      requires forall f :: f in refcount ==> refcount[f] == 0
      ensures Valid() && leaves == map[] && this.pmm == pmm
    {
      this.leaves, this.refcount, this.ram, this.pmm := map[], refcount, map[], pmm;
      this.free, this.reserved := pmm.Free(), set f | f in refcount && f !in pmm.Free();
      new;
      forall f | f in this.refcount ensures FrameOk(S(), f) { assert Mappers(S().leaves, f) == {}; }
    }

    method CowRefInc(frame: nat)
      modifies this`refcount
      ensures S() == RefInc(old(S()), frame)
    {
      if frame !in refcount { return; }
      var prev := refcount[frame];
      refcount := refcount[frame := prev + 1];
      if prev >= 0xFFFE {
        refcount := refcount[frame := 0xFFFF];
      }
    }

    method CowRefDec(frame: nat) returns (prev: nat)
      modifies this`refcount
      ensures S() == RefDec(old(S()), frame) && prev == Refs(old(S()), frame)
      ensures old(FreeKnown()) ==> FreeKnown()
    {
      if frame !in refcount { return 0; }
      prev := refcount[frame];
      if prev > 0 {
        refcount := refcount[frame := prev - 1];
      }
      assert refcount == old(refcount)[frame := Dec(prev)];
    }

    method TakeFrame() returns (r: Option<nat>)
      requires FreeKnown()
      modifies this`free, pmm`firstFree, pmm.bitmap
      ensures FreeKnown()
      ensures r.None? <==> old(free) == {}
      ensures r.None? ==> free == old(free)
      ensures r.Some? ==> r.value in old(free) && free == old(free) - {r.value}
    {
      r := pmm.Alloc();
      if r.Some? { free := free - {r.value}; }
    }

    method GiveFrame(frame: nat)
      requires FreeKnown()
      modifies this`free, pmm`firstFree, pmm.bitmap
      ensures FreeKnown() && S() == Release(old(S()), frame)
    {
      pmm.FreeFrame(frame);
      if frame in refcount { free := free + {frame}; }
    }

    // krust_paging_copy_user_pages. `stop` is the page at which no table can be had for the copy: the loop ends there.
    method CopyUserPages(src: nat, dst: nat, stop: nat)
      modifies this`leaves, this`refcount
      ensures S() == CopyUpTo(old(S()), src, dst, if stop < USER_PAGES then stop else USER_PAGES)
    {
      var page := 0;
      while page < USER_PAGES
        invariant 0 <= page <= USER_PAGES && page <= stop
        invariant S() == CopyUpTo(old(S()), src, dst, page)
      {
        if page == stop { return; }
        var a, b := Loc(src, page), Loc(dst, page);
        if a in leaves && leaves[a].present {
          var w := leaves[a];
          if w.write && w.user {
            CowRefInc(w.frame);
            leaves := leaves[a := CowWord(w)];
            leaves := leaves[b := CowWord(w)];
          } else {
            leaves := leaves[b := w];
          }
        }
        page := page + 1;
      }
    }

    // cow_resolve and cow_resolve_page
    method CowResolve(l: Loc) returns (ok: bool, ghost spare: Option<nat>)
      requires Valid()
      modifies this`leaves, this`refcount, this`ram, this`free, pmm`firstFree, pmm.bitmap
      ensures FreeKnown()
      ensures spare.Some? ==> spare.value in old(free)
      ensures l !in old(leaves) || !old(leaves)[l].cow ==> !ok && S() == old(S())
      ensures l in old(leaves) && old(leaves)[l].cow ==>
                && old(leaves)[l].frame in old(ram) && S() == Fault(old(S()), l, spare)
                && (ok <==> Refs(old(S()), old(leaves)[l].frame) == 0 || old(free) != {})
                && (ok ==> Valid() && View(S()) == View(old(S())))
    {
      hide Inv, View, FreeKnown;
      spare := None;
      if l in leaves { Mapped(S(), l); }
      if l !in leaves || !leaves[l].present { return false, spare; }
      var w := leaves[l];
      if !w.cow { return false, spare; }
      var refs := CowRefDec(w.frame);
      if refs == 0 {
        leaves := leaves[l := w.(cow := false, write := true, present := true, avail := 0)];
        FaultKeeps(old(S()), l, None);
        FaultView(old(S()), l, None);
        return true, spare;
      }
      var frame := TakeFrame();
      spare := frame;
      if frame.None? { return false, spare; }
      ram := ram[frame.value := ram[w.frame]];
      leaves := leaves[l := ZERO.(frame := frame.value, present := true, write := true, user := true)];
      FaultKeeps(old(S()), l, spare);
      FaultView(old(S()), l, spare);
      return true, spare;
    }

    // krust_paging_free_user_pages: the leaves go with the tables that hold them.
    method FreeUserPages(space: nat)
      requires FreeKnown()
      modifies this`leaves, this`refcount, this`free, pmm`firstFree, pmm.bitmap
      ensures FreeKnown() && S() == DropUpTo(old(S()), space, USER_PAGES)
      ensures old(Valid()) ==> (Valid() <==> Harmless(old(S()), space))
    {
      hide Inv, View, FreeKnown, Harmless;
      var page := 0;
      while page < USER_PAGES
        invariant 0 <= page <= USER_PAGES
        invariant FreeKnown() && S() == DropUpTo(old(S()), space, page)
      {
        var l := Loc(space, page);
        if l in leaves && leaves[l].present {
          var w := leaves[l];
          leaves := leaves - {l};
          if w.cow {
            var prev := CowRefDec(w.frame);
            if prev == 0 {
              GiveFrame(w.frame);
            }
          } else {
            GiveFrame(w.frame);
          }
        }
        page := page + 1;
      }
      if old(Valid()) { ExitKeepsIff(old(S()), space); }
    }

    /** The first branches of krust_page_fault_handler, for a fault at a page below slot 256. Copy-on-write is tried
        only for a user write to a page that is not present, and then finds nothing to resolve. A fault at a present
        page, and so every write to a copy-on-write page, ends with the signal. */
    method PageFault(l: Loc, write: bool, user: bool, current: bool) returns (next: Outcome)
      requires Valid()
      modifies this`leaves, this`refcount, this`ram, this`free, pmm`firstFree, pmm.bitmap
      ensures Valid() && S() == old(S())
      ensures next == if l in leaves then Signal else FillIn
    {
      hide Inv, View, FreeKnown;
      if l in leaves { Mapped(S(), l); }
      var err := ErrorCode(l in leaves && leaves[l].present, write, user);
      if err % 8 == 6 && current {
        var ok, _ := CowResolve(l);
        if ok { return Resolved; }
      }
      if err % 2 == 0 { return FillIn; }
      return Signal;
    }
  }

  // Where the handler goes: back to the process, on to swap and lazy allocation, or to SIGSEGV.
  datatype Outcome = Resolved | FillIn | Signal

  // What the processor reports: bit 0 for a page that is present, bit 1 for a write, bit 2 for user mode.
  function ErrorCode(present: bool, write: bool, user: bool): (e: nat)
    ensures e % 8 == 6 <==> !present && write && user
    ensures e % 2 == 0 <==> !present
  {
    (if present then 1 else 0) + (if write then 2 else 0) + (if user then 4 else 0)
  }
}
