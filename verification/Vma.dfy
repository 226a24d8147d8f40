/** The sorted list of mapped ranges of a task (kernel/src/mm/vma.rs) as a sequence of values. */
module Vma {
  import opened Wrappers

  datatype Range = Range(start: nat, end: nat, flags: bv64)

  // Non-empty, in order and disjoint.
  predicate Ordered(rs: seq<Range>) {
    && (forall i :: 0 <= i < |rs| ==> rs[i].start < rs[i].end)
    && (forall i, j :: 0 <= i < j < |rs| ==> rs[i].end <= rs[j].start)
  }

  // krust_vmm_find, and the flags it leads to.
  function Lookup(rs: seq<Range>, addr: nat): Option<bv64> {
    if rs == [] then None
    else if rs[0].start <= addr < rs[0].end then Some(rs[0].flags)
    else Lookup(rs[1..], addr)
  }

  predicate Meets(r: Range, start: nat, end: nat) { r.start < end && r.end > start }

  // krust_vmm_add: before the first range that does not start below.
  function Added(rs: seq<Range>, r: Range): seq<Range> {
    if rs == [] || rs[0].start >= r.start then [r] + rs else [rs[0]] + Added(rs[1..], r)
  }

  // krust_vmm_remove. `canSplit` is whether the node a split needs can be allocated; a split ends the walk.
  function Removed(rs: seq<Range>, start: nat, end: nat, canSplit: bool): seq<Range> {
    if rs == [] then []
    else
      var r := rs[0];
      if !Meets(r, start, end) then [r] + Removed(rs[1..], start, end, canSplit)
      else if r.start >= start && r.end <= end then Removed(rs[1..], start, end, canSplit)
      else if r.start < start && r.end > end then
        if canSplit then [r.(end := start), r.(start := end)] + rs[1..] else rs
      else if r.start < start then [r.(end := start)] + Removed(rs[1..], start, end, canSplit)
      else [r.(start := end)] + Removed(rs[1..], start, end, canSplit)
  }

  // One turn of the loop: the ranges already passed, then what removal makes of the rest.
  lemma RemovedStep(done: seq<Range>, rest: seq<Range>, start: nat, end: nat, canSplit: bool)
    requires rest != []
    ensures var r, all := rest[0], done + Removed(rest, start, end, canSplit);
            if !Meets(r, start, end) then all == (done + [r]) + Removed(rest[1..], start, end, canSplit)
            else if r.start >= start && r.end <= end then all == done + Removed(rest[1..], start, end, canSplit)
            else if r.start < start && r.end > end then
              all == done + (if canSplit then [r.(end := start), r.(start := end)] + rest[1..] else rest)
            else if r.start < start then all == (done + [r.(end := start)]) + Removed(rest[1..], start, end, canSplit)
            else all == (done + [r.(start := end)]) + Removed(rest[1..], start, end, canSplit)
  {
  }

  lemma RemovedNone(start: nat, end: nat, canSplit: bool)
    ensures Removed([], start, end, canSplit) == []
  {
  }

  // What krust_vmm_remove counts: the ranges it meets, up to the first it would have to split.
  function Changed(rs: seq<Range>, start: nat, end: nat): nat {
    if rs == [] then 0
    else if !Meets(rs[0], start, end) then Changed(rs[1..], start, end)
    else if Encloses(rs[0], start, end) then 1
    else 1 + Changed(rs[1..], start, end)
  }

  lemma ChangedStep(rs: seq<Range>, start: nat, end: nat)
    requires rs != []
    ensures Changed(rs, start, end) ==
            if !Meets(rs[0], start, end) then Changed(rs[1..], start, end)
            else if rs[0].start < start && rs[0].end > end then 1
            else 1 + Changed(rs[1..], start, end)
  {
  }

  lemma ChangedNone(start: nat, end: nat)
    ensures Changed([], start, end) == 0
  {
  }

  function Met(rs: seq<Range>, start: nat, end: nat): nat {
    if rs == [] then 0 else (if Meets(rs[0], start, end) then 1 else 0) + Met(rs[1..], start, end)
  }

  lemma {:induction false} NoneMet(rs: seq<Range>, start: nat, end: nat)
    requires forall i :: 0 <= i < |rs| ==> !Meets(rs[i], start, end)
    ensures Met(rs, start, end) == 0
  {
    if rs == [] {
    } else {
      NoneMet(rs[1..], start, end);
    }
  }

  // On an ordered list it is the number of ranges that meet the removed one.
  lemma {:induction false} CountIsMet(rs: seq<Range>, start: nat, end: nat)
    requires Ordered(rs)
    ensures Changed(rs, start, end) == Met(rs, start, end)
  {
    if rs == [] {
    } else if Meets(rs[0], start, end) && Encloses(rs[0], start, end) {
      forall i | 0 <= i < |rs| - 1 ensures !Meets(rs[1..][i], start, end) { assert rs[0].end <= rs[i + 1].start; }
      NoneMet(rs[1..], start, end);
    } else {
      TailOrdered(rs);
      CountIsMet(rs[1..], start, end);
    }
  }

  // ---------------------------------------------------------------- removal is subtraction

  lemma TailOrdered(rs: seq<Range>)
    requires Ordered(rs) && rs != []
    ensures Ordered(rs[1..]) && forall i :: 0 <= i < |rs[1..]| ==> rs[0].end <= rs[1..][i].start
  {
  }

  // Beyond the last byte of a bound every lookup misses.
  lemma {:induction false} MissesBelow(rs: seq<Range>, addr: nat)
    requires forall i :: 0 <= i < |rs| ==> addr < rs[i].start
    ensures Lookup(rs, addr) == None
  {
    if rs == [] {
    } else {
      MissesBelow(rs[1..], addr);
    }
  }

  // No part of what removal leaves starts below what was there.
  lemma {:induction false} RemovedAbove(rs: seq<Range>, start: nat, end: nat, canSplit: bool, low: nat)
    requires start <= end && forall i :: 0 <= i < |rs| ==> low <= rs[i].start
    ensures forall r :: r in Removed(rs, start, end, canSplit) ==> low <= r.start
  {
    if rs == [] {
    } else {
      RemovedAbove(rs[1..], start, end, canSplit, low);
    }
  }

  lemma Prepend(r: Range, rs: seq<Range>)
    requires r.start < r.end && Ordered(rs) && forall t :: t in rs ==> r.end <= t.start
    ensures Ordered([r] + rs)
  {
  }

  lemma SplitOrdered(rs: seq<Range>, start: nat, end: nat)
    requires Ordered(rs) && rs != [] && start <= end && Encloses(rs[0], start, end)
    ensures Ordered([rs[0].(end := start), rs[0].(start := end)] + rs[1..])
  {
  }

  lemma {:induction false} RemovedOrdered(rs: seq<Range>, start: nat, end: nat, canSplit: bool)
    requires Ordered(rs) && start <= end
    ensures Ordered(Removed(rs, start, end, canSplit))
  {
    hide Ordered;
    if rs == [] {
    } else {
      TailOrdered(rs);
      RemovedOrdered(rs[1..], start, end, canSplit);
      RemovedAbove(rs[1..], start, end, canSplit, rs[0].end);
      HeadNonEmpty(rs);
      var r, tail := rs[0], Removed(rs[1..], start, end, canSplit);
      if !Meets(r, start, end) {
        Prepend(r, tail);
      } else if r.start < start && r.end > end {
        SplitOrdered(rs, start, end);
      } else if r.start < start {
        Prepend(r.(end := start), tail);
      } else if r.end > end {
        Prepend(r.(start := end), tail);
      }
    }
  }

  lemma HeadNonEmpty(rs: seq<Range>)
    requires Ordered(rs) && rs != []
    ensures rs[0].start < rs[0].end
  {
  }

  lemma {:induction false} RemovedOutside(rs: seq<Range>, start: nat, end: nat, canSplit: bool, addr: nat)
    requires Ordered(rs) && start <= end && !(start <= addr < end)
    ensures Lookup(Removed(rs, start, end, canSplit), addr) == Lookup(rs, addr)
  {
    if rs == [] {
    } else {
      TailOrdered(rs);
      RemovedOutside(rs[1..], start, end, canSplit, addr);
      var r := rs[0];
      if Meets(r, start, end) && r.start < start && r.end > end && canSplit {
        var pair := [r.(end := start), r.(start := end)];
        assert (pair + rs[1..])[1..] == [r.(start := end)] + rs[1..];
        assert ([r.(start := end)] + rs[1..])[1..] == rs[1..];
      }
    }
  }

  predicate Encloses(r: Range, start: nat, end: nat) { r.start < start && r.end > end }

  lemma {:induction false} RemovedInside(rs: seq<Range>, start: nat, end: nat, canSplit: bool, addr: nat)
    requires Ordered(rs) && start <= addr < end
    requires canSplit || forall i :: 0 <= i < |rs| ==> !Encloses(rs[i], start, end)
    ensures Lookup(Removed(rs, start, end, canSplit), addr) == None
  {
    if rs == [] {
    } else {
      TailOrdered(rs);
      RemovedInside(rs[1..], start, end, canSplit, addr);
      var r := rs[0];
      if Meets(r, start, end) && Encloses(r, start, end) {
        MissesBelow(rs[1..], addr);
        assert ([r.(end := start), r.(start := end)] + rs[1..])[1..] == [r.(start := end)] + rs[1..];
        assert ([r.(start := end)] + rs[1..])[1..] == rs[1..];
      }
    }
  }

  lemma {:induction false} UnsplitStays(rs: seq<Range>, start: nat, end: nat, i: nat)
    requires Ordered(rs) && start < end && i < |rs| && Encloses(rs[i], start, end)
    ensures Lookup(Removed(rs, start, end, false), start) == Some(rs[i].flags)
  {
    TailOrdered(rs);
    if i == 0 {
    } else {
      assert rs[0].end <= rs[i].start;
      UnsplitStays(rs[1..], start, end, i - 1);
    }
  }

  /** On an ordered list, removal leaves every address outside the range as it was, keeps the list ordered, and
      clears the range, except when one range encloses it and the node for a split cannot be had. */
  lemma RemovedIsSubtraction(rs: seq<Range>, start: nat, end: nat, canSplit: bool)
    requires Ordered(rs) && start <= end
    ensures Ordered(Removed(rs, start, end, canSplit))
    ensures forall addr: nat ::
      !(start <= addr < end) ==> Lookup(Removed(rs, start, end, canSplit), addr) == Lookup(rs, addr)
    ensures start < end ==>
      ((forall addr: nat :: start <= addr < end ==> Lookup(Removed(rs, start, end, canSplit), addr) == None)
       <==> canSplit || forall i :: 0 <= i < |rs| ==> !Encloses(rs[i], start, end))
  {
    RemovedOrdered(rs, start, end, canSplit);
    forall addr: nat | !(start <= addr < end)
      ensures Lookup(Removed(rs, start, end, canSplit), addr) == Lookup(rs, addr)
    {
      RemovedOutside(rs, start, end, canSplit, addr);
    }
    if canSplit || forall i :: 0 <= i < |rs| ==> !Encloses(rs[i], start, end) {
      forall addr: nat | start <= addr < end ensures Lookup(Removed(rs, start, end, canSplit), addr) == None {
        RemovedInside(rs, start, end, canSplit, addr);
      }
    } else if start < end {
      var i :| 0 <= i < |rs| && Encloses(rs[i], start, end);
      UnsplitStays(rs, start, end, i);
    }
  }

  // ---------------------------------------------------------------- adding

  predicate Overlaps(rs: seq<Range>, start: nat, end: nat) { exists i :: 0 <= i < |rs| && Meets(rs[i], start, end) }

  lemma {:induction false} AddedAt(rs: seq<Range>, r: Range) returns (p: nat)
    ensures p <= |rs| && Added(rs, r) == rs[..p] + [r] + rs[p..]
  {
    if rs == [] || rs[0].start >= r.start {
      p := 0;
    } else {
      var q := AddedAt(rs[1..], r);
      p := q + 1;
      assert rs[..p] == [rs[0]] + rs[1..][..q] && rs[p..] == rs[1..][q..];
    }
  }

  lemma {:induction false} AddedOrdered(rs: seq<Range>, r: Range)
    requires Ordered(rs) && r.start < r.end && !Overlaps(rs, r.start, r.end)
    ensures Ordered(Added(rs, r))
  {
    if rs == [] || rs[0].start >= r.start {
      forall t | t in rs ensures r.end <= t.start {
        var i :| 0 <= i < |rs| && rs[i] == t;
        assert !Meets(rs[i], r.start, r.end);
      }
      Prepend(r, rs);
    } else {
      TailOrdered(rs);
      forall i | 0 <= i < |rs[1..]|
        ensures !Meets(rs[1..][i], r.start, r.end) { assert !Meets(rs[i + 1], r.start, r.end); }
      AddedOrdered(rs[1..], r);
      var p := AddedAt(rs[1..], r);
      assert !Meets(rs[0], r.start, r.end);
      Prepend(rs[0], Added(rs[1..], r));
    }
  }

  lemma {:induction false} AddedLookup(rs: seq<Range>, r: Range, addr: nat)
    requires Ordered(rs) && r.start < r.end && !Overlaps(rs, r.start, r.end)
    ensures Lookup(Added(rs, r), addr) == if r.start <= addr < r.end then Some(r.flags) else Lookup(rs, addr)
  {
    if rs == [] || rs[0].start >= r.start {
      assert ([r] + rs)[1..] == rs;
    } else {
      TailOrdered(rs);
      forall i | 0 <= i < |rs[1..]|
        ensures !Meets(rs[1..][i], r.start, r.end) { assert !Meets(rs[i + 1], r.start, r.end); }
      AddedLookup(rs[1..], r, addr);
      assert !Meets(rs[0], r.start, r.end);
    }
  }

  lemma TwoMeet(rs: seq<Range>, p: nat, q: nat)
    requires p < |rs| && q < |rs| && p != q && Meets(rs[q], rs[p].start, rs[p].end)
    ensures !Ordered(rs)
  {
  }

  /** Adding keeps the list ordered exactly when the new range meets none that is there. */
  lemma AddedOrderedIff(rs: seq<Range>, r: Range)
    requires Ordered(rs) && r.start < r.end
    ensures Ordered(Added(rs, r)) <==> !Overlaps(rs, r.start, r.end)
  {
    hide Ordered, Added;
    if Overlaps(rs, r.start, r.end) {
      var i :| 0 <= i < |rs| && Meets(rs[i], r.start, r.end);
      var p := AddedAt(rs, r);
      var q := if i < p then i else i + 1;
      TwoMeet(Added(rs, r), p, q);
    } else {
      AddedOrdered(rs, r);
    }
  }

  // Everything in the range reads `flags` now; elsewhere nothing changed.
  ghost predicate Overridden(rs: seq<Range>, rs': seq<Range>, start: nat, end: nat, flags: bv64) {
    && Ordered(rs')
    && forall addr: nat :: Lookup(rs', addr) == if start <= addr < end then Some(flags) else Lookup(rs, addr)
  }

  /** Removing a range and then adding it overrides exactly that range: what a fixed mmap and mprotect rely on. */
  lemma Override(rs: seq<Range>, start: nat, end: nat, flags: bv64)
    requires Ordered(rs) && start < end
    ensures Overridden(rs, Added(Removed(rs, start, end, true), Range(start, end, flags)), start, end, flags)
  {
    var mid, r := Removed(rs, start, end, true), Range(start, end, flags);
    RemovedIsSubtraction(rs, start, end, true);
    RemovedLeavesRoom(rs, start, end);
    AddedOrdered(mid, r);
    forall addr: nat
      ensures Lookup(Added(mid, r), addr) == if start <= addr < end then Some(flags) else Lookup(rs, addr) {
      AddedLookup(mid, r, addr);
    }
  }

  // Without an enclosing range the spare node does not matter.
  lemma {:induction false} SpareUnneeded(rs: seq<Range>, start: nat, end: nat)
    requires forall i :: 0 <= i < |rs| ==> !Encloses(rs[i], start, end)
    ensures Removed(rs, start, end, false) == Removed(rs, start, end, true)
  {
    if rs == [] {
    } else {
      assert !Encloses(rs[0], start, end);
      SpareUnneeded(rs[1..], start, end);
    }
  }

  lemma {:induction false} MappedMeets(rs: seq<Range>, addr: nat, start: nat, end: nat)
    requires Lookup(rs, addr).Some? && start <= addr < end
    ensures Overlaps(rs, start, end)
  {
    if rs[0].start <= addr < rs[0].end {
      assert Meets(rs[0], start, end);
    } else {
      MappedMeets(rs[1..], addr, start, end);
      var i :| 0 <= i < |rs[1..]| && Meets(rs[1..][i], start, end);
      assert Meets(rs[i + 1], start, end);
    }
  }

  /** When the node for a split may be missing, it does so exactly if none is needed or it is there. */
  lemma OverrideIff(rs: seq<Range>, start: nat, end: nat, flags: bv64, canSplit: bool)
    requires Ordered(rs) && start < end
    ensures Overridden(rs, Added(Removed(rs, start, end, canSplit), Range(start, end, flags)), start, end, flags)
            <==> canSplit || forall i :: 0 <= i < |rs| ==> !Encloses(rs[i], start, end)
  {
    hide Ordered, Added, Removed, Lookup;
    if canSplit || forall i :: 0 <= i < |rs| ==> !Encloses(rs[i], start, end) {
      if !canSplit { SpareUnneeded(rs, start, end); }
      Override(rs, start, end, flags);
    } else {
      var i :| 0 <= i < |rs| && Encloses(rs[i], start, end);
      var mid := Removed(rs, start, end, false);
      UnsplitStays(rs, start, end, i);
      MappedMeets(mid, start, start, end);
      RemovedOrdered(rs, start, end, false);
      AddedOrderedIff(mid, Range(start, end, flags));
    }
  }

  lemma {:induction false} RemovedLeavesRoom(rs: seq<Range>, start: nat, end: nat)
    requires Ordered(rs) && start < end
    ensures !Overlaps(Removed(rs, start, end, true), start, end)
  {
    if rs == [] {
    } else {
      TailOrdered(rs);
      RemovedLeavesRoom(rs[1..], start, end);
      var r, tail := rs[0], Removed(rs[1..], start, end, true);
      var all := Removed(rs, start, end, true);
      forall i | 0 <= i < |all| ensures !Meets(all[i], start, end) {
        assert forall k :: 0 <= k < |tail| ==> !Meets(tail[k], start, end);
      }
    }
  }
}
