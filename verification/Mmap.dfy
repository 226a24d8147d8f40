/** The mmap (36) and mprotect (39) cases of kernel/src/process/syscalls.rs as clients of the range list. The node
    allocator is a function of the nodes in use; address arithmetic is taken not to wrap. */
module Mmap {
  import opened Wrappers
  import opened Vma
  import opened VmaList

  const MMAP_VADDR: nat := 0x4000_0000
  const STEP: nat := 0x10_0000
  const VMA_TYPE_ANON: bv64 := 0x100
  const MAP_FIXED: bv64 := 0x10

  function AlignUp(x: nat): nat { (x + 0xFFF) / 0x1000 * 0x1000 }
  function AlignDown(x: nat): nat { x / 0x1000 * 0x1000 }

  function MaxEnd(rs: seq<Range>): (m: nat)
    ensures forall i :: 0 <= i < |rs| ==> rs[i].end <= m
  {
    if rs == [] then 0
    else
      var m := MaxEnd(rs[1..]);
      assert forall i :: 0 < i < |rs| ==> rs[i] == rs[1..][i - 1];
      if rs[0].end > m then rs[0].end else m
  }

  lemma AddOverrides(rs: seq<Range>, start: nat, end: nat, flags: bv64)
    requires Ordered(rs) && start < end && !Overlaps(rs, start, end)
    ensures Overridden(rs, Added(rs, Range(start, end, flags)), start, end, flags)
  {
    var r := Range(start, end, flags);
    AddedOrdered(rs, r);
    forall addr: nat
      ensures Lookup(Added(rs, r), addr) == if start <= addr < end then Some(flags) else Lookup(rs, addr) {
      AddedLookup(rs, r, addr);
    }
  }

  // The search of mmap for addr == 0: the lowest multiple of 1 MB above MMAP_VADDR where the length fits.
  method SearchFree(list: List, length: nat) returns (addr: nat)
    requires list.Valid() && length > 0
    ensures !Overlaps(list.Ranges(), addr, addr + length)
    ensures addr >= MMAP_VADDR && (addr - MMAP_VADDR) % STEP == 0
    ensures forall k: nat ::
      MMAP_VADDR + k * STEP < addr ==> Overlaps(list.Ranges(), MMAP_VADDR + k * STEP, MMAP_VADDR + k * STEP + length)
  {
    addr := MMAP_VADDR;
    ghost var steps := 0;
    var busy := list.HasOverlap(addr, addr + length);
    while busy
      invariant addr == MMAP_VADDR + steps * STEP && steps >= 0
      invariant busy <==> Overlaps(list.Ranges(), addr, addr + length)
      invariant forall k: nat ::
        k < steps ==> Overlaps(list.Ranges(), MMAP_VADDR + k * STEP, MMAP_VADDR + k * STEP + length)
      decreases MaxEnd(list.Ranges()) - addr
    {
      ghost var i :| 0 <= i < |list.Ranges()| && Meets(list.Ranges()[i], addr, addr + length);
      assert addr < list.Ranges()[i].end <= MaxEnd(list.Ranges());
      addr := addr + STEP;
      steps := steps + 1;
      busy := list.HasOverlap(addr, addr + length);
    }
  }

  // Whether one range covers the given one with something left on both sides.
  predicate Enclosed(rs: seq<Range>, start: nat, end: nat) { exists i :: 0 <= i < |rs| && Encloses(rs[i], start, end) }

  // A node allocator: 0, or an address that is not in use. An address freed by a removal may come back.
  ghost predicate Allocates(alloc: set<nat> -> nat) { forall used :: alloc(used) == 0 || alloc(used) !in used }

  // `node` is what the allocator gave when the last node of the list was asked for.
  predicate Given(alloc: set<nat> -> nat, used: set<nat>, node: nat) {
    if node == 0 then alloc(used) == 0 else node in used && alloc(used - {node}) == node
  }

  /** mmap. A mapping overrides exactly its range, unless it is put at an address where something is mapped already, or
      the node to split an enclosing range is missing. Without a node for itself it fails, and a fixed one has then
      already removed what was there. */
  method Mmap(list: List, addr: nat, length: nat, prot: bv64, flags: bv64, alloc: set<nat> -> nat)
    returns (r: Option<nat>, ghost spare: nat, ghost node: nat)
    requires list.Valid() && Ordered(list.Ranges()) && Allocates(alloc)
    modifies list
    ensures list.Valid()
    ensures spare == alloc(old(list.heap).Keys)
    ensures length > 0 ==> Given(alloc, list.heap.Keys, node)
    ensures r.Some? <==> length > 0 && node != 0
    ensures r.Some? && addr != 0 ==> r.value == addr
    ensures r.None? ==>
      list.Ranges() == if length > 0 && addr != 0 && flags & MAP_FIXED != 0
                       then Removed(old(list.Ranges()), addr, addr + AlignUp(length), spare != 0)
                       else old(list.Ranges())
    ensures r.Some? && addr == 0 ==>
      && Overridden(old(list.Ranges()), list.Ranges(), r.value, r.value + AlignUp(length), prot | VMA_TYPE_ANON)
      && !Overlaps(old(list.Ranges()), r.value, r.value + AlignUp(length))
      && r.value >= MMAP_VADDR && (r.value - MMAP_VADDR) % STEP == 0
      && forall k: nat :: MMAP_VADDR + k * STEP < r.value ==>
           Overlaps(old(list.Ranges()), MMAP_VADDR + k * STEP, MMAP_VADDR + k * STEP + AlignUp(length))
    ensures r.Some? && addr != 0 && flags & MAP_FIXED != 0 ==>
      (Overridden(old(list.Ranges()), list.Ranges(), addr, addr + AlignUp(length), prot | VMA_TYPE_ANON)
       <==> spare != 0 || !Enclosed(old(list.Ranges()), addr, addr + AlignUp(length)))
    ensures r.Some? && addr != 0 && flags & MAP_FIXED == 0 ==>
      (Ordered(list.Ranges()) <==> !Overlaps(old(list.Ranges()), addr, addr + AlignUp(length)))
  {
    hide Ordered, Overlaps, Lookup, Added, Removed, Overridden;
    var split := alloc(list.heap.Keys);
    spare, node := split, 0;
    if length == 0 { return None, spare, node; }
    var len := AlignUp(length);
    var at := addr;
    if flags & MAP_FIXED != 0 && addr != 0 {
      OverrideIff(list.Ranges(), addr, addr + len, prot | VMA_TYPE_ANON, split != 0);
      var _ := list.Remove(addr, addr + len, split);
    } else if addr == 0 {
      at := SearchFree(list, len);
      AddOverrides(list.Ranges(), at, at + len, prot | VMA_TYPE_ANON);
    } else {
      AddedOrderedIff(list.Ranges(), Range(addr, addr + len, prot | VMA_TYPE_ANON));
    }
    ghost var used := list.heap.Keys;
    var own := alloc(list.heap.Keys);
    node := own;
    var v := list.Add(at, at + len, prot | VMA_TYPE_ANON, own);
    if v == 0 { return None, spare, node; }
    assert list.heap.Keys - {own} == used;
    return Some(at), spare, node;
  }

  /** mprotect. Any hole inside the range becomes mapped too. It reports success without looking at the result of the
      addition: without a node the range is gone. */
  method Mprotect(list: List, addr: nat, len: nat, prot: bv64, alloc: set<nat> -> nat)
    returns (ok: bool, ghost spare: nat, ghost node: nat)
    requires list.Valid() && Ordered(list.Ranges()) && Allocates(alloc)
    modifies list
    ensures list.Valid()
    ensures spare == alloc(old(list.heap).Keys)
    ensures ok ==> Given(alloc, list.heap.Keys, node)
    ensures ok <==> len > 0 && Lookup(old(list.Ranges()), AlignDown(addr)).Some?
    ensures !ok ==> list.Ranges() == old(list.Ranges())
    ensures ok && node != 0 ==>
      (Overridden(old(list.Ranges()), list.Ranges(), AlignDown(addr), AlignUp(addr + len), prot | VMA_TYPE_ANON)
       <==> spare != 0 || !Enclosed(old(list.Ranges()), AlignDown(addr), AlignUp(addr + len)))
    ensures ok && node == 0 ==>
      list.Ranges() == Removed(old(list.Ranges()), AlignDown(addr), AlignUp(addr + len), spare != 0)
  {
    hide Ordered, Lookup, Added, Removed, Overridden;
    var split := alloc(list.heap.Keys);
    spare, node := split, 0;
    if len == 0 { return false, spare, node; }
    var end, start := AlignUp(addr + len), AlignDown(addr);
    var vma := list.Find(start);
    if vma == 0 || list.heap[vma].val.end <= start { return false, spare, node; }
    OverrideIff(list.Ranges(), start, end, prot | VMA_TYPE_ANON, split != 0);
    var _ := list.Remove(start, end, split);
    ghost var used := list.heap.Keys;
    var own := alloc(list.heap.Keys);
    node := own;
    var v := list.Add(start, end, prot | VMA_TYPE_ANON, own);
    if v == 0 { return true, spare, node; }
    assert list.heap.Keys - {own} == used;
    return true, spare, node;
  }
}
