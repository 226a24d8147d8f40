/** The linked list of kernel/src/mm/vma.rs, relinked and resized in place. Where the code allocates a node the
    address it is given is a parameter, 0 when the heap is exhausted. */
module VmaList {
  import opened Wrappers
  import opened Chains
  import opened Vma

  type Heap = map<nat, Cell<Range>>

  class List {
    var heap: Heap
    var head: nat
    ghost var cells: seq<nat>

    ghost predicate Valid()
      reads this
    {
      Seg(heap, head, cells, 0) && In(heap, cells)
    }

    ghost function Ranges(): seq<Range>
      requires In(heap, cells)
      reads this
    {
      Vals(heap, cells)
    }

    constructor ()
      ensures Valid() && Ranges() == []
    {
      heap, head, cells := map[], 0, [];
    }

    // krust_vmm_find: 0 is null.
    method Find(addr: nat) returns (n: nat)
      requires Valid()
      ensures n == 0 <==> Lookup(Ranges(), addr) == None
      ensures n != 0 ==> n in heap && heap[n].val in Ranges() && heap[n].val.start <= addr < heap[n].val.end
                         && Lookup(Ranges(), addr) == Some(heap[n].val.flags)
    {
      n := head;
      ghost var done, rest := [], cells;
      CutStart(heap, head, cells);
      while n != 0
        invariant Cut(heap, head, done, n, rest) && done + rest == cells
        invariant Lookup(Ranges(), addr) == Lookup(Vals(heap, rest), addr)
        decreases |rest|
      {
        CutDone(heap, head, done, n, rest);
        if heap[n].val.start <= addr < heap[n].val.end {
          assert Ranges()[|done|] == heap[n].val;
          return;
        }
        CutAdvance(heap, head, done, n, rest, heap[n].val);
        assert heap[n := heap[n].(val := heap[n].val)] == heap;
        done, rest := done + [n], rest[1..];
        n := heap[n].next;
      }
      CutDone(heap, head, done, n, rest);
    }

    // krust_vmm_has_overlap
    method HasOverlap(start: nat, end: nat) returns (b: bool)
      requires Valid()
      ensures b <==> start >= end || Overlaps(Ranges(), start, end)
    {
      if start >= end { return true; }
      var n := head;
      ghost var done, rest := [], cells;
      CutStart(heap, head, cells);
      while n != 0
        invariant Cut(heap, head, done, n, rest) && done + rest == cells
        invariant forall k :: 0 <= k < |done| ==> !Meets(Ranges()[k], start, end)
        decreases |rest|
      {
        CutDone(heap, head, done, n, rest);
        assert Ranges()[|done|] == heap[n].val;
        if heap[n].val.start < end && heap[n].val.end > start {
          assert Meets(Ranges()[|done|], start, end);
          return true;
        }
        CutAdvance(heap, head, done, n, rest, heap[n].val);
        assert heap[n := heap[n].(val := heap[n].val)] == heap;
        done, rest := done + [n], rest[1..];
        n := heap[n].next;
      }
      CutDone(heap, head, done, n, rest);
      return false;
    }

    // Linking a new node in front of the cells to come.
    method Hang(ghost done: seq<nat>, prev: nat, curr: nat, ghost rest: seq<nat>, r: Range, node: nat)
      requires Cut(heap, head, done, curr, rest) && prev == Last(done) && node != 0 && node !in heap
      modifies this
      ensures Valid() && Ranges() == Vals(old(heap), done) + ([r] + Vals(old(heap), rest))
      ensures heap.Keys == old(heap).Keys + {node}
    {
      hide Seg;
      CutInsert(heap, head, done, curr, rest, node, r);
      LastIsNull(heap, head, done, curr);
      heap := heap[node := Cell(r, curr)];
      if prev != 0 {
        heap := heap[prev := heap[prev].(next := node)];
      } else {
        head := node;
      }
      cells := done + ([node] + rest);
      CutDone(heap, head, done, node, [node] + rest);
    }

    // krust_vmm_add
    method Add(start: nat, end: nat, flags: bv64, node: nat) returns (v: nat)
      requires Valid() && (node != 0 ==> node !in heap)
      modifies this
      ensures Valid()
      ensures v == if start < end then node else 0
      ensures Ranges() == if v != 0 then Added(old(Ranges()), Range(start, end, flags)) else old(Ranges())
      ensures heap.Keys == if v != 0 then old(heap).Keys + {v} else old(heap).Keys
    {
      hide Seg, Cut;
      if start >= end { return 0; }
      if node == 0 { return 0; }
      var r := Range(start, end, flags);
      var prev, curr := 0, head;
      ghost var done, rest := [], cells;
      CutStart(heap, head, cells);
      CutDone(heap, head, done, curr, rest);
      while curr != 0 && heap[curr].val.start < start
        invariant heap == old(heap) && head == old(head) && cells == old(cells) && In(heap, done) && In(heap, rest)
        invariant Cut(heap, head, done, curr, rest) && prev == Last(done)
        invariant Added(Ranges(), r) == Vals(heap, done) + Added(Vals(heap, rest), r)
        invariant curr == 0 <==> rest == []
        invariant curr != 0 ==> curr in heap && Vals(heap, rest)[0] == heap[curr].val
        decreases |rest|
      {
        CutAdvance(heap, head, done, curr, rest, heap[curr].val);
        assert heap[curr := heap[curr].(val := heap[curr].val)] == heap;
        done, rest := done + [curr], rest[1..];
        prev := curr;
        curr := heap[curr].next;
        CutDone(heap, head, done, curr, rest);
      }
      Hang(done, prev, curr, rest, r, node);
      return node;
    }

    // Taking the current node out and freeing it.
    method Unlink(ghost done: seq<nat>, prev: nat, curr: nat, ghost rest: seq<nat>)
      requires Cut(heap, head, done, curr, rest) && prev == Last(done) && curr != 0 && curr in heap
      modifies this`heap, this`head
      ensures Cut(heap, head, done, old(heap)[curr].next, rest[1..]) && heap.Keys <= old(heap).Keys
      ensures Vals(heap, done) == Vals(old(heap), done) && Vals(heap, rest[1..]) == Vals(old(heap), rest)[1..]
    {
      hide Seg;
      CutUnlink(heap, head, done, curr, rest);
      LastIsNull(heap, head, done, curr);
      var next := heap[curr].next;
      if prev != 0 {
        heap := heap[prev := heap[prev].(next := next)];
      } else {
        head := next;
      }
      heap := heap - {curr};
    }

    // Cutting the current node in two around the range.
    method Split(ghost done: seq<nat>, curr: nat, ghost rest: seq<nat>, start: nat, end: nat, node: nat)
      requires Cut(heap, head, done, curr, rest) && curr != 0 && curr in heap && node != 0 && node !in heap
      modifies this
      ensures Valid() && heap.Keys == old(heap).Keys + {node}
      ensures var r := old(heap)[curr].val;
              Ranges() == Vals(old(heap), done) + ([r.(end := start), r.(start := end)] + Vals(old(heap), rest)[1..])
    {
      hide Seg;
      var r := heap[curr].val;
      CutDone(heap, head, done, curr, rest);
      CutAdvance(heap, head, done, curr, rest, r.(end := start));
      heap := heap[curr := heap[curr].(val := r.(end := start))];
      Hang(done + [curr], curr, heap[curr].next, rest[1..], r.(start := end), node);
    }

    // krust_vmm_remove
    method Remove(start: nat, end: nat, node: nat) returns (count: nat)
      requires Valid() && (node != 0 ==> node !in heap)
      modifies this
      ensures Valid() && Ranges() == Removed(old(Ranges()), start, end, node != 0)
      ensures heap.Keys <= old(heap).Keys + {node} && count == Changed(old(Ranges()), start, end)
    {
      hide Seg, Cut, Removed, Changed;
      count := 0;
      var prev, curr := 0, head;
      ghost var done, rest := [], cells;
      CutStart(heap, head, cells);
      CutDone(heap, head, done, curr, rest);
      while curr != 0
        invariant Cut(heap, head, done, curr, rest) && prev == Last(done) && In(heap, done) && In(heap, rest)
        invariant heap.Keys <= old(heap).Keys
        invariant Vals(heap, done) + Removed(Vals(heap, rest), start, end, node != 0) ==
            Removed(old(Ranges()), start, end, node != 0)
        invariant count + Changed(Vals(heap, rest), start, end) == Changed(old(Ranges()), start, end)
        invariant curr == 0 <==> rest == []
        invariant curr != 0 ==> curr in heap && Vals(heap, rest)[0] == heap[curr].val
        decreases |rest|
      {
        ChangedStep(Vals(heap, rest), start, end);
        RemovedStep(Vals(heap, done), Vals(heap, rest), start, end, node != 0);
        var r, next := heap[curr].val, heap[curr].next;
        if Meets(r, start, end) && r.start >= start && r.end <= end {
          Unlink(done, prev, curr, rest);
          rest := rest[1..];
          count := count + 1;
        } else if Meets(r, start, end) && r.start < start && r.end > end {
          if node != 0 {
            Split(done, curr, rest, start, end, node);
          } else {
            CutDone(heap, head, done, curr, rest);
            cells := done + rest;
          }
          count := count + 1;
          return;
        } else {
          var kept := r;
          if Meets(r, start, end) && r.start < start {
            kept := r.(end := start);
            count := count + 1;
          } else if Meets(r, start, end) && r.end > end {
            kept := r.(start := end);
            count := count + 1;
          }
          CutAdvance(heap, head, done, curr, rest, kept);
          heap := heap[curr := heap[curr].(val := kept)];
          done, rest := done + [curr], rest[1..];
          prev := curr;
        }
        curr := next;
        CutDone(heap, head, done, curr, rest);
      }
      RemovedNone(start, end, node != 0);
      ChangedNone(start, end);
      CutDone(heap, head, done, curr, rest);
      cells := done + rest;
    }
  }
}
