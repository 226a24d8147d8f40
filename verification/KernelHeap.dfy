/** The kernel's first-fit heap (kernel/src/mm/heap.rs): 17-byte packed headers in a list through the heap itself,
    payload after each header. Writing a header overwrites the bytes under it. */
module KernelHeap {
  import opened Chains
  import opened Tiles
  import opened Blocks

  const HEAP_START: nat := 0x4000_0000
  const HEAP_SIZE: nat := 0x1000_0000
  const HEAP_END: nat := HEAP_START + HEAP_SIZE
  const HEADER: nat := 17
  const KERNEL := Layout(HEADER, HEADER, HEAP_START, HEAP_END)

  // (size + 15) & !15, with 0 counted as 1.
  function Rounded(size: nat): (r: nat)
    ensures r >= size && r >= 16 && r % 16 == 0 && r < size + 17
  {
    ((if size == 0 then 1 else size) + 15) / 16 * 16
  }

  class Heap {
    var cells: map<nat, Cell<Block>>
    var head: nat
    var bytes: Bytes
    ghost var ps: seq<nat>

    ghost function Ts(): seq<Tile>
      requires In(cells, ps)
      reads this
    {
      TilesOf(KERNEL, ps, Vals(cells, ps))
    }

    ghost predicate Valid()
      reads this
    {
      Seg(cells, head, ps, 0) && In(cells, ps) && Tiled(Ts(), HEAP_START, HEAP_END)
    }

    // krust_heap_init
    constructor Init(memory: Bytes)
      ensures Valid() && Ts() == [Tile(HEAP_START, HEAP_SIZE, true)]
    {
      cells := map[HEAP_START := Cell(Block(HEAP_SIZE - HEADER, true), 0)];
      head, bytes, ps := HEAP_START, Clobber(KERNEL, memory, HEAP_START), [HEAP_START];
      new;
      assert Ts() == [Tile(HEAP_START, HEAP_SIZE, true)] && Ts()[1..] == [];
    }

    method StoreHeader(a: nat, c: Cell<Block>)
      modifies this`cells, this`bytes
      ensures cells == old(cells)[a := c] && bytes == Clobber(KERNEL, old(bytes), a)
    {
      cells, bytes := cells[a := c], Clobber(KERNEL, bytes, a);
    }

    // find_block: the first free block that is large enough.
    method FindBlock(size: nat) returns (p: nat, ghost n: nat)
      requires Valid()
      ensures n <= |ps| && p == (if n < |ps| then ps[n] else 0) && (p == 0 <==> n == |ps|)
      ensures NoneFits(Ts(), n, HEADER + size)
      ensures p != 0 ==> p in cells && cells[p].val.free && cells[p].val.size >= size
    {
      hide Seg, Tiled, NoneFits, TilesOf;
      p, n := head, 0;
      SegIn(cells, head, ps, 0);
      SegStart(cells, head, ps, 0);
      NoneFitsYet(Ts(), HEADER + size);
      while p != 0
        invariant n <= |ps| && p == (if n < |ps| then ps[n] else 0) && NoneFits(Ts(), n, HEADER + size)
        decreases |ps| - n
      {
        if cells[p].val.free && cells[p].val.size >= size { return; }
        SegNext(cells, head, ps, 0, n);
        TileAt(KERNEL, ps, Vals(cells, ps), n);
        NoneFitsMore(Ts(), n, HEADER + size);
        p, n := cells[p].next, n + 1;
      }
    }

    // A walk through the whole list is stopped at p.
    ghost predicate AtBlock(p: nat, done: seq<nat>, rest: seq<nat>)
      reads this
    {
      && Cut(cells, head, done, p, rest) && ps == done + rest && rest != [] && rest[0] == p && p in cells
      && In(cells, ps) && Tiled(Ts(), HEAP_START, HEAP_END)
    }

    // split_block: only if the rest can hold a header and 16 bytes.
    method SplitBlock(p: nat, size: nat, ghost done: seq<nat>, ghost rest: seq<nat>) returns (ghost rest': seq<nat>)
      requires AtBlock(p, done, rest) && 0 < size <= cells[p].val.size
      modifies this`cells, this`bytes, this`ps
      ensures AtBlock(p, done, rest') && cells[p].val.free == old(cells)[p].val.free && size <= cells[p].val.size
      ensures Ts() == if old(cells)[p].val.size >= size + HEADER + 16
                      then Split(old(Ts()), |done|, HEADER + size) else old(Ts())
      ensures SamePrefix(old(bytes), p + HEADER, bytes, p + HEADER, size)
      ensures OthersKept(KERNEL, old(bytes), bytes, old(Ts()), |done|)
    {
      hide Seg, Cut, Tiled, Clobber, SamePrefix, OthersKept, Split, TilesOf;
      rest' := rest;
      CutDone(cells, head, done, p, rest);
      TileAt(KERNEL, ps, Vals(cells, ps), |done|);
      SplitKeeps(KERNEL, bytes, Ts(), |done|, HEADER + size, cells[p].val.size >= size + HEADER + 16);
      if cells[p].val.size < size + HEADER + 16 { return; }
      var b, n := cells[p], p + HEADER + size;
      StoreHeader(n, Cell(Block(b.val.size - size - HEADER, true), b.next));
      StoreHeader(p, Cell(b.val.(size := size), n));
      rest' := [p, n] + rest[1..];
      SplitList(KERNEL, old(cells), cells, head, done, p, rest, size);
      ps := done + rest';
    }

    // Setting or clearing the free flag of a block.
    method Mark(p: nat, free: bool, ghost done: seq<nat>, ghost rest: seq<nat>)
      requires AtBlock(p, done, rest)
      modifies this`cells, this`bytes
      ensures AtBlock(p, done, rest) && Ts() == old(Ts())[|done| := old(Ts())[|done|].(free := free)]
      ensures forall t :: t in old(Ts()) ==> SamePayload(KERNEL, old(bytes), bytes, t)
    {
      hide Seg, Tiled, Clobber, SamePayload;
      ghost var h := cells[p := cells[p].(val := cells[p].val.(free := free))];
      SegFrame(cells, h, head, done, p);
      SegFrame(cells, h, p, rest, 0);
      MarkTiled(Ts(), |done|, free, HEAP_START, HEAP_END);
      HeaderKeeps(KERNEL, bytes, Ts(), |done|);
      CutDone(cells, head, done, p, rest);
      SegIn(cells, head, ps, 0);
      StoreHeader(p, cells[p].(val := cells[p].val.(free := free)));
      assert Ts() == old(Ts())[|done| := old(Ts())[|done|].(free := free)];
    }

    // merge_adjacent stopped at curr: what is done, followed by the merge of what is to come, is the merge of it all.
    ghost predicate Merging(goal: seq<Tile>, b0: Bytes, curr: nat, done: seq<nat>, rest: seq<nat>)
      reads this
    {
      && Cut(cells, head, done, curr, rest) && ps == done + rest && In(cells, done) && In(cells, rest) && In(cells, ps)
      && Vals(cells, ps) == Vals(cells, done) + Vals(cells, rest)
      && Tiled(Ts(), HEAP_START, HEAP_END) && LiveKept(KERNEL, b0, bytes, Ts())
      && TilesOf(KERNEL, done, Vals(cells, done)) + Merge(TilesOf(KERNEL, rest, Vals(cells, rest))) == goal
      && (curr == 0 <==> rest == []) && (curr != 0 ==> curr in cells && rest[0] == curr)
    }

    method AbsorbNext(ghost goal: seq<Tile>, ghost b0: Bytes, curr: nat, ghost done: seq<nat>, ghost rest: seq<nat>)
      returns (ghost rest': seq<nat>)
      requires Merging(goal, b0, curr, done, rest) && curr != 0 && cells[curr].next in cells && |rest| >= 2
      requires cells[curr].next == rest[1] && cells[curr].val.free && cells[rest[1]].val.free
      modifies this`cells, this`bytes, this`ps
      ensures Merging(goal, b0, curr, done, rest') && |rest'| < |rest|
    {
      hide Seg, Cut, Tiled, Clobber, LiveKept, Merge, TilesOf;
      var c, n := cells[curr], cells[cells[curr].next];
      AbsorbTiles(KERNEL, done, rest, Vals(cells, done), Vals(cells, rest), HEAP_START, HEAP_END);
      CutAbsorb(cells, head, done, curr, rest, Block(c.val.size + HEADER + n.val.size, true));
      CountedIsWide(KERNEL, ps, Vals(cells, ps));
      TileAt(KERNEL, ps, Vals(cells, ps), |done|);
      HeaderKeeps(KERNEL, bytes, Ts(), |done|);
      KeptMore(KERNEL, b0, bytes, Clobber(KERNEL, bytes, curr), Ts());
      ghost var ts := Ts();
      StoreHeader(curr, Cell(Block(c.val.size + HEADER + n.val.size, true), n.next));
      rest' := [curr] + rest[2..];
      ps := done + rest';
      CutDone(cells, head, done, curr, rest');
      KeptSub(KERNEL, b0, bytes, ts, Ts());
    }

    lemma SkipNext(goal: seq<Tile>, b0: Bytes, curr: nat, done: seq<nat>, rest: seq<nat>)
      requires Merging(goal, b0, curr, done, rest) && curr != 0 && |rest| >= 2
      requires cells[curr].next == rest[1] && !(cells[curr].val.free && cells[rest[1]].val.free)
      ensures Merging(goal, b0, cells[curr].next, done + [curr], rest[1..])
    {
      hide Seg, Cut, Tiled, LiveKept, Merge;
      MergeSkip(KERNEL, done, rest, Vals(cells, done), Vals(cells, rest));
      CutAdvance(cells, head, done, curr, rest, cells[curr].val);
      assert cells[curr := cells[curr].(val := cells[curr].val)] == cells;
      assert (done + [curr]) + rest[1..] == ps;
      CutDone(cells, head, done + [curr], cells[curr].next, rest[1..]);
    }

    // merge_adjacent
    method MergeAdjacent()
      requires Valid()
      modifies this`cells, this`bytes, this`ps
      ensures Valid() && Ts() == Merge(old(Ts())) && LiveKept(KERNEL, old(bytes), bytes, Ts())
    {
      hide Seg, Cut, Tiled, LiveKept, Clobber;
      var curr := head;
      ghost var done, rest := [], ps;
      CutStart(cells, head, ps);
      CutDone(cells, head, done, curr, rest);
      KeptRefl(KERNEL, bytes, Ts());
      ghost var goal := Merge(Ts());
      while curr != 0 && cells[curr].next != 0
        invariant Merging(goal, old(bytes), curr, done, rest)
        decreases |rest|
      {
        Second(cells, head, done, curr, rest);
        if cells[curr].val.free && cells[cells[curr].next].val.free {
          rest := AbsorbNext(goal, old(bytes), curr, done, rest);
        } else {
          SkipNext(goal, old(bytes), curr, done, rest);
          done, rest := done + [curr], rest[1..];
          curr := cells[curr].next;
        }
      }
      LastOne(cells, head, done, curr, rest);
      CutDone(cells, head, done, curr, rest);
      TilesConcat(KERNEL, done, rest, Vals(cells, done), Vals(cells, rest));
    }

    // Splitting a free block that is large enough and taking it into use.
    method Take(p: nat, need: nat, ghost done: seq<nat>, ghost rest: seq<nat>) returns (ghost t: Tile)
      requires AtBlock(p, done, rest) && cells[p].val.free && 0 < need <= cells[p].val.size
      modifies this`cells, this`bytes, this`ps
      ensures Valid() && t.addr == p && t.span >= HEADER + need && t !in old(Ts()) && GainsLive(old(Ts()), Ts(), t)
      ensures LiveKept(KERNEL, old(bytes), bytes, old(Ts()))
    {
      hide Seg, Cut, Tiled, LiveKept, GainsLive, SamePayload, SamePrefix, OthersKept, Split;
      ghost var ts, i := Ts(), |done|;
      ghost var split := cells[p].val.size >= need + HEADER + 16;
      assert ts[i] == Tile(p, HEADER + cells[p].val.size, true);
      TakenGains(ts, i, HEADER + need, split, HEAP_START, HEAP_END);
      t := Tile(p, if split then HEADER + need else ts[i].span, false);
      ghost var rest' := SplitBlock(p, need, done, rest);
      ghost var ts1, b1 := Ts(), bytes;
      Mark(p, false, done, rest');
      CutDone(cells, head, done, p, rest');
      TakingKeeps(KERNEL, old(bytes), b1, bytes, ts, i, ts1, HEADER + need);
    }

    /** krust_heap_alloc: null only if no free block is large enough; otherwise one more block in use, and every
        payload that was in use is untouched. */
    method Alloc(size: nat) returns (ptr: nat, ghost t: Tile)
      requires Valid()
      modifies this
      ensures Valid()
      ensures ptr == 0 <==> NoneFree(old(Ts()), HEADER + Rounded(size))
      ensures ptr == 0 ==> Ts() == old(Ts()) && bytes == old(bytes)
      ensures ptr != 0 ==> && ptr == t.addr + HEADER && t.span >= HEADER + Rounded(size)
                           && t !in old(Ts()) && GainsLive(old(Ts()), Ts(), t)
      ensures LiveKept(KERNEL, old(bytes), bytes, old(Ts()))
    {
      hide Seg, Cut, Tiled, LiveKept, GainsLive, Rounded;
      var need := Rounded(size);
      KeptRefl(KERNEL, bytes, Ts());
      var p, n := FindBlock(need);
      t := Tile(0, 0, false);
      if p == 0 { return 0, t; }
      assert Ts()[n] == Tile(p, HEADER + cells[p].val.size, true);
      ghost var done, rest := Locate(p);
      t := Take(p, need, done, rest);
      return p + HEADER, t;
    }

    // Where a block of the list is.
    lemma Locate(p: nat) returns (done: seq<nat>, rest: seq<nat>)
      requires Valid() && p in ps
      ensures AtBlock(p, done, rest)
    {
      var i :| 0 <= i < |ps| && ps[i] == p;
      done, rest := ps[..i], ps[i..];
      assert ps == done + rest;
      var q := SegSplit(cells, head, done, rest, 0);
    }

    lemma InTiles(p: nat)
      requires Valid() && p in ps
      ensures Tile(p, HEADER + cells[p].val.size, cells[p].val.free) in Ts()
    {
      var i :| 0 <= i < |ps| && ps[i] == p;
      assert Ts()[i] == Tile(p, HEADER + cells[p].val.size, cells[p].val.free);
    }

    lemma IsBlock(t: Tile)
      requires Valid() && t in Ts()
      ensures t.addr in ps && t == Tile(t.addr, HEADER + cells[t.addr].val.size, cells[t.addr].val.free)
    {
      var i :| 0 <= i < |ps| && Ts()[i] == t;
      assert ps[i] == t.addr;
    }

    /** krust_heap_free. Freeing a block in use merges all neighbouring free blocks; if it was the last one in use
        the heap is back to its single initial block. */
    method Free(ptr: nat)
      requires Valid() && (ptr != 0 ==> ptr >= HEADER && ptr - HEADER in ps)
      modifies this
      ensures Valid() && LiveKept(KERNEL, old(bytes), bytes, Ts())
      ensures ptr == 0 || old(cells)[ptr - HEADER].val.free ==> Ts() == old(Ts()) && bytes == old(bytes)
      ensures ptr != 0 && !old(cells)[ptr - HEADER].val.free ==>
                var t := Tile(ptr - HEADER, HEADER + old(cells)[ptr - HEADER].val.size, false);
                && LosesLive(old(Ts()), Ts(), t) && NoTwoFree(Ts())
                && ((forall u :: u in old(Ts()) && u != t ==> u.free) ==> Ts() == [Tile(HEAP_START, HEAP_SIZE, true)])
    {
      hide Seg, Cut, Tiled, LiveKept, Merge, NoTwoFree, SamePayload;
      KeptRefl(KERNEL, bytes, Ts());
      if ptr == 0 { return; }
      var p := ptr - HEADER;
      if cells[p].val.free { return; }
      ghost var done, rest := Locate(p);
      ghost var ts, b, i := Ts(), bytes, |done|;
      assert ts[i] == Tile(p, HEADER + cells[p].val.size, false);
      Mark(p, true, done, rest);
      CutDone(cells, head, done, p, rest);
      ghost var marked, b1 := Ts(), bytes;
      FreeingKeeps(KERNEL, b, b1, ts, i);
      MergeAdjacent();
      FreeTiles(KERNEL, ts, marked, i);
      KeptTrans(KERNEL, b, b1, bytes, marked, Ts());
    }

    /** krust_heap_realloc: the common prefix survives, no other payload changes, and when no block can be had
        nothing changes at all. */
    method Realloc(ptr: nat, size: nat) returns (r: nat, ghost n: Tile)
      requires Valid() && (ptr != 0 ==> ptr >= HEADER && ptr - HEADER in ps && !cells[ptr - HEADER].val.free)
      modifies this
      ensures Valid()
      ensures ptr == 0 ==> (r == 0 <==> NoneFree(old(Ts()), HEADER + Rounded(size)))
      ensures ptr == 0 && r != 0 ==> r == n.addr + HEADER && n.span >= HEADER + size && GainsLive(old(Ts()), Ts(), n)
      ensures ptr == 0 ==> LiveKept(KERNEL, old(bytes), bytes, old(Ts()))
      ensures ptr != 0 ==>
                var t := Tile(ptr - HEADER, HEADER + old(cells)[ptr - HEADER].val.size, false);
                && (size == 0 ==> r == 0 && LosesLive(old(Ts()), Ts(), t) && LiveKept(KERNEL, old(bytes), bytes, Ts()))
                && (size > 0 ==> (r == 0 <==> t.span < HEADER + size && NoneFree(old(Ts()), HEADER + Rounded(size))))
                && (size > 0 && r == 0 ==> Ts() == old(Ts()) && bytes == old(bytes))
                && (size > 0 && t.span >= HEADER + size ==> r == ptr)
                && (size > 0 && r != 0 ==>
                      && r == n.addr + HEADER && n.span >= HEADER + size && ReplacesLive(old(Ts()), Ts(), t, n)
                      && SamePrefix(old(bytes), ptr, bytes, r, if size < t.span - HEADER then size else t.span - HEADER)
                      && forall u :: u in old(Ts()) && !u.free && u != t ==> SamePayload(KERNEL, old(bytes), bytes, u))
    {
      hide Seg, Cut, Tiled, Clobber, LiveKept, GainsLive, LosesLive, ReplacesLive, NoTwoFree, SamePrefix, SamePayload;
      n := Tile(0, 0, false);
      if ptr == 0 {
        r, n := Alloc(size);
        return;
      }
      if size == 0 {
        Free(ptr);
        return 0, n;
      }
      var p := ptr - HEADER;
      var b := cells[p].val;
      if b.size >= size {
        n := ShrinkTo(p, size);
        return ptr, n;
      }
      r, n := Grow(ptr, size);
    }

    // The block stays; what it can spare is split off.
    method ShrinkTo(p: nat, size: nat) returns (ghost n: Tile)
      requires Valid() && p in ps && !cells[p].val.free && 0 < size <= cells[p].val.size
      modifies this
      ensures Valid() && n.addr == p && n.span >= HEADER + size
      ensures var t := Tile(p, HEADER + old(cells)[p].val.size, false);
              && ReplacesLive(old(Ts()), Ts(), t, n) && SamePrefix(old(bytes), p + HEADER, bytes, p + HEADER, size)
              && forall u :: u in old(Ts()) && !u.free && u != t ==> SamePayload(KERNEL, old(bytes), bytes, u)
    {
      hide Seg, Cut, Tiled, ReplacesLive, SamePrefix, SamePayload, OthersKept, Split, TilesOf;
      ghost var done, rest := Locate(p);
      ghost var ts, i, split := Ts(), |done|, cells[p].val.size >= size + HEADER + 16;
      TileAt(KERNEL, ps, Vals(cells, ps), i);
      n := ts[i].(span := if split then HEADER + size else ts[i].span);
      SplitReplaces(ts, i, HEADER + size, split, HEAP_START, HEAP_END);
      rest := SplitBlock(p, size, done, rest);
      CutDone(cells, head, done, p, rest);
      ShrinkKeeps(KERNEL, old(bytes), bytes, ts, i);
    }

    // A larger block is allocated, the bytes moved, the old block freed.
    method Grow(ptr: nat, size: nat) returns (r: nat, ghost n: Tile)
      requires Valid() && ptr >= HEADER && ptr - HEADER in ps && !cells[ptr - HEADER].val.free
      requires cells[ptr - HEADER].val.size < size
      modifies this
      ensures Valid()
      ensures var t := Tile(ptr - HEADER, HEADER + old(cells)[ptr - HEADER].val.size, false);
              && (r == 0 <==> NoneFree(old(Ts()), HEADER + Rounded(size)))
              && (r == 0 ==> Ts() == old(Ts()) && bytes == old(bytes))
              && (r != 0 ==>
                    && r == n.addr + HEADER && n.span >= HEADER + size && ReplacesLive(old(Ts()), Ts(), t, n)
                    && SamePrefix(old(bytes), ptr, bytes, r, t.span - HEADER)
                    && forall u :: u in old(Ts()) && !u.free && u != t ==> SamePayload(KERNEL, old(bytes), bytes, u))
    {
      hide Seg, Cut, Tiled, Clobber, LiveKept, GainsLive, LosesLive, NoTwoFree, SamePrefix, SamePayload, Copied,
           TilesOf, Rounded;
      ghost var ts, t := Ts(), Tile(ptr - HEADER, HEADER + cells[ptr - HEADER].val.size, false);
      InTiles(ptr - HEADER);
      r, n := Alloc(size);
      if r == 0 { return; }
      assert t in Ts() by { GainKeeps(ts, Ts(), n, t); }
      IsBlock(t);
      ghost var ts1, b1 := Ts(), bytes;
      var count := if cells[ptr - HEADER].val.size < size then cells[ptr - HEADER].val.size else size;
      bytes := Copied(bytes, ptr, r, count);
      ghost var b2 := bytes;
      Free(ptr);
      GrowKeeps(KERNEL, old(bytes), b1, b2, bytes, ts, ts1, Ts(), t, n);
    }
  }
}
