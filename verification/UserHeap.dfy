/** The allocator every program is linked with (userspace/src/rt.rs): first fit over a list of 16-byte headers,
    neighbours fused when a block is freed. */
module UserHeap {
  import opened Chains
  import opened Tiles
  import opened Blocks

  const HDR_SIZE: nat := 16

  // The next multiple of a; rt.rs asks for 8 and for 4096.
  function AlignUp(v: nat, a: nat): (r: nat)
    requires a == 8 || a == 4096
    ensures v <= r < v + a && r % a == 0
  {
    (v + a - 1) / a * a
  }

  // Header and payload of a request.
  function Need(size: nat): (r: nat)
    ensures size + HDR_SIZE <= r < size + HDR_SIZE + 8
  {
    AlignUp(size + HDR_SIZE, 8)
  }

  // A second free of a block that is already free does nothing, because its neighbours are not free.
  lemma ReturnedTwice(ts: seq<Tile>, i: nat)
    requires i < |ts| && ts[i].free && NoTwoFree(ts)
    ensures Returned(ts, i) == ts
  {
    assert ts[i := ts[i].(free := true)] == ts;
    assert forall k :: 0 <= k < |ts| - 1 && k + 1 == i ==> !ts[k].free;
  }

  lemma FusedTiles(l: Layout, done: seq<nat>, rest: seq<nat>, vd: seq<Block>, vr: seq<Block>)
    requires |done| == |vd| && |rest| == |vr| >= 2 && l.over == 0
    ensures var v := vr[0].(size := vr[0].size + vr[1].size);
            TilesOf(l, done + ([rest[0]] + rest[2..]), vd + ([v] + vr[2..])) ==
              Fuse(TilesOf(l, done + rest, vd + vr), |done|)
  {
    hide TilesOf;
    var v := vr[0].(size := vr[0].size + vr[1].size);
    var ts := TilesOf(l, done + rest, vd + vr);
    TilesConcat(l, done, rest, vd, vr);
    TilesConcat(l, done, [rest[0]] + rest[2..], vd, [v] + vr[2..]);
    TilesConcat(l, [rest[0]], rest[2..], [v], vr[2..]);
    HeadTile(l, rest, vr);
    HeadTile(l, rest[1..], vr[1..]);
    assert rest[1..][1..] == rest[2..] && vr[1..][1..] == vr[2..];
    HeadTile(l, [rest[0]], [v]);
    var d, r := TilesOf(l, done, vd), TilesOf(l, rest[2..], vr[2..]);
    var a, b := Tile(rest[0], vr[0].size, vr[0].free), Tile(rest[1], vr[1].size, vr[1].free);
    assert ts == d + ([a] + ([b] + r));
    FuseMiddle(d, a, b, r);
  }

  lemma SplitWide(l: Layout, ts: seq<Tile>, i: nat, span: nat)
    requires Wide(l, ts) && i < |ts| && l.header <= span && span + l.header <= ts[i].span
    ensures Wide(l, Split(ts, i, span))
  {
  }

  lemma FuseWide(l: Layout, ts: seq<Tile>, i: nat)
    requires Wide(l, ts) && i + 1 < |ts|
    ensures Wide(l, Fuse(ts, i))
  {
  }

  lemma SelfKept(l: Layout, b: Bytes, ts: seq<Tile>, i: nat)
    ensures OthersKept(l, b, b, ts, i)
  {
  }

  // What is in use after fusing was in use before, and its payload was kept.
  lemma FuseKeeps(l: Layout, a: Bytes, b: Bytes, c: Bytes, ts: seq<Tile>, ts': seq<Tile>, i: nat)
    requires LiveKept(l, a, b, ts) && (forall t :: t in ts ==> SamePayload(l, b, c, t))
    requires ts' == ts || (i + 1 < |ts| && ts[i].free && ts' == Fuse(ts, i))
    ensures LiveKept(l, a, c, ts')
  {
    forall t | t in ts' && !t.free ensures SamePayload(l, a, c, t) {
      assert t in ts;
      assert SamePayload(l, a, b, t) && SamePayload(l, b, c, t);
    }
  }

  lemma FreeTwiceOrOnce(ts: seq<Tile>, i: nat, lo: nat, hi: nat)
    requires Tiled(ts, lo, hi) && i < |ts| && NoTwoFree(ts)
    ensures Tiled(Returned(ts, i), lo, hi) && NoTwoFree(Returned(ts, i)) && lo <= hi
    ensures ts[i].free ==> Returned(ts, i) == ts
    ensures !ts[i].free ==> LosesLive(ts, Returned(ts, i), ts[i])
    ensures !ts[i].free && (forall u :: u in ts && u != ts[i] ==> u.free) ==>
      Returned(ts, i) == [Tile(lo, hi - lo, true)]
  {
    hide Tiled, NoTwoFree;
    TiledBounds(ts, lo, hi);
    if ts[i].free {
      ReturnedTwice(ts, i);
    } else {
      ReturnedKeeps(ts, i, lo, hi);
      if forall u :: u in ts && u != ts[i] ==> u.free {
        AllFreeIsOne(Returned(ts, i), lo, hi);
      }
    }
  }

  lemma SwallowList(l: Layout, h: map<nat, Cell<Block>>, head: nat, done: seq<nat>, rest: seq<nat>, v: Block)
    requires Seg(h, head, done + rest, 0) && In(h, done + rest) && |rest| >= 2 && l.over == 0 && rest[0] in h
    requires rest[1] in h
    requires v == h[rest[0]].val.(size := h[rest[0]].val.size + h[rest[1]].val.size)
    ensures h[rest[0]].next == rest[1]
    ensures var h', ps' := h[rest[0] := Cell(v, h[rest[1]].next)], done + ([rest[0]] + rest[2..]);
            && Seg(h', head, ps', 0) && In(h', ps')
            && TilesOf(l, ps', Vals(h', ps')) == Fuse(TilesOf(l, done + rest, Vals(h, done + rest)), |done|)
  {
    hide Seg, Cut, Fuse, TilesOf;
    var q := rest[0];
    SwallowCut(h, head, done, rest, q);
    CutDone(h, head, done, q, rest);
    CutAbsorb(h, head, done, q, rest, v);
    CutDone(h[q := Cell(v, h[rest[1]].next)], head, done, q, [q] + rest[2..]);
    FusedTiles(l, done, rest, Vals(h, done), Vals(h, rest));
  }

  lemma SwallowCut(h: map<nat, Cell<Block>>, head: nat, done: seq<nat>, rest: seq<nat>, q: nat)
    requires Seg(h, head, done + rest, 0) && |rest| >= 2 && rest[0] == q
    ensures Cut(h, head, done, q, rest) && q in h && h[q].next == rest[1] && h[q].next in h
  {
    var p := SegSplit(h, head, done, rest, 0);
    SegIn(h, head, done + rest, 0);
    SegNext(h, q, rest, 0, 0);
    SegIn(h, q, rest, 0);
    SegIn(h, head, done, q);
  }

  class Heap {
    var cells: map<nat, Cell<Block>>
    var freeList: nat
    var base: nat
    var end: nat
    var allocPtr: nat
    var bytes: Bytes
    ghost var ps: seq<nat>

    function L(): Layout
      reads this`base, this`end
    {
      Layout(HDR_SIZE, 0, base, end)
    }

    ghost function Ts(): seq<Tile>
      requires In(cells, ps)
      reads this
    {
      TilesOf(L(), ps, Vals(cells, ps))
    }

    // The list runs through blocks that fill the heap.
    ghost predicate Listed()
      reads this
    {
      && Seg(cells, freeList, ps, 0) && In(cells, ps) && Tiled(Ts(), base, end) && Wide(L(), Ts())
      && base < end == allocPtr && ps != []
    }

    // And no two free blocks are neighbours.
    ghost predicate Valid()
      reads this
    {
      Listed() && NoTwoFree(Ts())
    }

    constructor Init(start: nat, size: nat, memory: Bytes)
      requires start > 0 && HDR_SIZE <= size < 0x1_0000_0000
      ensures Valid() && Ts() == [Tile(start, size, true)] && base == start && end == start + size
    {
      cells := map[start := Cell(Block(size, true), 0)];
      base, end, freeList, allocPtr, ps := start, start + size, start, start + size, [start];
      bytes := Clobber(Layout(HDR_SIZE, 0, start, start + size), memory, start);
      new;
      assert Ts() == [Tile(start, size, true)] && Ts()[1..] == [];
    }

    method StoreHeader(a: nat, c: Cell<Block>)
      modifies this`cells, this`bytes
      ensures cells == old(cells)[a := c] && bytes == Clobber(L(), old(bytes), a)
    {
      cells, bytes := cells[a := c], Clobber(L(), bytes, a);
    }

    // A walk through the whole list is stopped at p.
    ghost predicate AtBlock(p: nat, done: seq<nat>, rest: seq<nat>)
      reads this
    {
      Listed() && Cut(cells, freeList, done, p, rest) && ps == done + rest && rest != [] && rest[0] == p && p in cells
    }

    // Where a block of the list is.
    lemma Locate(p: nat) returns (done: seq<nat>, rest: seq<nat>)
      requires Listed() && p in ps
      ensures AtBlock(p, done, rest)
    {
      var i :| 0 <= i < |ps| && ps[i] == p;
      done, rest := ps[..i], ps[i..];
      assert ps == done + rest;
      var q := SegSplit(cells, freeList, done, rest, 0);
    }

    lemma InTiles(p: nat)
      requires Listed() && p in ps
      ensures Tile(p, cells[p].val.size, cells[p].val.free) in Ts()
    {
      var i :| 0 <= i < |ps| && ps[i] == p;
      assert Ts()[i] == Tile(p, cells[p].val.size, cells[p].val.free);
    }

    lemma IsBlock(t: Tile)
      requires Listed() && t in Ts()
      ensures t.addr in ps && t == Tile(t.addr, cells[t.addr].val.size, cells[t.addr].val.free)
    {
      var i :| 0 <= i < |ps| && Ts()[i] == t;
      assert ps[i] == t.addr;
    }

    // Setting or clearing the free flag of a block.
    method Mark(p: nat, free: bool, ghost done: seq<nat>, ghost rest: seq<nat>)
      requires AtBlock(p, done, rest)
      modifies this`cells, this`bytes
      ensures AtBlock(p, done, rest) && Ts() == old(Ts())[|done| := old(Ts())[|done|].(free := free)]
      ensures cells == old(cells)[p := old(cells)[p].(val := old(cells)[p].val.(free := free))]
      ensures forall t :: t in old(Ts()) ==> SamePayload(L(), old(bytes), bytes, t)
    {
      hide Seg, Tiled, Clobber, SamePayload;
      ghost var h := cells[p := cells[p].(val := cells[p].val.(free := free))];
      SegFrame(cells, h, freeList, done, p);
      SegFrame(cells, h, p, rest, 0);
      MarkTiled(Ts(), |done|, free, base, end);
      HeaderKeeps(L(), bytes, Ts(), |done|);
      CutDone(cells, freeList, done, p, rest);
      SegIn(cells, freeList, ps, 0);
      StoreHeader(p, cells[p].(val := cells[p].val.(free := free)));
      assert Ts() == old(Ts())[|done| := old(Ts())[|done|].(free := free)];
      CutDone(cells, freeList, done, p, rest);
    }

    // The end of a block becomes a free block of its own.
    method SplitBlock(p: nat, need: nat, ghost done: seq<nat>, ghost rest: seq<nat>) returns (ghost rest': seq<nat>)
      requires AtBlock(p, done, rest) && HDR_SIZE <= need && need + HDR_SIZE < cells[p].val.size
      modifies this`cells, this`bytes, this`ps
      ensures AtBlock(p, done, rest') && Ts() == Split(old(Ts()), |done|, need)
      ensures OthersKept(L(), old(bytes), bytes, old(Ts()), |done|)
    {
      hide Seg, Cut, Tiled, Clobber, OthersKept, Split;
      CutDone(cells, freeList, done, p, rest);
      assert Ts()[|done|] == Tile(p, cells[p].val.size, cells[p].val.free);
      SplitKeeps(L(), bytes, Ts(), |done|, need, true);
      SplitWide(L(), Ts(), |done|, need);
      var b, n := cells[p], p + need;
      StoreHeader(n, Cell(Block(b.val.size - need, true), b.next));
      StoreHeader(p, Cell(b.val.(size := need), n));
      rest' := [p, n] + rest[1..];
      SplitList(L(), old(cells), cells, freeList, done, p, rest, need);
      CutDone(cells, freeList, done, p, rest');
      ps := done + rest';
    }

    // Splitting a free block that is large enough and taking it into use.
    method Take(p: nat, need: nat, ghost done: seq<nat>, ghost rest: seq<nat>) returns (ghost t: Tile)
      requires AtBlock(p, done, rest) && NoTwoFree(Ts()) && cells[p].val.free && HDR_SIZE <= need <= cells[p].val.size
      modifies this`cells, this`bytes, this`ps
      ensures Valid() && t.addr == p && t.span >= need && t !in old(Ts()) && GainsLive(old(Ts()), Ts(), t)
      ensures LiveKept(L(), old(bytes), bytes, old(Ts()))
    {
      hide Seg, Cut, Tiled, LiveKept, GainsLive, SamePayload, OthersKept, Split, NoTwoFree;
      ghost var ts, i, rest' := Ts(), |done|, rest;
      var remainder := cells[p].val.size - need;
      ghost var split := remainder >= HDR_SIZE + 8;
      assert ts[i] == Tile(p, cells[p].val.size, true);
      TakenGains(ts, i, need, split, base, end);
      TakenKeeps(ts, i, need, split, base, end);
      t := Tile(p, if split then need else ts[i].span, false);
      SelfKept(L(), bytes, ts, i);
      if remainder >= HDR_SIZE + 8 { rest' := SplitBlock(p, need, done, rest); }
      ghost var ts1, b1 := Ts(), bytes;
      Mark(p, false, done, rest');
      TakingKeeps(L(), old(bytes), b1, bytes, ts, i, ts1, need);
    }

    // The first free block that is large enough.
    method FindBlock(need: nat) returns (cur: nat, ghost n: nat)
      requires Valid()
      ensures n <= |ps| && cur == (if n < |ps| then ps[n] else 0) && (cur == 0 <==> n == |ps|)
      ensures cur != 0 ==> cur in cells && cells[cur].val.free && cells[cur].val.size >= need
      ensures NoneFits(Ts(), n, need)
    {
      hide Seg, Tiled, NoTwoFree, Wide, NoneFits, TilesOf;
      cur, n := freeList, 0;
      SegIn(cells, freeList, ps, 0);
      SegStart(cells, freeList, ps, 0);
      NoneFitsYet(Ts(), need);
      while cur != 0
        invariant n <= |ps| && cur == (if n < |ps| then ps[n] else 0) && NoneFits(Ts(), n, need)
        decreases |ps| - n
      {
        if cells[cur].val.free && cells[cur].val.size >= need { return; }
        SegNext(cells, freeList, ps, 0, n);
        TileAt(L(), ps, Vals(cells, ps), n);
        NoneFitsMore(Ts(), n, need);
        cur, n := cells[cur].next, n + 1;
      }
    }

    /** malloc: null only for size 0 or if no free block is large enough. Otherwise one more block is in use, at
        least `size` bytes of it behind the pointer, and every payload that was in use is untouched. */
    method Malloc(size: nat) returns (ptr: nat, ghost t: Tile)
      requires Valid()
      modifies this
      ensures Valid() && L() == old(L())
      ensures ptr == 0 <==> size == 0 || NoneFree(old(Ts()), Need(size))
      ensures ptr == 0 ==> Ts() == old(Ts()) && bytes == old(bytes) && cells == old(cells) && ps == old(ps)
      ensures ptr != 0 ==> && ptr == t.addr + HDR_SIZE && t.span >= Need(size)
                           && t !in old(Ts()) && GainsLive(old(Ts()), Ts(), t)
      ensures LiveKept(L(), old(bytes), bytes, old(Ts()))
    {
      hide Seg, Cut, Tiled, LiveKept, GainsLive, Need, NoTwoFree;
      KeptRefl(L(), bytes, Ts());
      t := Tile(0, 0, false);
      if size == 0 { return 0, t; }
      var need := Need(size);
      var cur, n := FindBlock(need);
      if cur != 0 {
        assert Ts()[n] == Tile(cur, cells[cur].val.size, true);
        ghost var done, rest := Locate(cur);
        t := Take(cur, need, done, rest);
        return cur + HDR_SIZE, t;
      }
      var blk := ExtendHeap(size);
      if blk == 0 { return 0, t; }
      assert false;
    }

    /** extend_heap: the bump pointer stands at the end of the heap from the start, so there is never room for
        another chunk. */
    method ExtendHeap(need: nat) returns (blk: nat)
      requires Valid()
      ensures blk == 0
    {
      var chunk := AlignUp(need + HDR_SIZE, 4096);
      if allocPtr + chunk > end { return 0; }
      assert false;
    }

    // Block q swallows the one behind it.
    method Swallow(q: nat, v: Block, ghost done: seq<nat>, ghost rest: seq<nat>)
      requires Listed() && ps == done + rest && |rest| >= 2 && q == rest[0] && q in cells && rest[1] in cells
      requires v == cells[q].val.(size := cells[q].val.size + cells[rest[1]].val.size)
      modifies this`cells, this`bytes, this`ps
      ensures Listed() && Ts() == Fuse(old(Ts()), |done|) && ps == done + ([q] + rest[2..])
      ensures q in cells && cells[q].val == v
      ensures forall t :: t in old(Ts()) ==> SamePayload(L(), old(bytes), bytes, t)
    {
      hide Seg, Tiled, Clobber, SamePayload, Fuse, TilesOf;
      SwallowList(L(), cells, freeList, done, rest, v);
      FuseTiled(Ts(), |done|, base, end);
      FuseWide(L(), Ts(), |done|);
      TileAt(L(), ps, Vals(cells, ps), |done|);
      HeaderKeeps(L(), bytes, Ts(), |done|);
      StoreHeader(q, Cell(v, cells[cells[q].next].next));
      ps := done + ([q] + rest[2..]);
    }

    method FuseNext(p: nat, ghost done: seq<nat>, ghost rest: seq<nat>, ghost b0: Bytes) returns (ghost rest': seq<nat>)
      requires Listed() && ps == done + rest && rest != [] && p == rest[0] && p in cells && cells[p].val.free
      requires LiveKept(L(), b0, bytes, Ts())
      modifies this`cells, this`bytes, this`ps
      ensures Listed() && ps == done + rest' && rest' != [] && p == rest'[0] && p in cells && cells[p].val.free
      ensures Ts() == FusedNext(old(Ts()), |done|) && LiveKept(L(), b0, bytes, Ts())
    {
      hide Seg, Tiled, LiveKept, Fuse, SamePayload, TilesOf, Wide;
      rest' := rest;
      assert ps[|done|] == p && |ps| == |done| + |rest|;
      SegNext(cells, freeList, ps, 0, |done|);
      SegIn(cells, freeList, ps, 0);
      var next := cells[p].next;
      ghost var ts, b := Ts(), bytes;
      TileAt(L(), ps, Vals(cells, ps), |done|);
      if |rest| > 1 { TileAt(L(), ps, Vals(cells, ps), |done| + 1); }
      if next != 0 && cells[next].val.free {
        assert next == ps[|done| + 1] == rest[1];
        Swallow(p, cells[p].val.(size := cells[p].val.size + cells[next].val.size), done, rest);
        rest' := [p] + rest[2..];
        FuseKeeps(L(), b0, b, bytes, ts, Ts(), |done|);
      }
    }

    method FusePrev(p: nat, ghost done: seq<nat>, ghost rest: seq<nat>, ghost b0: Bytes)
      requires Listed() && ps == done + rest && rest != [] && p == rest[0] && p in cells && cells[p].val.free
      requires LiveKept(L(), b0, bytes, Ts())
      modifies this`cells, this`bytes, this`ps
      ensures Listed() && Ts() == FusedPrev(old(Ts()), |done|) && LiveKept(L(), b0, bytes, Ts())
    {
      hide Seg, Tiled, LiveKept, Fuse, SamePayload, TilesOf, Wide;
      assert ps[|done|] == p && |ps| == |done| + |rest|;
      var prev := FindPrev(p, |done|);
      SegIn(cells, freeList, ps, 0);
      ghost var ts, b, i := Ts(), bytes, |done|;
      if i > 0 { TileAt(L(), ps, Vals(cells, ps), i - 1); }
      if prev != 0 && prev != p && cells[prev].val.free {
        ghost var rest' := [prev] + rest;
        assert ps == done[..i - 1] + rest' && ts[i - 1].free;
        assert rest'[1] == p;
        Swallow(prev, cells[prev].val.(size := cells[prev].val.size + cells[p].val.size), done[..i - 1], rest');
        FuseKeeps(L(), b0, b, bytes, ts, Ts(), i - 1);
      }
    }

    // The block in front of ps[i], found by following the list from its start.
    method FindPrev(p: nat, ghost i: nat) returns (prev: nat)
      requires Listed() && i < |ps| && p == ps[i]
      ensures prev == if i == 0 then 0 else ps[i - 1]
    {
      hide Tiled;
      prev := freeList;
      ghost var j := 0;
      SegIn(cells, freeList, ps, 0);
      while prev != 0 && cells[prev].next != p
        invariant j <= |ps| && prev == (if j < |ps| then ps[j] else 0) && (i > 0 ==> j < i)
        decreases |ps| - j
      {
        SegNext(cells, freeList, ps, 0, j);
        prev, j := cells[prev].next, j + 1;
      }
      if prev != 0 { SegNext(cells, freeList, ps, 0, j); }
    }

    /** free. Freeing a block in use fuses it with its free neighbours; if it was the last one in use the heap is
        back to its single initial block. Freeing a free block changes nothing but its header. */
    method Free(ptr: nat)
      requires Valid() && (ptr != 0 ==> ptr >= HDR_SIZE && ptr - HDR_SIZE in ps)
      modifies this
      ensures Valid() && L() == old(L()) && LiveKept(L(), old(bytes), bytes, Ts())
      ensures ptr == 0 || old(cells)[ptr - HDR_SIZE].val.free ==> Ts() == old(Ts())
      ensures ptr != 0 && !old(cells)[ptr - HDR_SIZE].val.free ==>
                var t := Tile(ptr - HDR_SIZE, old(cells)[ptr - HDR_SIZE].val.size, false);
                && LosesLive(old(Ts()), Ts(), t)
                && ((forall u :: u in old(Ts()) && u != t ==> u.free) ==> Ts() == [Tile(base, end - base, true)])
    {
      hide Seg, Cut, Tiled, LiveKept, NoTwoFree, SamePayload, Wide, LosesLive, TilesOf, FusedNext, FusedPrev;
      KeptRefl(L(), bytes, Ts());
      if ptr == 0 { return; }
      var p := ptr - HDR_SIZE;
      ghost var done, rest := Locate(p);
      ghost var ts, i, b0 := Ts(), |done|, bytes;
      TileAt(L(), ps, Vals(cells, ps), i);
      FreeTwiceOrOnce(ts, i, base, end);
      Mark(p, true, done, rest);
      FreeingKeeps(L(), b0, bytes, ts, i);
      rest := FuseNext(p, done, rest, b0);
      FusePrev(p, done, rest, b0);
    }

    /** realloc: the pointer stays if the block is large enough; otherwise the whole old payload moves to a new
        block. No other payload changes, and when no block can be had nothing changes at all. */
    method Realloc(ptr: nat, size: nat) returns (r: nat, ghost n: Tile)
      requires Valid() && (ptr != 0 ==> ptr >= HDR_SIZE && ptr - HDR_SIZE in ps && !cells[ptr - HDR_SIZE].val.free)
      modifies this
      ensures Valid()
      ensures ptr == 0 ==> (r == 0 <==> size == 0 || NoneFree(old(Ts()), Need(size)))
      ensures ptr == 0 && r != 0 ==>
        r == n.addr + HDR_SIZE && n.span >= HDR_SIZE + size && GainsLive(old(Ts()), Ts(), n)
      ensures ptr == 0 ==> LiveKept(L(), old(bytes), bytes, old(Ts()))
      ensures ptr != 0 ==>
                var t := Tile(ptr - HDR_SIZE, old(cells)[ptr - HDR_SIZE].val.size, false);
                && (size == 0 ==> r == 0 && LosesLive(old(Ts()), Ts(), t) && LiveKept(L(), old(bytes), bytes, Ts()))
                && (size > 0 ==> (r == 0 <==> t.span < HDR_SIZE + size && NoneFree(old(Ts()), Need(size))))
                && (size > 0 && r == 0 ==> Ts() == old(Ts()) && bytes == old(bytes))
                && (size > 0 && t.span >= HDR_SIZE + size ==> r == ptr && Ts() == old(Ts()) && bytes == old(bytes))
                && (size > 0 && r != 0 && t.span < HDR_SIZE + size ==>
                      && r == n.addr + HDR_SIZE && n.span >= HDR_SIZE + size && ReplacesLive(old(Ts()), Ts(), t, n)
                      && t.span >= HDR_SIZE && SamePrefix(old(bytes), ptr, bytes, r, t.span - HDR_SIZE)
                      && forall u :: u in old(Ts()) && !u.free && u != t ==> SamePayload(L(), old(bytes), bytes, u))
    {
      hide Seg, Cut, Tiled, Clobber, LiveKept, GainsLive, LosesLive, ReplacesLive, NoTwoFree, SamePrefix, SamePayload,
           Copied, Need;
      n := Tile(0, 0, false);
      if ptr == 0 {
        r, n := Malloc(size);
        return;
      }
      if size == 0 {
        Free(ptr);
        return 0, n;
      }
      InTiles(ptr - HDR_SIZE);
      var usable := cells[ptr - HDR_SIZE].val.size - HDR_SIZE;
      if usable >= size { return ptr, n; }
      r, n := Grow(ptr, size);
    }

    // A larger block is allocated, the bytes moved, the old block freed.
    method Grow(ptr: nat, size: nat) returns (r: nat, ghost n: Tile)
      requires Valid() && ptr >= HDR_SIZE && ptr - HDR_SIZE in ps && !cells[ptr - HDR_SIZE].val.free && size > 0
      requires HDR_SIZE <= cells[ptr - HDR_SIZE].val.size < HDR_SIZE + size
      modifies this
      ensures Valid() && L() == old(L())
      ensures var t := Tile(ptr - HDR_SIZE, old(cells)[ptr - HDR_SIZE].val.size, false);
              && (r == 0 <==> NoneFree(old(Ts()), Need(size)))
              && (r == 0 ==> Ts() == old(Ts()) && bytes == old(bytes))
              && (r != 0 ==>
                    && r == n.addr + HDR_SIZE && n.span >= HDR_SIZE + size && ReplacesLive(old(Ts()), Ts(), t, n)
                    && SamePrefix(old(bytes), ptr, bytes, r, t.span - HDR_SIZE)
                    && forall u :: u in old(Ts()) && !u.free && u != t ==> SamePayload(L(), old(bytes), bytes, u))
    {
      hide Seg, Cut, Tiled, Clobber, LiveKept, GainsLive, LosesLive, NoTwoFree, SamePrefix, SamePayload, Copied, Need,
           Wide;
      ghost var ts, t := Ts(), Tile(ptr - HDR_SIZE, cells[ptr - HDR_SIZE].val.size, false);
      InTiles(ptr - HDR_SIZE);
      var usable := cells[ptr - HDR_SIZE].val.size - HDR_SIZE;
      r, n := Malloc(size);
      if r == 0 { return; }
      assert t in Ts() by { GainKeeps(ts, Ts(), n, t); }
      IsBlock(t);
      ghost var ts1, b1 := Ts(), bytes;
      bytes := Copied(bytes, ptr, r, usable);
      ghost var b2 := bytes;
      Free(ptr);
      GrowKeeps(L(), old(bytes), b1, b2, bytes, ts, ts1, Ts(), t, n);
    }
  }
}
