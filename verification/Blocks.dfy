/** Blocks laid out in memory, each a header and the payload behind it: what the kernel's heap
    (kernel/src/mm/heap.rs) and the heap of the programs (userspace/src/rt.rs) have in common. */
module Blocks {
  import opened Wrappers
  import opened Chains
  import opened Tiles

  // The heap from lo to hi, with headers of `header` bytes; `over` of them are not counted in a block's size.
  datatype Layout = Layout(header: nat, over: nat, lo: nat, hi: nat)

  datatype Block = Block(size: nat, free: bool)

  function TilesOf(l: Layout, ps: seq<nat>, vs: seq<Block>): (ts: seq<Tile>)
    requires |ps| == |vs|
    ensures |ts| == |ps|
  {
    seq(|ps|, i requires 0 <= i < |ps| => Tile(ps[i], l.over + vs[i].size, vs[i].free))
  }

  lemma TileAt(l: Layout, ps: seq<nat>, vs: seq<Block>, i: nat)
    requires |ps| == |vs| && i < |ps|
    ensures TilesOf(l, ps, vs)[i] == Tile(ps[i], l.over + vs[i].size, vs[i].free)
  {
  }

  // Every block has room for its header.
  ghost predicate Wide(l: Layout, ts: seq<Tile>) { forall i :: 0 <= i < |ts| ==> ts[i].span >= l.header }

  lemma CountedIsWide(l: Layout, ps: seq<nat>, vs: seq<Block>)
    requires |ps| == |vs| && l.over >= l.header
    ensures Wide(l, TilesOf(l, ps, vs))
  {
  }

  // What each address holds; None where a header was written last.
  type Bytes = nat -> Option<bv8>

  function Clobber(l: Layout, b: Bytes, a: nat): Bytes { (x: nat) => if a <= x < a + l.header then None else b(x) }

  // The payload of t reads the same.
  ghost predicate SamePayload(l: Layout, b: Bytes, b': Bytes, t: Tile) {
    forall x: nat :: t.addr + l.header <= x < t.addr + t.span ==> b'(x) == b(x)
  }

  // The payload of every block in use reads the same.
  ghost predicate LiveKept(l: Layout, b: Bytes, b': Bytes, ts: seq<Tile>) {
    forall t :: t in ts && !t.free ==> SamePayload(l, b, b', t)
  }

  // All payloads but that of block i read the same.
  ghost predicate OthersKept(l: Layout, b: Bytes, b': Bytes, ts: seq<Tile>, i: nat) {
    forall j :: 0 <= j < |ts| && j != i ==> SamePayload(l, b, b', ts[j])
  }

  // Writing a block's header disturbs no payload.
  lemma HeaderKeeps(l: Layout, b: Bytes, ts: seq<Tile>, i: nat)
    requires Tiled(ts, l.lo, l.hi) && i < |ts| && Wide(l, ts)
    ensures forall t :: t in ts ==> SamePayload(l, b, Clobber(l, b, ts[i].addr), t)
  {
    TiledBounds(ts, l.lo, l.hi);
  }

  // Splitting the end off a block keeps the rest of its payload and all other payloads.
  lemma SplitKeeps(l: Layout, b: Bytes, ts: seq<Tile>, i: nat, span: nat, split: bool)
    requires Tiled(ts, l.lo, l.hi) && i < |ts| && ts[i].span >= span >= l.header
    requires split ==> ts[i].span >= span + l.header
    ensures var b' := if split then Clobber(l, Clobber(l, b, ts[i].addr + span), ts[i].addr) else b;
            && SamePrefix(b, ts[i].addr + l.header, b', ts[i].addr + l.header, span - l.header)
            && OthersKept(l, b, b', ts, i)
  {
    TiledBounds(ts, l.lo, l.hi);
  }

  lemma TilesConcat(l: Layout, a: seq<nat>, b: seq<nat>, va: seq<Block>, vb: seq<Block>)
    requires |a| == |va| && |b| == |vb|
    ensures TilesOf(l, a + b, va + vb) == TilesOf(l, a, va) + TilesOf(l, b, vb)
  {
  }

  // An address strictly inside a block is no block's address.
  lemma InsideIsFresh(l: Layout, ps: seq<nat>, vs: seq<Block>, lo: nat, hi: nat, i: nat, a: nat)
    requires |ps| == |vs| && Tiled(TilesOf(l, ps, vs), lo, hi) && i < |ps| && ps[i] < a < ps[i] + l.over + vs[i].size
    ensures a !in ps
  {
    TiledBounds(TilesOf(l, ps, vs), lo, hi);
    var ts := TilesOf(l, ps, vs);
    forall j | 0 <= j < |ps| ensures ps[j] != a {
      assert ts[j].addr == ps[j] && ts[i].addr == ps[i];
    }
  }

  lemma SplitTiles(l: Layout, done: seq<nat>, rest: seq<nat>, vd: seq<Block>, vr: seq<Block>, size: nat)
    requires |done| == |vd| && |rest| == |vr| && rest != [] && vr[0].size >= size + l.over
    ensures TilesOf(l, done + ([rest[0], rest[0] + l.over + size] + rest[1..]),
                    vd + ([vr[0].(size := size), Block(vr[0].size - size - l.over, true)] + vr[1..]))
            == Split(TilesOf(l, done + rest, vd + vr), |done|, l.over + size)
  {
    hide TilesOf, Split;
    var v := vr[0];
    var pair, vpair := [rest[0], rest[0] + l.over + size], [v.(size := size), Block(v.size - size - l.over, true)];
    TilesConcat(l, done, pair + rest[1..], vd, vpair + vr[1..]);
    TilesConcat(l, pair, rest[1..], vpair, vr[1..]);
    PairTiles(l, rest[0], v, size);
    TilesConcat(l, done, rest, vd, vr);
    HeadTile(l, rest, vr);
    SplitAt(TilesOf(l, done, vd), Tile(rest[0], l.over + v.size, v.free), TilesOf(l, rest[1..], vr[1..]),
            l.over + size);
  }

  lemma PairTiles(l: Layout, p: nat, v: Block, size: nat)
    requires v.size >= size + l.over
    ensures TilesOf(l, [p, p + l.over + size], [v.(size := size), Block(v.size - size - l.over, true)])
            == [Tile(p, l.over + size, v.free), Tile(p + (l.over + size), l.over + v.size - (l.over + size), true)]
  {
  }

  lemma HeadTile(l: Layout, ps: seq<nat>, vs: seq<Block>)
    requires |ps| == |vs| && ps != []
    ensures TilesOf(l, ps, vs) == [Tile(ps[0], l.over + vs[0].size, vs[0].free)] + TilesOf(l, ps[1..], vs[1..])
  {
  }

  // What split_block does to the cells: block p keeps `size` bytes, the rest becomes a block of its own behind it.
  lemma SplitCells(l: Layout, h: map<nat, Cell<Block>>, head: nat, done: seq<nat>, p: nat, rest: seq<nat>, size: nat,
                   lo: nat, hi: nat)
    requires Cut(h, head, done, p, rest) && rest != [] && p in h
    requires Tiled(TilesOf(l, done + rest, Vals(h, done) + Vals(h, rest)), lo, hi)
    requires size > 0 && h[p].val.size > size + l.over
    ensures var n := p + l.over + size;
            var right := Cell(Block(h[p].val.size - size - l.over, true), h[p].next);
            var h' := h[n := right][p := Cell(h[p].val.(size := size), n)];
            && Cut(h', head, done, p, [p, n] + rest[1..])
            && Vals(h', done) == Vals(h, done)
            && Vals(h', [p, n] + rest[1..]) ==
                [h[p].val.(size := size), Block(h[p].val.size - size - l.over, true)] + Vals(h, rest)[1..]
  {
    hide Tiled, Cut;
    var n := p + l.over + size;
    var right := Cell(Block(h[p].val.size - size - l.over, true), h[p].next);
    var h' := h[n := right][p := Cell(h[p].val.(size := size), n)];
    CutDone(h, head, done, p, rest);
    InsideIsFresh(l, done + rest, Vals(h, done) + Vals(h, rest), lo, hi, |done|, n);
    SplitSegs(h, h', head, done, p, rest, n);
    SplitVals(h, h', done, p, rest, n);
  }

  lemma SplitSegs(h: map<nat, Cell<Block>>, h': map<nat, Cell<Block>>, head: nat, done: seq<nat>, p: nat,
                  rest: seq<nat>, n: nat)
    requires Cut(h, head, done, p, rest) && rest != [] && p in h && n != 0 && n !in done + rest && n in h' && p in h'
    requires h'[n].next == h[p].next && h'[p].next == n
    requires forall x :: x in h && x != n && x != p ==> x in h' && h'[x] == h[x]
    ensures Cut(h', head, done, p, [p, n] + rest[1..]) && n !in rest && p !in done && p !in rest[1..]
  {
    hide Seg;
    SegIn(h, p, rest, 0);
    SegRest(h, p, rest);
    assert forall x :: x in rest ==> x in done + rest;
    assert forall x :: x in done ==> x in done + rest;
    SegFrame(h, h', head, done, p);
    Prepended(h, h', h[p].next, rest[1..], n);
    Prepended(h', h', n, [n] + rest[1..], p);
    assert [p] + ([n] + rest[1..]) == [p, n] + rest[1..];
    CutIs(h', head, done, p, [p, n] + rest[1..]);
  }

  lemma SegRest(h: map<nat, Cell<Block>>, p: nat, rest: seq<nat>)
    requires Seg(h, p, rest, 0) && rest != []
    ensures p in h && p != 0 && rest[0] == p && Seg(h, h[p].next, rest[1..], 0) && p !in rest[1..]
  {
  }

  lemma SplitVals(h: map<nat, Cell<Block>>, h': map<nat, Cell<Block>>, done: seq<nat>, p: nat, rest: seq<nat>, n: nat)
    requires In(h, done) && In(h, rest) && rest != [] && rest[0] == p && p !in done && p !in rest[1..] && n !in done
    requires n !in rest && n in h' && p in h'
    requires forall x :: x in h && x != n && x != p ==> x in h' && h'[x] == h[x]
    ensures In(h', done) && In(h', [p, n] + rest[1..]) && Vals(h', done) == Vals(h, done)
    ensures Vals(h', [p, n] + rest[1..]) == [h'[p].val, h'[n].val] + Vals(h, rest)[1..]
  {
    assert forall i :: 0 <= i < |done| ==> done[i] in done;
    assert forall i :: 0 <= i < |rest| - 1 ==> rest[1..][i] == rest[i + 1] && rest[1..][i] in rest[1..];
  }

  lemma SplitList(l: Layout, h: map<nat, Cell<Block>>, h': map<nat, Cell<Block>>, head: nat, done: seq<nat>, p: nat,
                  rest: seq<nat>, size: nat)
    requires Cut(h, head, done, p, rest) && rest != [] && p in h && In(h, done + rest)
    requires Tiled(TilesOf(l, done + rest, Vals(h, done + rest)), l.lo, l.hi)
    requires size > 0 && h[p].val.size > size + l.over
    requires h' == h[p + l.over + size := Cell(Block(h[p].val.size - size - l.over, true), h[p].next)]
                    [p := Cell(h[p].val.(size := size), p + l.over + size)]
    ensures var rest' := [p, p + l.over + size] + rest[1..];
            && Cut(h', head, done, p, rest') && In(h', done + rest') && rest'[0] == p
            && TilesOf(l, done + rest', Vals(h', done + rest')) ==
                Split(TilesOf(l, done + rest, Vals(h, done + rest)), |done|, l.over + size)
            && Tiled(TilesOf(l, done + rest', Vals(h', done + rest')), l.lo, l.hi)
  {
    hide Seg, Cut, Tiled, Split, TilesOf;
    var rest' := [p, p + l.over + size] + rest[1..];
    CutDone(h, head, done, p, rest);
    SplitCells(l, h, head, done, p, rest, size, l.lo, l.hi);
    CutDone(h', head, done, p, rest');
    SplitTiles(l, done, rest, Vals(h, done), Vals(h, rest), size);
    TileAt(l, done + rest, Vals(h, done + rest), |done|);
    SplitTiled(TilesOf(l, done + rest, Vals(h, done + rest)), |done|, l.over + size, l.lo, l.hi);
  }

  // Merging block i with the one behind it, both free: one turn of merge_adjacent.
  lemma AbsorbTiles(l: Layout, done: seq<nat>, rest: seq<nat>, vd: seq<Block>, vr: seq<Block>, lo: nat, hi: nat)
    requires |done| == |vd| && |rest| == |vr| >= 2 && vr[0].free && vr[1].free
    requires Tiled(TilesOf(l, done + rest, vd + vr), lo, hi)
    ensures var v := vr[0].(size := vr[0].size + l.over + vr[1].size);
            var ts := TilesOf(l, done + rest, vd + vr);
            var ts' := TilesOf(l, done + ([rest[0]] + rest[2..]), vd + ([v] + vr[2..]));
            && Tiled(ts', lo, hi) && (forall t :: t in ts' && !t.free ==> t in ts)
            && Merge(TilesOf(l, rest, vr)) == Merge(TilesOf(l, [rest[0]] + rest[2..], [v] + vr[2..]))
  {
    var v := vr[0].(size := vr[0].size + l.over + vr[1].size);
    var d, r, r' := TilesOf(l, done, vd), TilesOf(l, rest, vr), TilesOf(l, [rest[0]] + rest[2..], [v] + vr[2..]);
    TilesConcat(l, done, rest, vd, vr);
    TilesConcat(l, done, [rest[0]] + rest[2..], vd, [v] + vr[2..]);
    assert r' == [r[0].(span := r[0].span + r[1].span)] + r[2..];
    var mid := TiledCut(d, r, lo, hi);
    assert r[1..][1..] == r[2..] && r'[1..] == r[2..];
    TiledConcat(d, r', lo, mid, hi);
  }

  lemma MergeSkip(l: Layout, done: seq<nat>, rest: seq<nat>, vd: seq<Block>, vr: seq<Block>)
    requires |done| == |vd| && |rest| == |vr| >= 2 && !(vr[0].free && vr[1].free)
    ensures TilesOf(l, done, vd) + Merge(TilesOf(l, rest, vr)) ==
        TilesOf(l, done + [rest[0]], vd + [vr[0]]) + Merge(TilesOf(l, rest[1..], vr[1..]))
  {
    hide TilesOf, Merge;
    var d, ts := TilesOf(l, done, vd), TilesOf(l, rest, vr);
    TileAt(l, rest, vr, 0);
    TileAt(l, rest, vr, 1);
    MergeStep(ts);
    HeadTile(l, rest, vr);
    assert ts[1..] == TilesOf(l, rest[1..], vr[1..]);
    TilesConcat(l, done, [rest[0]], vd, [vr[0]]);
    HeadTile(l, [rest[0]], [vr[0]]);
    assert TilesOf(l, [rest[0]], [vr[0]]) == [ts[0]];
    assert d + ([ts[0]] + Merge(ts[1..])) == (d + [ts[0]]) + Merge(ts[1..]);
  }

  // None of the first n blocks is free and large enough.
  ghost predicate NoneFits(ts: seq<Tile>, n: nat, span: nat) {
    forall i :: 0 <= i < n && i < |ts| ==> !(ts[i].free && ts[i].span >= span)
  }

  lemma NoneFitsYet(ts: seq<Tile>, span: nat)
    ensures NoneFits(ts, 0, span)
  {
  }

  lemma NoneFitsMore(ts: seq<Tile>, n: nat, span: nat)
    requires NoneFits(ts, n, span) && n < |ts| && !(ts[n].free && ts[n].span >= span)
    ensures NoneFits(ts, n + 1, span)
  {
  }

  lemma KeptRefl(l: Layout, b: Bytes, ts: seq<Tile>)
    ensures LiveKept(l, b, b, ts)
  {
  }

  lemma KeptSub(l: Layout, b: Bytes, b': Bytes, ts: seq<Tile>, ts': seq<Tile>)
    requires LiveKept(l, b, b', ts) && forall t :: t in ts' && !t.free ==> t in ts
    ensures LiveKept(l, b, b', ts')
  {
  }

  lemma Second(h: map<nat, Cell<Block>>, head: nat, done: seq<nat>, p: nat, rest: seq<nat>)
    requires Cut(h, head, done, p, rest) && p != 0 && p in h && h[p].next != 0
    ensures |rest| >= 2 && h[p].next == rest[1] && h[p].next in h
  {
    assert rest != [] && Seg(h, h[p].next, rest[1..], 0);
    assert rest[1..] != [] ==> rest[1..][0] == rest[1];
  }

  lemma LastOne(h: map<nat, Cell<Block>>, head: nat, done: seq<nat>, p: nat, rest: seq<nat>)
    requires Cut(h, head, done, p, rest) && (p != 0 && p in h ==> h[p].next == 0)
    ensures |rest| < 2
  {
    if rest != [] { assert Seg(h, h[p].next, rest[1..], 0); }
  }

  lemma KeptMore(l: Layout, a: Bytes, b: Bytes, c: Bytes, ts: seq<Tile>)
    requires LiveKept(l, a, b, ts) && forall t :: t in ts ==> SamePayload(l, b, c, t)
    ensures LiveKept(l, a, c, ts)
  {
    forall t | t in ts && !t.free ensures SamePayload(l, a, c, t) {
      assert SamePayload(l, a, b, t) && SamePayload(l, b, c, t);
    }
  }

  // Taking a free block, split or not, keeps the payloads in use.
  lemma TakingKeeps(l: Layout, a: Bytes, b: Bytes, c: Bytes, ts: seq<Tile>, i: nat, ts1: seq<Tile>, span: nat)
    requires i < |ts| && ts[i].free && OthersKept(l, a, b, ts, i)
    requires span <= ts[i].span && (ts1 == ts || ts1 == Split(ts, i, span))
    requires forall t :: t in ts1 ==> SamePayload(l, b, c, t)
    ensures LiveKept(l, a, c, ts)
  {
    forall t | t in ts && !t.free ensures SamePayload(l, a, c, t) {
      var j :| 0 <= j < |ts| && ts[j] == t;
      assert SamePayload(l, a, b, ts[j]);
      assert t in ts1 by { assert ts1 == ts || ts1[if j < i then j else j + 1] == t; }
    }
  }

  lemma FreeingKeeps(l: Layout, a: Bytes, b: Bytes, ts: seq<Tile>, i: nat)
    requires i < |ts| && forall t :: t in ts ==> SamePayload(l, a, b, t)
    ensures LiveKept(l, a, b, ts[i := ts[i].(free := true)])
  {
  }

  lemma FreeTiles(l: Layout, ts: seq<Tile>, marked: seq<Tile>, i: nat)
    requires Tiled(ts, l.lo, l.hi) && i < |ts| && !ts[i].free && marked == ts[i := ts[i].(free := true)]
    ensures LosesLive(ts, Merge(marked), ts[i]) && NoTwoFree(Merge(marked)) && SameLive(marked, Merge(marked))
    ensures l.lo <= l.hi
    ensures (forall u :: u in ts && u != ts[i] ==> u.free) ==> Merge(marked) == [Tile(l.lo, l.hi - l.lo, true)]
  {
    TiledBounds(ts, l.lo, l.hi);
    MarkLoses(ts, i, l.lo, l.hi);
    MarkTiled(ts, i, true, l.lo, l.hi);
    MergeLive(marked);
    MergeCanonical(marked);
    if forall u :: u in ts && u != ts[i] ==> u.free {
      TiledSpans(ts, l.lo, l.hi);
      forall k | 0 <= k < |marked| ensures marked[k].free { assert k != i ==> ts[k] in ts && ts[k] != ts[i]; }
      MergeAllFree(marked, l.lo, l.hi);
    }
  }

  lemma KeptTrans(l: Layout, a: Bytes, b: Bytes, c: Bytes, ts: seq<Tile>, ts': seq<Tile>)
    requires LiveKept(l, a, b, ts) && LiveKept(l, b, c, ts') && SameLive(ts, ts')
    ensures LiveKept(l, a, c, ts')
  {
    forall t | t in ts' && !t.free ensures SamePayload(l, a, c, t) {
      assert SamePayload(l, a, b, t) && SamePayload(l, b, c, t);
    }
  }

  // ptr::copy_nonoverlapping
  function Copied(b: Bytes, src: nat, dst: nat, n: nat): Bytes {
    (x: nat) => if dst <= x < dst + n then b(src + (x - dst)) else b(x)
  }

  // n bytes at p' read now what n bytes at p read before.
  ghost predicate SamePrefix(b: Bytes, p: nat, b': Bytes, p': nat, n: nat) {
    forall x: nat :: p' <= x < p' + n ==> b'(x) == b(p + (x - p'))
  }

  lemma GainKeeps(ts: seq<Tile>, ts': seq<Tile>, n: Tile, t: Tile)
    requires GainsLive(ts, ts', n) && t in ts && !t.free
    ensures t in ts'
  {
  }

  lemma ShrinkKeeps(l: Layout, b: Bytes, b': Bytes, ts: seq<Tile>, i: nat)
    requires i < |ts| && OthersKept(l, b, b', ts, i)
    ensures forall u :: u in ts && u != ts[i] ==> SamePayload(l, b, b', u)
  {
  }

  // Moving a block: allocate n, copy, free t.
  lemma GrowKeeps(l: Layout, b0: Bytes, b1: Bytes, b2: Bytes, b3: Bytes, ts: seq<Tile>, ts1: seq<Tile>, ts3: seq<Tile>,
                  t: Tile, n: Tile)
    requires Tiled(ts1, l.lo, l.hi) && t in ts && !t.free && n !in ts && t.span >= l.header && n.span >= t.span
    requires GainsLive(ts, ts1, n) && LiveKept(l, b0, b1, ts)
    requires b2 == Copied(b1, t.addr + l.header, n.addr + l.header, t.span - l.header)
    requires LosesLive(ts1, ts3, t) && LiveKept(l, b2, b3, ts3)
    ensures ReplacesLive(ts, ts3, t, n)
    ensures SamePrefix(b0, t.addr + l.header, b3, n.addr + l.header, t.span - l.header)
    ensures forall u :: u in ts && !u.free && u != t ==> SamePayload(l, b0, b3, u)
  {
    hide Tiled, SamePayload, SamePrefix, Copied;
    assert SamePayload(l, b0, b1, t) && SamePayload(l, b2, b3, n);
    MovedPayload(l, b0, b1, b3, t, n);
    forall u | u in ts && !u.free && u != t ensures SamePayload(l, b0, b3, u) {
      assert SamePayload(l, b0, b1, u) && SamePayload(l, b2, b3, u);
      Disjoint(ts1, l.lo, l.hi, u, n);
      OtherPayload(l, b0, b1, b3, t, n, u);
    }
  }

  lemma PayloadAt(l: Layout, b: Bytes, b': Bytes, t: Tile, x: nat)
    requires SamePayload(l, b, b', t) && t.addr + l.header <= x < t.addr + t.span
    ensures b'(x) == b(x)
  {
  }

  lemma CopiedAt(b: Bytes, src: nat, dst: nat, n: nat, x: nat)
    requires dst <= x < dst + n
    ensures Copied(b, src, dst, n)(x) == b(src + (x - dst))
  {
  }

  lemma MovedPayload(l: Layout, b0: Bytes, b1: Bytes, b3: Bytes, t: Tile, n: Tile)
    requires t.span >= l.header && n.span >= t.span && SamePayload(l, b0, b1, t)
    requires SamePayload(l, Copied(b1, t.addr + l.header, n.addr + l.header, t.span - l.header), b3, n)
    ensures SamePrefix(b0, t.addr + l.header, b3, n.addr + l.header, t.span - l.header)
  {
    hide SamePayload, Copied;
    var from, to, len := t.addr + l.header, n.addr + l.header, t.span - l.header;
    forall x: nat | to <= x < to + len ensures b3(x) == b0(from + (x - to)) {
      PayloadAt(l, b0, b1, t, from + (x - to));
      PayloadAt(l, Copied(b1, from, to, len), b3, n, x);
      CopiedAt(b1, from, to, len, x);
    }
  }

  lemma OtherPayload(l: Layout, b0: Bytes, b1: Bytes, b3: Bytes, t: Tile, n: Tile, u: Tile)
    requires t.span >= l.header && n.span >= t.span && (u.addr + u.span <= n.addr || n.addr + n.span <= u.addr)
    requires SamePayload(l, b0, b1, u)
    requires SamePayload(l, Copied(b1, t.addr + l.header, n.addr + l.header, t.span - l.header), b3, u)
    ensures SamePayload(l, b0, b3, u)
  {
  }
}
