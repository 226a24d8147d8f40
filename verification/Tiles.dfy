/** A stretch of memory cut into blocks without gaps: what both allocators keep (kernel/src/mm/heap.rs and
    userspace/src/rt.rs). `span` counts a block's header and payload together. */
module Tiles {
  datatype Tile = Tile(addr: nat, span: nat, free: bool)

  predicate Tiled(ts: seq<Tile>, lo: nat, hi: nat) {
    if ts == [] then lo == hi
    else ts[0].addr == lo && ts[0].span > 0 && Tiled(ts[1..], lo + ts[0].span, hi)
  }

  lemma {:induction false} TiledConcat(a: seq<Tile>, b: seq<Tile>, lo: nat, mid: nat, hi: nat)
    requires Tiled(a, lo, mid) && Tiled(b, mid, hi)
    ensures Tiled(a + b, lo, hi)
  {
    if a == [] {
      assert a + b == b;
    } else {
      TiledConcat(a[1..], b, lo + a[0].span, mid, hi);
      assert (a + b)[1..] == a[1..] + b;
    }
  }

  lemma {:induction false} TiledCut(a: seq<Tile>, b: seq<Tile>, lo: nat, hi: nat) returns (mid: nat)
    requires Tiled(a + b, lo, hi)
    ensures lo <= mid <= hi && Tiled(a, lo, mid) && Tiled(b, mid, hi)
  {
    TiledBounds(a + b, lo, hi);
    if a == [] {
      assert a + b == b;
      mid := lo;
    } else {
      assert (a + b)[1..] == a[1..] + b;
      mid := TiledCut(a[1..], b, lo + a[0].span, hi);
    }
  }

  // Blocks lie inside the stretch, one after the other.
  lemma {:induction false} TiledBounds(ts: seq<Tile>, lo: nat, hi: nat)
    requires Tiled(ts, lo, hi)
    ensures lo <= hi
    ensures forall i :: 0 <= i < |ts| ==> lo <= ts[i].addr && ts[i].addr + ts[i].span <= hi
    ensures forall i, j :: 0 <= i < j < |ts| ==> ts[i].addr + ts[i].span <= ts[j].addr
  {
    if ts == [] {
    } else {
      TiledBounds(ts[1..], lo + ts[0].span, hi);
    }
  }

  predicate NoTwoFree(ts: seq<Tile>) { forall i :: 0 <= i < |ts| - 1 ==> !(ts[i].free && ts[i + 1].free) }

  // No free block is this large.
  ghost predicate NoneFree(ts: seq<Tile>, span: nat) { forall b :: b in ts && b.free ==> b.span < span }

  // The blocks in use are the same.
  ghost predicate SameLive(ts: seq<Tile>, ts': seq<Tile>) { forall t: Tile :: !t.free ==> (t in ts' <==> t in ts) }

  // One block in use more.
  ghost predicate GainsLive(ts: seq<Tile>, ts': seq<Tile>, t: Tile) {
    t in ts' && !t.free && forall u: Tile :: !u.free ==> (u in ts' <==> u in ts || u == t)
  }

  // One block in use less.
  ghost predicate LosesLive(ts: seq<Tile>, ts': seq<Tile>, t: Tile) {
    t in ts && !t.free && forall u: Tile :: !u.free ==> (u in ts' <==> u in ts && u != t)
  }

  // Block t in use became block n, perhaps elsewhere; no other block in use changed.
  ghost predicate ReplacesLive(ts: seq<Tile>, ts': seq<Tile>, t: Tile, n: Tile) {
    && t in ts && !t.free && n in ts' && !n.free && (t in ts' ==> t == n)
    && forall u: Tile :: !u.free && u != t && u != n ==> (u in ts' <==> u in ts)
  }

  lemma OneAddressEach(ts: seq<Tile>, lo: nat, hi: nat, t: Tile, u: Tile)
    requires Tiled(ts, lo, hi) && t in ts && u in ts && t.addr == u.addr
    ensures t == u
  {
    TiledBounds(ts, lo, hi);
    TiledSpans(ts, lo, hi);
  }

  lemma Disjoint(ts: seq<Tile>, lo: nat, hi: nat, t: Tile, u: Tile)
    requires Tiled(ts, lo, hi) && t in ts && u in ts && t != u
    ensures t.addr + t.span <= u.addr || u.addr + u.span <= t.addr
  {
    TiledBounds(ts, lo, hi);
  }

  lemma {:induction false} TiledSpans(ts: seq<Tile>, lo: nat, hi: nat)
    requires Tiled(ts, lo, hi)
    ensures forall i :: 0 <= i < |ts| ==> ts[i].span > 0
  {
    if ts == [] {
    } else {
      TiledSpans(ts[1..], lo + ts[0].span, hi);
    }
  }

  // ---------------------------------------------------------------- splitting

  // Block i keeps `span`; the rest of it becomes a free block of its own.
  function Split(ts: seq<Tile>, i: nat, span: nat): seq<Tile>
    requires i < |ts| && span <= ts[i].span
  {
    ts[..i] + [ts[i].(span := span), Tile(ts[i].addr + span, ts[i].span - span, true)] + ts[i + 1..]
  }

  lemma SplitAt(a: seq<Tile>, t: Tile, c: seq<Tile>, span: nat)
    requires span <= t.span
    ensures Split(a + ([t] + c), |a|, span) == a + ([t.(span := span), Tile(t.addr + span, t.span - span, true)] + c)
  {
    var ts := a + ([t] + c);
    assert ts[..|a|] == a && ts[|a| + 1..] == c && ts[|a|] == t;
  }

  lemma SplitTiled(ts: seq<Tile>, i: nat, span: nat, lo: nat, hi: nat)
    requires Tiled(ts, lo, hi) && i < |ts| && 0 < span < ts[i].span
    ensures Tiled(Split(ts, i, span), lo, hi)
  {
    var a, b, c := ts[..i], [ts[i]], ts[i + 1..];
    var pair := [ts[i].(span := span), Tile(ts[i].addr + span, ts[i].span - span, true)];
    assert ts == a + (b + c) && Split(ts, i, span) == a + (pair + c);
    var mid := TiledCut(a, b + c, lo, hi);
    assert (b + c)[1..] == c;
    assert (pair + c)[1..] == [pair[1]] + c && ([pair[1]] + c)[1..] == c;
    TiledConcat(a, pair + c, lo, mid, hi);
  }

  // Taking a block into use, or giving it back.
  lemma MarkTiled(ts: seq<Tile>, i: nat, free: bool, lo: nat, hi: nat)
    requires Tiled(ts, lo, hi) && i < |ts|
    ensures Tiled(ts[i := ts[i].(free := free)], lo, hi)
  {
    var a, b, c := ts[..i], [ts[i]], ts[i + 1..];
    var b' := [ts[i].(free := free)];
    assert ts == a + (b + c) && ts[i := ts[i].(free := free)] == a + (b' + c);
    var mid := TiledCut(a, b + c, lo, hi);
    assert (b + c)[1..] == c && (b' + c)[1..] == c;
    TiledConcat(a, b' + c, lo, mid, hi);
  }

  // ---------------------------------------------------------------- merging

  function Merge(ts: seq<Tile>): seq<Tile>
    decreases |ts|
  {
    if |ts| < 2 then ts
    else if ts[0].free && ts[1].free then Merge([ts[0].(span := ts[0].span + ts[1].span)] + ts[2..])
    else [ts[0]] + Merge(ts[1..])
  }

  lemma MergeStep(ts: seq<Tile>)
    requires |ts| >= 2 && !(ts[0].free && ts[1].free)
    ensures Merge(ts) == [ts[0]] + Merge(ts[1..])
  {
  }

  lemma {:induction false} MergeCanonical(ts: seq<Tile>)
    ensures NoTwoFree(Merge(ts))
    ensures ts != [] ==> Merge(ts) != [] && Merge(ts)[0].free == ts[0].free
    decreases |ts|
  {
    if |ts| >= 2 {
      if ts[0].free && ts[1].free {
        MergeCanonical([ts[0].(span := ts[0].span + ts[1].span)] + ts[2..]);
      } else {
        MergeCanonical(ts[1..]);
      }
    }
  }

  lemma {:induction false} MergeLive(ts: seq<Tile>)
    ensures SameLive(ts, Merge(ts))
    decreases |ts|
  {
    if |ts| >= 2 {
      if ts[0].free && ts[1].free {
        var m := [ts[0].(span := ts[0].span + ts[1].span)] + ts[2..];
        MergeLive(m);
        forall t: Tile | !t.free ensures t in m <==> t in ts {
          assert ts == [ts[0], ts[1]] + ts[2..];
        }
      } else {
        MergeLive(ts[1..]);
        assert ts == [ts[0]] + ts[1..];
      }
    }
  }

  // When nothing is in use, one block is left: the whole stretch.
  lemma {:induction false} MergeAllFree(ts: seq<Tile>, lo: nat, hi: nat)
    requires Tiled(ts, lo, hi) && ts != [] && forall i :: 0 <= i < |ts| ==> ts[i].free
    ensures lo <= hi && Merge(ts) == [Tile(lo, hi - lo, true)]
    decreases |ts|
  {
    TiledBounds(ts, lo, hi);
    if |ts| >= 2 {
      var m := [ts[0].(span := ts[0].span + ts[1].span)] + ts[2..];
      assert m[1..] == ts[2..] && ts[1..][1..] == ts[2..];
      MergeAllFree(m, lo, hi);
    } else {
      assert ts[1..] == [];
    }
  }

  // ---------------------------------------------------------------- taking and giving back

  // Block i, free before, in use now; `span` of it if it was split.
  function Taken(ts: seq<Tile>, i: nat, span: nat, split: bool): seq<Tile>
    requires i < |ts| && span <= ts[i].span
  {
    var cut := if split then Split(ts, i, span) else ts;
    cut[i := cut[i].(free := false)]
  }

  lemma TakenGains(ts: seq<Tile>, i: nat, span: nat, split: bool, lo: nat, hi: nat)
    requires Tiled(ts, lo, hi) && i < |ts| && 0 < span <= ts[i].span && ts[i].free
    ensures var t := Tile(ts[i].addr, if split then span else ts[i].span, false);
            GainsLive(ts, Taken(ts, i, span, split), t) && t !in ts
  {
    var t := Tile(ts[i].addr, if split then span else ts[i].span, false);
    if t in ts { OneAddressEach(ts, lo, hi, t, ts[i]); }
    assert ts == ts[..i] + [ts[i]] + ts[i + 1..];
    if split {
      assert Taken(ts, i, span, split) == ts[..i] + [t, Tile(ts[i].addr + span, ts[i].span - span, true)] + ts[i + 1..];
    } else {
      assert Taken(ts, i, span, split) == ts[..i] + [t] + ts[i + 1..];
    }
  }

  lemma MarkLoses(ts: seq<Tile>, i: nat, lo: nat, hi: nat)
    requires Tiled(ts, lo, hi) && i < |ts| && !ts[i].free
    ensures LosesLive(ts, ts[i := ts[i].(free := true)], ts[i])
  {
    var ts' := ts[i := ts[i].(free := true)];
    forall u: Tile | !u.free ensures u in ts' <==> u in ts && u != ts[i] {
      if u in ts' {
        var k :| 0 <= k < |ts'| && ts'[k] == u;
        TiledBounds(ts, lo, hi);
        TiledSpans(ts, lo, hi);
      }
      if u in ts && u != ts[i] {
        var k :| 0 <= k < |ts| && ts[k] == u;
        assert ts'[k] == u;
      }
    }
  }

  lemma SplitReplaces(ts: seq<Tile>, i: nat, span: nat, split: bool, lo: nat, hi: nat)
    requires Tiled(ts, lo, hi) && i < |ts| && 0 < span <= ts[i].span && !ts[i].free
    ensures var n := ts[i].(span := if split then span else ts[i].span);
            ReplacesLive(ts, if split then Split(ts, i, span) else ts, ts[i], n)
  {
    var n := ts[i].(span := if split then span else ts[i].span);
    assert ts == ts[..i] + [ts[i]] + ts[i + 1..];
    if split {
      var ts' := Split(ts, i, span);
      assert ts'[i] == n;
      if ts[i] in ts' && ts[i] != n {
        assert ts[i] in ts[..i] || ts[i] in ts[i + 1..];
        TiledBounds(ts, lo, hi);
        TiledSpans(ts, lo, hi);
        assert false;
      }
    }
  }

  // ---------------------------------------------------------------- fusing two neighbours

  // Block i swallows the one behind it.
  function Fuse(ts: seq<Tile>, i: nat): seq<Tile>
    requires i + 1 < |ts|
  {
    ts[..i] + [ts[i].(span := ts[i].span + ts[i + 1].span)] + ts[i + 2..]
  }

  lemma FuseMiddle(d: seq<Tile>, a: Tile, b: Tile, r: seq<Tile>)
    ensures Fuse(d + ([a] + ([b] + r)), |d|) == d + ([a.(span := a.span + b.span)] + r)
  {
    var ts := d + ([a] + ([b] + r));
    assert ts[..|d|] == d && ts[|d|] == a && ts[|d| + 1] == b && ts[|d| + 2..] == r;
  }

  lemma FuseTiled(ts: seq<Tile>, i: nat, lo: nat, hi: nat)
    requires Tiled(ts, lo, hi) && i + 1 < |ts|
    ensures Tiled(Fuse(ts, i), lo, hi)
  {
    var a, r := ts[..i], ts[i..];
    var r' := [ts[i].(span := ts[i].span + ts[i + 1].span)] + ts[i + 2..];
    assert ts == a + r && Fuse(ts, i) == a + r';
    var mid := TiledCut(a, r, lo, hi);
    assert r[1..][1..] == ts[i + 2..] && r'[1..] == ts[i + 2..];
    TiledConcat(a, r', lo, mid, hi);
  }

  lemma FuseLive(ts: seq<Tile>, i: nat)
    requires i + 1 < |ts| && ts[i].free && ts[i + 1].free
    ensures SameLive(ts, Fuse(ts, i))
  {
    assert ts == ts[..i] + [ts[i], ts[i + 1]] + ts[i + 2..];
  }

  function FusedNext(ts: seq<Tile>, i: nat): seq<Tile> {
    if i + 1 < |ts| && ts[i + 1].free then Fuse(ts, i) else ts
  }

  function FusedPrev(ts: seq<Tile>, i: nat): seq<Tile> {
    if 0 < i < |ts| && ts[i - 1].free then Fuse(ts, i - 1) else ts
  }

  // Giving block i back and fusing it with what is free behind it and before it.
  function Returned(ts: seq<Tile>, i: nat): seq<Tile>
    requires i < |ts|
  {
    FusedPrev(FusedNext(ts[i := ts[i].(free := true)], i), i)
  }

  // The blocks after fusing, one by one.
  lemma FuseAt(ts: seq<Tile>, i: nat)
    requires i + 1 < |ts|
    ensures |Fuse(ts, i)| == |ts| - 1
    ensures forall k :: 0 <= k < i ==> Fuse(ts, i)[k] == ts[k]
    ensures Fuse(ts, i)[i].free == ts[i].free
    ensures forall k :: i < k < |ts| - 1 ==> Fuse(ts, i)[k] == ts[k + 1]
  {
  }

  // No two neighbours are free, except perhaps a pair that block i belongs to.
  predicate FreeOnlyAt(ts: seq<Tile>, i: nat) {
    forall k :: 0 <= k < |ts| - 1 && k != i && k + 1 != i ==> !(ts[k].free && ts[k + 1].free)
  }

  lemma NextFused(ts: seq<Tile>, i: nat)
    requires i < |ts| && ts[i].free && FreeOnlyAt(ts, i)
    ensures var r := FusedNext(ts, i);
            && i < |r| && r[i].free && FreeOnlyAt(r, i) && (i + 1 < |r| ==> !r[i + 1].free)
            && (i > 0 ==> r[i - 1] == ts[i - 1])
  {
    hide Fuse;
    if i + 1 < |ts| && ts[i + 1].free {
      FuseAt(ts, i);
      var r := Fuse(ts, i);
      forall k | 0 <= k < |r| - 1 && k != i && k + 1 != i ensures !(r[k].free && r[k + 1].free) {
        if k < i {
          assert r[k] == ts[k] && r[k + 1] == ts[k + 1];
        } else {
          assert r[k] == ts[k + 1] && r[k + 1] == ts[k + 1 + 1];
        }
      }
      if i + 1 < |r| { assert r[i + 1] == ts[i + 1 + 1]; }
    }
  }

  lemma PrevFused(ts: seq<Tile>, i: nat)
    requires i < |ts| && ts[i].free && FreeOnlyAt(ts, i) && (i + 1 < |ts| ==> !ts[i + 1].free)
    ensures NoTwoFree(FusedPrev(ts, i))
  {
    hide Fuse;
    if i > 0 && ts[i - 1].free {
      FuseAt(ts, i - 1);
      var r := Fuse(ts, i - 1);
      forall k | 0 <= k < |r| - 1 ensures !(r[k].free && r[k + 1].free) {
        if k + 1 < i { assert r[k] == ts[k]; } else { assert r[k + 1] == ts[k + 1 + 1]; }
        if k >= i { assert r[k] == ts[k + 1]; }
      }
    } else {
      assert forall k :: 0 <= k < |ts| - 1 ==> k == i || k + 1 == i || !(ts[k].free && ts[k + 1].free);
    }
  }

  lemma ReturnedNoTwoFree(ts: seq<Tile>, i: nat)
    requires i < |ts| && NoTwoFree(ts)
    ensures NoTwoFree(Returned(ts, i))
  {
    hide FusedNext, FusedPrev, NoTwoFree;
    var marked := ts[i := ts[i].(free := true)];
    MarkedFree(ts, i);
    NextFused(marked, i);
    PrevFused(FusedNext(marked, i), i);
  }

  lemma MarkedFree(ts: seq<Tile>, i: nat)
    requires i < |ts| && NoTwoFree(ts)
    ensures FreeOnlyAt(ts[i := ts[i].(free := true)], i)
  {
  }

  /** One step forward and one step back are enough: if no two neighbours were free before, none are after. */
  lemma ReturnedKeeps(ts: seq<Tile>, i: nat, lo: nat, hi: nat)
    requires Tiled(ts, lo, hi) && i < |ts| && !ts[i].free && NoTwoFree(ts)
    ensures Tiled(Returned(ts, i), lo, hi) && NoTwoFree(Returned(ts, i)) && LosesLive(ts, Returned(ts, i), ts[i])
  {
    hide NoTwoFree, Tiled;
    var marked := ts[i := ts[i].(free := true)];
    ReturnedNoTwoFree(ts, i);
    MarkTiled(ts, i, true, lo, hi);
    MarkLoses(ts, i, lo, hi);
    var fused := FusedNext(marked, i);
    if i + 1 < |ts| && ts[i + 1].free {
      FuseTiled(marked, i, lo, hi);
      FuseLive(marked, i);
    }
    if i > 0 && ts[i - 1].free {
      FuseTiled(fused, i - 1, lo, hi);
      FuseLive(fused, i - 1);
    }
  }

  // Taking a block splits off a free one, whose neighbour behind was not free.
  lemma TakenKeeps(ts: seq<Tile>, i: nat, span: nat, split: bool, lo: nat, hi: nat)
    requires Tiled(ts, lo, hi) && i < |ts| && ts[i].free && NoTwoFree(ts) && 0 < span <= ts[i].span
    requires (split ==> span < ts[i].span)
    ensures Tiled(Taken(ts, i, span, split), lo, hi) && NoTwoFree(Taken(ts, i, span, split))
  {
    if split {
      SplitTiled(ts, i, span, lo, hi);
      MarkTiled(Split(ts, i, span), i, false, lo, hi);
    } else {
      MarkTiled(ts, i, false, lo, hi);
    }
  }

  lemma AllFreeIsOne(ts: seq<Tile>, lo: nat, hi: nat)
    requires Tiled(ts, lo, hi) && ts != [] && NoTwoFree(ts) && forall t :: t in ts ==> t.free
    ensures lo <= hi && ts == [Tile(lo, hi - lo, true)]
  {
    TiledBounds(ts, lo, hi);
    assert ts[1..] == [];
  }
}
