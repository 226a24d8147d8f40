/** Directories of a FAT32 volume (kernel/src/fs/fat32.rs): 32-byte slots along a chain of clusters, scanned up to the
    first slot that starts with 0. Matching a slot against a name is an arbitrary predicate. */
module FatDir {
  import opened Wrappers
  import opened FatTable
  import opened FatVolume

  const SLOT: nat := 32
  const END: nat := 0
  const DELETED: nat := 0xE5
  const ATTR: nat := 11
  const LONG_NAME: nat := 0x0F

  type Slot = s: seq<Byte> | |s| == SLOT witness seq(SLOT, _ => 0)

  predicate Live(s: Slot) { s[0] != END && s[0] != DELETED }

  predicate Vacant(s: Slot) { s[0] == END || s[0] == DELETED }

  // Where find_dir_entry and remove_entry stop.
  predicate Decides(s: Slot, matches: Slot -> bool) { s[0] == END || Hit(s, matches) }

  predicate Hit(s: Slot, matches: Slot -> bool) { Live(s) && s[ATTR] != LONG_NAME && matches(s) }

  // No live slot lies behind an end marker.
  ghost predicate Tidy(d: seq<Slot>) { forall i, j :: 0 <= i < j < |d| && d[i][0] == END ==> !Live(d[j]) }

  function Lives(d: seq<Slot>): multiset<Slot> {
    if d == [] then multiset{} else (if Live(d[0]) then multiset{d[0]} else multiset{}) + Lives(d[1..])
  }

  // What a scan looks for.
  datatype Look = Vacancy | Match(matches: Slot -> bool)

  predicate StopsAt(s: Slot, look: Look) { if look.Vacancy? then Vacant(s) else Decides(s, look.matches) }

  // The first slot that stops a scan, |d| if none does.
  function First(d: seq<Slot>, look: Look): (i: nat)
    ensures i <= |d| && (forall j :: 0 <= j < i ==> !StopsAt(d[j], look)) && (i < |d| ==> StopsAt(d[i], look))
  {
    if d == [] || StopsAt(d[0], look) then 0 else 1 + First(d[1..], look)
  }

  lemma {:induction false} LivesConcat(a: seq<Slot>, b: seq<Slot>)
    ensures Lives(a + b) == Lives(a) + Lives(b)
  {
    if a == [] {
      assert a + b == b;
    } else {
      assert (a + b)[1..] == a[1..] + b;
      LivesConcat(a[1..], b);
    }
  }

  lemma LivesAt(d: seq<Slot>, i: nat, s: Slot)
    requires i < |d|
    ensures Lives(d[i := s]) + Lives([d[i]]) == Lives(d) + Lives([s])
  {
    assert d == d[..i] + ([d[i]] + d[i + 1..]) && d[i := s] == d[..i] + ([s] + d[i + 1..]);
    LivesConcat(d[..i], [d[i]] + d[i + 1..]);
    LivesConcat([d[i]], d[i + 1..]);
    LivesConcat(d[..i], [s] + d[i + 1..]);
    LivesConcat([s], d[i + 1..]);
  }

  lemma LivesOne(s: Slot)
    ensures Lives([s]) == if Live(s) then multiset{s} else multiset{}
  {
    assert [s][1..] == [];
  }

  lemma {:induction false} LivesNone(d: seq<Slot>)
    requires forall i :: 0 <= i < |d| ==> !Live(d[i])
    ensures Lives(d) == multiset{}
  {
    if d == [] {
    } else {
      LivesNone(d[1..]);
    }
  }

  // ---------------------------------------------------------------- adding and removing

  function Zeros(n: nat): (z: seq<Slot>)
    ensures |z| == n && forall i :: 0 <= i < n ==> z[i][0] == END
  {
    seq(n, _ => seq(SLOT, _ => 0))
  }

  // add_dir_entry: the first vacant slot, or the first of a new cluster of `per` slots.
  function Added(d: seq<Slot>, e: Slot, per: nat): seq<Slot>
    requires per > 0
  {
    var i := First(d, Vacancy);
    if i < |d| then d[i := e] else d + [e] + Zeros(per - 1)
  }

  // remove_entry: the slot it finds is marked.
  function Removed(d: seq<Slot>, matches: Slot -> bool): seq<Slot> {
    var i := First(d, Match(matches));
    if i < |d| && d[i][0] != END then d[i := d[i][0 := DELETED]] else d
  }

  // find_dir_entry
  function Found(d: seq<Slot>, matches: Slot -> bool): (r: Option<nat>)
    ensures r.Some? ==> r.value < |d| && Hit(d[r.value], matches)
  {
    var i := First(d, Match(matches));
    if i < |d| && d[i][0] != END then Some(i) else None
  }

  lemma AddTidy(d: seq<Slot>, e: Slot, per: nat)
    requires Tidy(d) && Live(e) && per > 0
    ensures Tidy(Added(d, e, per))
  {
    var i := First(d, Vacancy);
    var d' := Added(d, e, per);
    if i < |d| {
      forall a, b | 0 <= a < b < |d'| && d'[a][0] == END ensures !Live(d'[b]) {
        assert a != i && d[a][0] == END && i < a;
      }
    }
  }

  lemma AddLives(d: seq<Slot>, e: Slot, per: nat)
    requires Live(e) && per > 0
    ensures Lives(Added(d, e, per)) == Lives(d) + multiset{e}
  {
    hide Lives;
    var i := First(d, Vacancy);
    LivesOne(e);
    if i < |d| {
      LivesOne(d[i]);
      LivesAt(d, i, e);
    } else {
      LivesConcat(d + [e], Zeros(per - 1));
      LivesConcat(d, [e]);
      LivesNone(Zeros(per - 1));
    }
  }

  /** Adding a live slot keeps the directory tidy and adds exactly that slot to the live ones, also when the
      directory grows. */
  lemma AddKeeps(d: seq<Slot>, e: Slot, per: nat)
    requires Tidy(d) && Live(e) && per > 0
    ensures Tidy(Added(d, e, per)) && Lives(Added(d, e, per)) == Lives(d) + multiset{e}
  {
    hide Tidy, Lives, Added;
    AddTidy(d, e, per);
    AddLives(d, e, per);
  }

  /** Removing keeps the directory tidy and takes away exactly the live slot that was found, if any. */
  lemma RemoveKeeps(d: seq<Slot>, matches: Slot -> bool)
    requires Tidy(d)
    ensures Tidy(Removed(d, matches))
    ensures match Found(d, matches)
            case None => Removed(d, matches) == d
            case Some(i) => Lives(d) == Lives(Removed(d, matches)) + multiset{d[i]}
  {
    var i := First(d, Match(matches));
    if i < |d| && d[i][0] != END {
      var x: Slot := d[i][0 := DELETED];
      LivesOne(d[i]);
      LivesOne(x);
      LivesAt(d, i, x);
    }
  }

  /** In a tidy directory nothing is hidden: a scan finds a live slot exactly when one matches. */
  lemma NothingHidden(d: seq<Slot>, matches: Slot -> bool)
    requires Tidy(d)
    ensures Found(d, matches).Some? <==> exists i :: 0 <= i < |d| && Hit(d[i], matches)
  {
    var k := First(d, Match(matches));
    if i :| 0 <= i < |d| && Hit(d[i], matches) {
      assert Decides(d[i], matches);
      assert k <= i;
      if d[k][0] == END { assert false; }
    }
  }

  datatype Op = Add(entry: Slot) | Remove(matches: Slot -> bool)

  function Step(d: seq<Slot>, op: Op, per: nat): seq<Slot>
    requires per > 0
  {
    match op
    case Add(e) => Added(d, e, per)
    case Remove(m) => Removed(d, m)
  }

  function Run(d: seq<Slot>, ops: seq<Op>, per: nat): seq<Slot>
    requires per > 0
    decreases |ops|
  {
    if ops == [] then d else Run(Step(d, ops[0], per), ops[1..], per)
  }

  // All slots added in a run, and all slots its removals found.
  function Gains(ops: seq<Op>): multiset<Slot> {
    if ops == [] then multiset{} else (if ops[0].Add? then multiset{ops[0].entry} else multiset{}) + Gains(ops[1..])
  }

  function Losses(d: seq<Slot>, ops: seq<Op>, per: nat): multiset<Slot>
    requires per > 0
    decreases |ops|
  {
    if ops == [] then multiset{}
    else
      (if ops[0].Remove? && Found(d, ops[0].matches).Some?
       then multiset{d[Found(d, ops[0].matches).value]} else multiset{})
      + Losses(Step(d, ops[0], per), ops[1..], per)
  }

  /** Any run of additions of live slots and of removals leaves the directory tidy, and its live slots are those it
      had, with everything added and without everything a removal found. */
  lemma {:induction false} RunsKeepAccount(d: seq<Slot>, ops: seq<Op>, per: nat)
    requires per > 0 && Tidy(d) && forall i :: 0 <= i < |ops| && ops[i].Add? ==> Live(ops[i].entry)
    ensures Tidy(Run(d, ops, per)) && Lives(Run(d, ops, per)) + Losses(d, ops, per) == Lives(d) + Gains(ops)
    decreases |ops|
  {
    hide Tidy, Lives, Added, Removed, Found;
    if ops == [] {
    } else {
      var d1 := Step(d, ops[0], per);
      var gain := if ops[0].Add? then multiset{ops[0].entry} else multiset{};
      var loss := if ops[0].Remove? && Found(d, ops[0].matches).Some?
                  then multiset{d[Found(d, ops[0].matches).value]} else multiset{};
      assert Tidy(d1) && Lives(d1) + loss == Lives(d) + gain by {
        match ops[0]
        case Add(e) => AddKeeps(d, e, per);
        case Remove(m) => RemoveKeeps(d, m);
      }
      RunsKeepAccount(d1, ops[1..], per);
      var end, lost, won := Lives(Run(d, ops, per)), Losses(d1, ops[1..], per), Gains(ops[1..]);
      assert (end + lost) + loss == (Lives(d1) + won) + loss == (Lives(d1) + loss) + won == (Lives(d) + gain) + won;
      assert end + (loss + lost) == (end + lost) + loss && Lives(d) + (gain + won) == (Lives(d) + gain) + won;
    }
  }

  // ---------------------------------------------------------------- slots in the image

  function PerSector(g: Geometry): nat { g.bps / SLOT }

  function PerCluster(g: Geometry): nat { g.spc * PerSector(g) }

  // Sectors hold a whole number of slots.
  ghost predicate DirFits(g: Geometry, len: nat) { Fits(g, len) && g.bps == SLOT * PerSector(g) }

  function SlotAddr(g: Geometry, c: nat, j: nat): nat
    requires c >= 2
  {
    DataAddr(g, c) + SLOT * j
  }

  lemma SlotsFill(g: Geometry, len: nat)
    requires DirFits(g, len)
    ensures SLOT * PerCluster(g) == BytesPerCluster(g) && PerCluster(g) > 0 && PerSector(g) > 0
  {
    var p := PerSector(g);
    assert (SLOT * p) * g.spc == SLOT * (g.spc * p);
    assert p > 0;
    assert g.spc * p > 0;
  }

  lemma SlotInside(g: Geometry, len: nat, c: nat, j: nat)
    requires DirFits(g, len) && 2 <= c < g.Entries() && j < PerCluster(g)
    ensures SlotAddr(g, c, j) + SLOT <= DataAddr(g, c) + BytesPerCluster(g) <= len
  {
    hide Fits, DataAddr, PerCluster, BytesPerCluster, PerSector;
    SlotsFill(g, len);
    DataInside(g, len, c);
  }

  // Sector `so`, slot `eo` in it.
  lemma SectorSlot(g: Geometry, c: nat, so: nat, eo: nat)
    requires c >= 2 && g.bps == SLOT * PerSector(g) && so < g.spc && eo < PerSector(g)
    ensures (g.firstData + (c - 2) * g.spc + so) * g.bps + eo * SLOT == SlotAddr(g, c, so * PerSector(g) + eo)
    ensures so * PerSector(g) + eo < PerCluster(g)
  {
    Distribute(g.firstData + (c - 2) * g.spc, so, g.bps);
    assert so * g.bps == SLOT * (so * PerSector(g));
    Monotone(so, g.spc, PerSector(g));
  }

  ghost function ClusterSlots(g: Geometry, b: seq<Byte>, c: nat): (d: seq<Slot>)
    requires DirFits(g, |b|) && 2 <= c < g.Entries()
    ensures |d| == PerCluster(g)
  {
    seq(PerCluster(g), j requires 0 <= j < PerCluster(g) => (SlotInside(g, |b|, c, j); SlotAt(b, SlotAddr(g, c, j))))
  }

  function SlotAt(b: seq<Byte>, a: nat): Slot
    requires a + SLOT <= |b|
  {
    b[a..a + SLOT]
  }

  lemma ClusterSlotIs(g: Geometry, b: seq<Byte>, c: nat, j: nat)
    requires DirFits(g, |b|) && 2 <= c < g.Entries() && j < PerCluster(g)
    ensures SlotAddr(g, c, j) + SLOT <= |b| && ClusterSlots(g, b, c)[j] == SlotAt(b, SlotAddr(g, c, j))
  {
    SlotInside(g, |b|, c, j);
  }

  // A directory: the slots of its clusters in order.
  ghost function Dir(g: Geometry, b: seq<Byte>, ds: seq<nat>): seq<Slot>
    requires DirFits(g, |b|) && ClustersIn(g, ds)
    decreases |ds|
  {
    if ds == [] then [] else ClusterSlots(g, b, ds[0]) + Dir(g, b, ds[1..])
  }

  lemma {:induction false} DirConcat(g: Geometry, b: seq<Byte>, xs: seq<nat>, ys: seq<nat>)
    requires DirFits(g, |b|) && ClustersIn(g, xs) && ClustersIn(g, ys) && ClustersIn(g, xs + ys)
    ensures Dir(g, b, xs + ys) == Dir(g, b, xs) + Dir(g, b, ys)
    decreases |xs|
  {
    hide DirFits, ClusterSlots;
    if xs == [] {
      assert xs + ys == ys;
    } else {
      assert (xs + ys)[1..] == xs[1..] + ys;
      DirConcat(g, b, xs[1..], ys);
    }
  }

  lemma PartOf(b: seq<Byte>, a: nat, n: nat, x: nat)
    requires x + SLOT <= n && a + n <= |b|
    ensures b[a + x..a + x + SLOT] == b[a..a + n][x..x + SLOT]
  {
    var whole := b[a..a + n];
    var part, inner := b[a + x..a + x + SLOT], whole[x..x + SLOT];
    assert forall i :: 0 <= i < SLOT ==> part[i] == inner[i];
  }

  lemma SlotsKept(g: Geometry, b: seq<Byte>, b': seq<Byte>, c: nat)
    requires DirFits(g, |b|) && |b'| == |b| && 2 <= c < g.Entries() && DataAddr(g, c) + BytesPerCluster(g) <= |b|
    requires Cluster(g, b', c) == Cluster(g, b, c)
    ensures ClusterSlots(g, b', c) == ClusterSlots(g, b, c)
  {
    hide DirFits, DataAddr, BytesPerCluster, PerCluster;
    forall j | 0 <= j < PerCluster(g) ensures ClusterSlots(g, b', c)[j] == ClusterSlots(g, b, c)[j] {
      ClusterSlotIs(g, b, c, j);
      ClusterSlotIs(g, b', c, j);
      SlotInside(g, |b|, c, j);
      PartOf(b, DataAddr(g, c), BytesPerCluster(g), SLOT * j);
      PartOf(b', DataAddr(g, c), BytesPerCluster(g), SLOT * j);
    }
  }

  lemma AsFits(g: Geometry, len: nat)
    requires DirFits(g, len)
    ensures Fits(g, len)
  {
  }

  // Clusters elsewhere do not matter.
  lemma {:induction false} DirKept(g: Geometry, b: seq<Byte>, b': seq<Byte>, cs: seq<nat>, ds: seq<nat>)
    requires DirFits(g, |b|) && OnlyAreas(g, b, b', cs) && ClustersIn(g, cs) && ClustersIn(g, ds)
    requires forall d :: d in ds ==> d !in cs
    ensures |b'| == |b| && Dir(g, b', ds) == Dir(g, b, ds)
    decreases |ds|
  {
    hide DirFits, OnlyAreas, ClusterSlots, Cluster, DataAddr;
    AsFits(g, |b|);
    SameLength(g, b, b', cs);
    if ds == [] {
    } else {
      assert ds[0] in ds;
      OtherClusterKept(g, b, b', cs, ds[0]);
      SlotsKept(g, b, b', ds[0]);
      DirKept(g, b, b', cs, ds[1..]);
    }
  }

  // Writing one slot of one cluster.
  lemma SlotPasted(g: Geometry, b: seq<Byte>, c: nat, j: nat, e: Slot)
    requires DirFits(g, |b|) && 2 <= c < g.Entries() && j < PerCluster(g) && SlotAddr(g, c, j) + SLOT <= |b|
    ensures var b' := Pasted(b, SlotAddr(g, c, j), e);
            ClusterSlots(g, b', c) == ClusterSlots(g, b, c)[j := e] && OnlyAreas(g, b, b', [c])
  {
    hide DirFits, DataAddr, BytesPerCluster, PerCluster;
    SlotInside(g, |b|, c, j);
    var b' := Pasted(b, SlotAddr(g, c, j), e);
    forall i | 0 <= i < PerCluster(g) ensures ClusterSlots(g, b', c)[i] == ClusterSlots(g, b, c)[j := e][i] {
      ClusterSlotIs(g, b, c, i);
      ClusterSlotIs(g, b', c, i);
    }
    forall a | 0 <= a < |b| && (forall x :: x in [c] ==> !InArea(g, x, a)) ensures b'[a] == b[a] { assert c in [c]; }
  }

  lemma DirPasted(g: Geometry, b: seq<Byte>, ds: seq<nat>, k: nat, j: nat, e: Slot)
    requires DirFits(g, |b|) && ClustersIn(g, ds) && k < |ds| && j < PerCluster(g)
    requires (forall x, y :: 0 <= x < y < |ds| ==> ds[x] != ds[y])
    requires SlotAddr(g, ds[k], j) + SLOT <= |b|
    ensures var b' := Pasted(b, SlotAddr(g, ds[k], j), e);
            var i := |Dir(g, b, ds[..k])| + j;
            i < |Dir(g, b, ds)| && Dir(g, b', ds) == Dir(g, b, ds)[i := e] && OnlyAreas(g, b, b', [ds[k]])
  {
    hide DirFits, ClusterSlots, OnlyAreas, PerCluster, SlotAddr, Dir, Pasted;
    var c, b' := ds[k], Pasted(b, SlotAddr(g, ds[k], j), e);
    SlotPasted(g, b, c, j, e);
    OthersOf(ds, k);
    DirKept(g, b, b', [c], ds[..k]);
    DirKept(g, b, b', [c], ds[k + 1..]);
    DirAround(g, b, ds, k);
    DirAround(g, b', ds, k);
    UpdateWithin(Dir(g, b, ds[..k]), ClusterSlots(g, b, c), Dir(g, b, ds[k + 1..]), j, e);
  }

  lemma OthersOf(ds: seq<nat>, k: nat)
    requires k < |ds| && forall x, y :: 0 <= x < y < |ds| ==> ds[x] != ds[y]
    ensures forall x :: x in ds[..k] || x in ds[k + 1..] ==> x !in [ds[k]]
  {
  }

  lemma UpdateWithin(x: seq<Slot>, y: seq<Slot>, z: seq<Slot>, j: nat, e: Slot)
    requires j < |y|
    ensures x + (y[j := e] + z) == (x + (y + z))[|x| + j := e]
  {
  }

  lemma DirAround(g: Geometry, b: seq<Byte>, ds: seq<nat>, k: nat)
    requires DirFits(g, |b|) && ClustersIn(g, ds) && k < |ds|
    ensures Dir(g, b, ds) == Dir(g, b, ds[..k]) + (ClusterSlots(g, b, ds[k]) + Dir(g, b, ds[k + 1..]))
  {
    hide DirFits, ClusterSlots;
    assert ds == ds[..k] + ds[k..] && ds[k..][1..] == ds[k + 1..];
    DirConcat(g, b, ds[..k], ds[k..]);
  }

  // ---------------------------------------------------------------- the operations

  lemma FirstIs(d: seq<Slot>, look: Look, i: nat)
    requires i <= |d| && (forall j :: 0 <= j < i ==> !StopsAt(d[j], look)) && (i < |d| ==> StopsAt(d[i], look))
    ensures First(d, look) == i
  {
  }

  lemma FirstConcat(a: seq<Slot>, b: seq<Slot>, look: Look)
    requires First(a, look) == |a|
    ensures First(a + b, look) == |a| + First(b, look)
  {
    var i := |a| + First(b, look);
    forall j | 0 <= j < i ensures !StopsAt((a + b)[j], look) { assert j >= |a| ==> (a + b)[j] == b[j - |a|]; }
    FirstIs(a + b, look, i);
  }

  // The two inner loops: sectors of a cluster, slots of a sector.
  method ScanCluster(vol: Volume, c: nat, look: Look) returns (hit: bool, a: nat, ghost j: nat)
    requires DirFits(vol.g, vol.image.Length) && 2 <= c < vol.g.Entries()
    ensures j == First(ClusterSlots(vol.g, vol.image[..], c), look)
    ensures hit <==> j < PerCluster(vol.g)
    ensures hit ==> a == SlotAddr(vol.g, c, j)
  {
    hide Fits, DataAddr, First, StopsAt, PerCluster, SlotAddr;
    var g := vol.g;
    ghost var d := ClusterSlots(g, vol.image[..], c);
    SlotsFill(g, vol.image.Length);
    var per, so := PerSector(g), 0;
    j, a := 0, 0;
    assert 0 * per == 0;
    while so < g.spc
      invariant so <= g.spc && j == so * per && j <= PerCluster(g) && forall i :: 0 <= i < j ==> !StopsAt(d[i], look)
    {
      var eo := 0;
      while eo < per
        invariant eo <= per && j == so * per + eo && j <= PerCluster(g)
        invariant forall i :: 0 <= i < j ==> !StopsAt(d[i], look)
      {
        SectorSlot(g, c, so, eo);
        ClusterSlotIs(g, vol.image[..], c, j);
        a := (g.firstData + (c - 2) * g.spc + so) * g.bps + eo * SLOT;
        var s: Slot := vol.image[a..a + SLOT];
        assert s == d[j];
        if StopsAt(s, look) {
          FirstIs(d, look, j);
          return true, a, j;
        }
        eo, j := eo + 1, j + 1;
      }
      Distribute(so, 1, per);
      so := so + 1;
    }
    PerClusterIs(g);
    FirstIs(d, look, j);
    return false, a, j;
  }

  lemma PerClusterIs(g: Geometry)
    ensures PerCluster(g) == g.spc * PerSector(g)
  {
  }

  lemma Distinct(f: seq<nat>, ds: seq<nat>)
    requires Chain(f, ds)
    ensures forall x, y :: 0 <= x < y < |ds| ==> ds[x] != ds[y]
  {
  }

  lemma Next(f: seq<nat>, ds: seq<nat>, k: nat)
    requires Chain(f, ds) && k < |ds|
    ensures ds[k] < |f| && (k + 1 < |ds| ==> f[ds[k]] == ds[k + 1] && !Stops(f[ds[k]]))
    ensures (k + 1 == |ds| ==> Stops(f[ds[k]]))
  {
    assert k < |ds| - 1 ==> f[ds[k]] == ds[k + 1];
  }

  // The whole directory, cluster by cluster.
  method Scan(vol: Volume, dir: nat, look: Look, ghost ds: seq<nat>)
    returns (hit: bool, a: nat, last: nat, ghost k: nat, ghost j: nat)
    requires DirFits(vol.g, vol.image.Length) && vol.Valid() && Chain(vol.Fat(), ds) && ds != [] && ds[0] == dir
    ensures ClustersIn(vol.g, ds)
    ensures hit ==> && k < |ds| && j < PerCluster(vol.g) && a == SlotAddr(vol.g, ds[k], j)
                    && First(Dir(vol.g, vol.image[..], ds), look) ==
                        |Dir(vol.g, vol.image[..], ds[..k])| + j < |Dir(vol.g, vol.image[..], ds)|
    ensures !hit ==>
      First(Dir(vol.g, vol.image[..], ds), look) == |Dir(vol.g, vol.image[..], ds)| && last == ds[|ds| - 1]
  {
    hide Fits, DataAddr, First, StopsAt, PerCluster, SlotAddr, DirFits, ClusterSlots, Table, Chain;
    var g := vol.g;
    ghost var b := vol.image[..];
    ChainIn(vol.Fat(), ds, g.Entries());
    last, k, a, j := dir, 0, 0, 0;
    assert ds[..0] == [];
    FirstIs([], look, 0);
    while true
      invariant k < |ds| && last == ds[k] && First(Dir(g, b, ds[..k]), look) == |Dir(g, b, ds[..k])|
      decreases |ds| - k
    {
      hit, a, j := ScanCluster(vol, last, look);
      DirAround(g, b, ds, k);
      FirstConcat(Dir(g, b, ds[..k]), ClusterSlots(g, b, ds[k]) + Dir(g, b, ds[k + 1..]), look);
      if hit {
        FirstAround(ClusterSlots(g, b, ds[k]), Dir(g, b, ds[k + 1..]), look);
        return;
      }
      Next(vol.Fat(), ds, k);
      DirUpTo(g, b, ds, k);
      FirstConcat(Dir(g, b, ds[..k]), ClusterSlots(g, b, ds[k]), look);
      var n := vol.GetEntry(last);
      if Stops(n) {
        assert ds[..k + 1] == ds;
        return;
      }
      last, k := n, k + 1;
    }
  }

  lemma FirstAround(x: seq<Slot>, y: seq<Slot>, look: Look)
    requires First(x, look) < |x|
    ensures First(x + y, look) == First(x, look)
  {
    FirstIs(x + y, look, First(x, look));
  }

  lemma DirUpTo(g: Geometry, b: seq<Byte>, ds: seq<nat>, k: nat)
    requires DirFits(g, |b|) && ClustersIn(g, ds) && k < |ds|
    ensures Dir(g, b, ds[..k + 1]) == Dir(g, b, ds[..k]) + ClusterSlots(g, b, ds[k])
  {
    hide DirFits, ClusterSlots;
    assert ds[..k + 1] == ds[..k] + [ds[k]] && [ds[k]][1..] == [];
    DirConcat(g, b, ds[..k], [ds[k]]);
  }

  /** krust_fat32_find_dir_entry */
  method FindDirEntry(vol: Volume, dir: nat, matches: Slot -> bool, ghost ds: seq<nat>) returns (r: Option<Slot>)
    requires DirFits(vol.g, vol.image.Length) && vol.Valid() && Chain(vol.Fat(), ds) && ds != [] && ds[0] == dir
    ensures ClustersIn(vol.g, ds)
    ensures match Found(Dir(vol.g, vol.image[..], ds), matches)
            case None => r == None
            case Some(i) => r == Some(Dir(vol.g, vol.image[..], ds)[i])
  {
    hide Fits, DataAddr, First, PerCluster, SlotAddr, DirFits, ClusterSlots, Table, Chain;
    var hit, a, last, k, j := Scan(vol, dir, Match(matches), ds);
    if !hit { return None; }
    SlotHere(vol.g, vol.image[..], ds, k, j);
    var s: Slot := vol.image[a..a + SLOT];
    return if s[0] == END then None else Some(s);
  }

  lemma SlotHere(g: Geometry, b: seq<Byte>, ds: seq<nat>, k: nat, j: nat)
    requires DirFits(g, |b|) && ClustersIn(g, ds) && k < |ds| && j < PerCluster(g)
    ensures SlotAddr(g, ds[k], j) + SLOT <= |b| && |Dir(g, b, ds[..k])| + j < |Dir(g, b, ds)|
    ensures Dir(g, b, ds)[|Dir(g, b, ds[..k])| + j] == b[SlotAddr(g, ds[k], j)..SlotAddr(g, ds[k], j) + SLOT]
  {
    hide DirFits, PerCluster, SlotAddr;
    ClusterSlotIs(g, b, ds[k], j);
    DirAround(g, b, ds, k);
  }

  /** remove_entry: the directory is the old one with the slot found marked as deleted; nothing else changes. */
  method RemoveEntry(vol: Volume, dir: nat, matches: Slot -> bool, ghost ds: seq<nat>) returns (ok: bool)
    requires DirFits(vol.g, vol.image.Length) && vol.Valid() && Chain(vol.Fat(), ds) && ds != [] && ds[0] == dir
    modifies vol.image
    ensures ClustersIn(vol.g, ds) && vol.Fat() == old(vol.Fat())
    ensures Dir(vol.g, vol.image[..], ds) == Removed(old(Dir(vol.g, vol.image[..], ds)), matches)
    ensures ok <==> Found(old(Dir(vol.g, vol.image[..], ds)), matches).Some?
    ensures OnlyAreas(vol.g, old(vol.image[..]), vol.image[..], ds)
  {
    hide Fits, DataAddr, First, PerCluster, SlotAddr, DirFits, ClusterSlots, Table, Chain, OnlyAreas;
    var hit, a, last, k, j := Scan(vol, dir, Match(matches), ds);
    AreasRefl(vol.g, vol.image[..], ds);
    if !hit { return false; }
    SlotHere(vol.g, vol.image[..], ds, k, j);
    if vol.image[a] == END { return false; }
    ghost var b := vol.image[..];
    ghost var s: Slot := b[a..a + SLOT];
    Distinct(vol.Fat(), ds);
    DirPasted(vol.g, b, ds, k, j, s[0 := DELETED]);
    vol.image[a] := DELETED;
    assert vol.image[..] == Pasted(b, a, s[0 := DELETED]);
    AsFits(vol.g, |b|);
    AreasKeepTable(vol.g, b, vol.image[..], [ds[k]]);
    AreasMore(vol.g, b, b, vol.image[..], ds, ds[k]);
    return true;
  }

  // The new cluster of a grown directory: cleared, then the entry in its first slot.
  lemma NewClusterSlots(g: Geometry, b: seq<Byte>, c: nat, z: seq<Byte>, e: Slot)
    requires DirFits(g, |b|) && 2 <= c < g.Entries() && |z| == BytesPerCluster(g)
    requires (forall i :: 0 <= i < |z| ==> z[i] == 0)
    requires DataAddr(g, c) + BytesPerCluster(g) <= |b| && SLOT <= BytesPerCluster(g)
    ensures PerCluster(g) > 0
    ensures var b' := Pasted(Pasted(b, DataAddr(g, c), z), DataAddr(g, c), e);
            ClusterSlots(g, b', c) == [e] + Zeros(PerCluster(g) - 1) && OnlyAreas(g, b, b', [c])
  {
    hide DirFits, DataAddr, BytesPerCluster, PerCluster;
    AsFits(g, |b|);
    SlotsFill(g, |b|);
    var b1 := Pasted(b, DataAddr(g, c), z);
    PastedArea(g, b, c, z);
    PastedArea(g, b1, c, e);
    SlotInside(g, |b|, c, 0);
    SlotPasted(g, b1, c, 0, e);
    AreasMore(g, b, b1, Pasted(b1, DataAddr(g, c), e), [c], c);
    forall j | 0 < j < PerCluster(g) ensures ClusterSlots(g, b1, c)[j] == Zeros(PerCluster(g) - 1)[j - 1] {
      ClusterSlotIs(g, b1, c, j);
      SlotInside(g, |b|, c, j);
    }
    assert ClusterSlots(g, b1, c)[0 := e] == [e] + Zeros(PerCluster(g) - 1);
  }

  lemma ChainLonger(f: seq<nat>, ds: seq<nat>, c: nat)
    requires Chain(f, ds) && ds != [] && 2 <= c < |f| && c < END_OF_CHAIN && f[c] == FREE
    ensures ds[|ds| - 1] < |f| && c !in ds
    ensures Chain(f[c := END_OF_CHAIN][ds[|ds| - 1] := c], ds + [c])
  {
    forall k | 0 <= k < |ds| ensures ds[k] != c { ChainNotFree(f, ds, k); }
    var f' := f[c := END_OF_CHAIN][ds[|ds| - 1] := c];
    var es := ds + [c];
    forall i | 0 <= i < |es| - 1 ensures f'[es[i]] == es[i + 1] {
      if i < |ds| - 1 { assert f[ds[i]] == ds[i + 1] && ds[i] != ds[|ds| - 1]; }
    }
  }

  // Entries of the table do not reach into any cluster.
  lemma OnlyTableDir(g: Geometry, b: seq<Byte>, b': seq<Byte>, ds: seq<nat>)
    requires DirFits(g, |b|) && OnlyTable(g, b, b') && ClustersIn(g, ds)
    ensures |b'| == |b| && Dir(g, b', ds) == Dir(g, b, ds)
    decreases |ds|
  {
    hide DirFits, ClusterSlots, DataAddr, DataBase, BytesPerCluster, InTable, Reserved;
    if ds == [] {
    } else {
      AsFits(g, |b|);
      DataInside(g, |b|, ds[0]);
      forall a | DataAddr(g, ds[0]) <= a < DataAddr(g, ds[0]) + BytesPerCluster(g) ensures b'[a] == b[a] {
        TableDataAt(g, b, b', a);
      }
      assert Cluster(g, b', ds[0]) == Cluster(g, b, ds[0]);
      SlotsKept(g, b, b', ds[0]);
      OnlyTableDir(g, b, b', ds[1..]);
    }
  }

  /** krust_fat32_add_dir_entry: the directory is the old one with the entry in its first vacant slot, or in the first
      slot of a fresh cleared cluster at the end of the chain. It fails only if such a cluster is needed and none is
      free, and then nothing changes. */
  method AddDirEntry(vol: Volume, dir: nat, e: Slot, ghost ds: seq<nat>) returns (ok: bool, ghost ds': seq<nat>)
    requires DirFits(vol.g, vol.image.Length) && vol.Valid() && Chain(vol.Fat(), ds) && ds != [] && ds[0] == dir
    modifies vol.image
    ensures ClustersIn(vol.g, ds) && PerCluster(vol.g) > 0
    ensures var d := old(Dir(vol.g, vol.image[..], ds));
            && (ok <==> First(d, Vacancy) < |d| || Findable(old(vol.Fat())) != {})
            && (ok ==> && Chain(vol.Fat(), ds') && ClustersIn(vol.g, ds')
                       && Dir(vol.g, vol.image[..], ds') == Added(d, e, PerCluster(vol.g)))
            && (ok && First(d, Vacancy) < |d| ==> ds' == ds && vol.Fat() == old(vol.Fat()))
            && (ok && First(d, Vacancy) == |d| ==>
                  exists c :: && c in Findable(old(vol.Fat()))
                              && ds' == ds + [c]
                              && Extended(old(vol.Fat()), vol.Fat(), ds, c))
    ensures !ok ==> vol.image[..] == old(vol.image[..])
    ensures ok ==> Elsewhere(vol.g, old(vol.image[..]), vol.image[..], ds')
  {
    hide Fits, DataAddr, First, PerCluster, SlotAddr, DirFits, ClusterSlots, Table, Chain, OnlyAreas, OnlyTable,
         Findable, Zeros, Elsewhere;
    SlotsFill(vol.g, vol.image.Length);
    ds' := ds;
    var hit, a, last, k, j := Scan(vol, dir, Vacancy, ds);
    ghost var b := vol.image[..];
    if hit {
      SlotHere(vol.g, b, ds, k, j);
      Distinct(vol.Fat(), ds);
      DirPasted(vol.g, b, ds, k, j, e);
      vol.CopyIn(a, e, 0, SLOT);
      assert e[0..SLOT] == e;
      AsFits(vol.g, |b|);
      AreasKeepTable(vol.g, b, vol.image[..], [ds[k]]);
      OnlyTableRefl(vol.g, b);
      TableAndAreas(vol.g, b, b, vol.image[..], [ds[k]]);
      ElsewhereMore(vol.g, b, vol.image[..], [ds[k]], ds);
      return true, ds';
    }
    ok, ds' := Extend(vol, last, e, ds);
  }

  ghost predicate Extended(f: seq<nat>, f': seq<nat>, ds: seq<nat>, c: nat) {
    ds != [] && ds[|ds| - 1] < |f| && c < |f| && f' == f[c := END_OF_CHAIN][ds[|ds| - 1] := c]
  }

  lemma ChainLast(f: seq<nat>, ds: seq<nat>, total: nat)
    requires Chain(f, ds) && ds != [] && |f| == total
    ensures 2 <= ds[|ds| - 1] < total
  {
  }

  // A cluster more for a full directory.
  method Extend(vol: Volume, last: nat, e: Slot, ghost ds: seq<nat>) returns (ok: bool, ghost ds': seq<nat>)
    requires DirFits(vol.g, vol.image.Length) && vol.Valid() && Chain(vol.Fat(), ds) && ds != [] && last == ds[|ds| - 1]
    requires ClustersIn(vol.g, ds)
    modifies vol.image
    ensures PerCluster(vol.g) > 0
    ensures ok <==> Findable(old(vol.Fat())) != {}
    ensures ok ==> && Chain(vol.Fat(), ds') && ClustersIn(vol.g, ds')
                   && Dir(vol.g, vol.image[..], ds') ==
                       old(Dir(vol.g, vol.image[..], ds)) + [e] + Zeros(PerCluster(vol.g) - 1)
                   && exists c :: && c in Findable(old(vol.Fat()))
                                  && ds' == ds + [c]
                                  && Extended(old(vol.Fat()), vol.Fat(), ds, c)
    ensures !ok ==> vol.image[..] == old(vol.image[..])
    ensures ok ==> Elsewhere(vol.g, old(vol.image[..]), vol.image[..], ds')
  {
    hide Fits, DataAddr, PerCluster, DirFits, ClusterSlots, Table, Chain, OnlyAreas, OnlyTable, Findable, Zeros,
         Elsewhere, BytesPerCluster, Dir, Pasted;
    var g := vol.g;
    ghost var b := vol.image[..];
    ghost var f := vol.Fat();
    SlotsFill(g, |b|);
    GeometryIs(g, |b|);
    ds' := ds;
    var nc := vol.AllocCluster();
    if nc == 0 { return false, ds'; }
    FreeFact(f, nc);
    ChainLonger(f, ds, nc);
    ChainLast(f, ds, g.Entries());
    ghost var b1 := vol.image[..];
    vol.SetEntry(last, nc);
    ghost var b2 := vol.image[..];
    OnlyTableTrans(g, b, b1, b2);
    var zeros: seq<Byte> := seq(BytesPerCluster(g), _ => 0);
    AsFits(g, |b|);
    DataInside(g, |b|, nc);
    vol.CopyIn(DataAddr(g, nc), zeros, 0, |zeros|);
    assert zeros[0..|zeros|] == zeros;
    vol.CopyIn(DataAddr(g, nc), e, 0, SLOT);
    assert e[0..SLOT] == e;
    GrownDir(g, b, b2, vol.image[..], ds, nc, zeros, e);
    ds' := ds + [nc];
    assert Extended(f, vol.Fat(), ds, nc);
    return true, ds';
  }

  lemma GrownDir(g: Geometry, b: seq<Byte>, b2: seq<Byte>, b3: seq<Byte>, ds: seq<nat>, nc: nat, z: seq<Byte>, e: Slot)
    requires DirFits(g, |b|) && OnlyTable(g, b, b2) && |b2| == |b| && ClustersIn(g, ds) && nc !in ds
    requires 2 <= nc < g.Entries()
    requires |z| == BytesPerCluster(g) && (forall i :: 0 <= i < |z| ==> z[i] == 0) && SLOT <= BytesPerCluster(g)
    requires DataAddr(g, nc) + BytesPerCluster(g) <= |b|
    requires b3 == Pasted(Pasted(b2, DataAddr(g, nc), z), DataAddr(g, nc), e)
    ensures Fits(g, |b|) && |b3| == |b| && Table(g, b3) == Table(g, b2) && PerCluster(g) > 0 && ClustersIn(g, ds + [nc])
    ensures Dir(g, b3, ds + [nc]) == Dir(g, b, ds) + [e] + Zeros(PerCluster(g) - 1)
    ensures Elsewhere(g, b, b3, ds + [nc])
  {
    hide Fits, DataAddr, PerCluster, DirFits, ClusterSlots, Table, OnlyAreas, OnlyTable, Zeros, Elsewhere,
         BytesPerCluster, Pasted, Dir;
    AsFits(g, |b|);
    NewClusterSlots(g, b2, nc, z, e);
    AreasKeepTable(g, b2, b3, [nc]);
    OnlyTableDir(g, b, b2, ds);
    DirKept(g, b2, b3, [nc], ds);
    DirLonger(g, b3, ds, nc, e);
    TableAndAreas(g, b, b2, b3, [nc]);
    ElsewhereMore(g, b, b3, [nc], ds + [nc]);
  }

  lemma DirLonger(g: Geometry, b: seq<Byte>, ds: seq<nat>, nc: nat, e: Slot)
    requires DirFits(g, |b|) && ClustersIn(g, ds) && 2 <= nc < g.Entries() && PerCluster(g) > 0
    requires ClusterSlots(g, b, nc) == [e] + Zeros(PerCluster(g) - 1)
    ensures ClustersIn(g, ds + [nc]) && Dir(g, b, ds + [nc]) == Dir(g, b, ds) + [e] + Zeros(PerCluster(g) - 1)
  {
    hide DirFits, Dir, PerCluster, ClusterSlots, Zeros;
    var es, old0, zs := ds + [nc], Dir(g, b, ds), Zeros(PerCluster(g) - 1);
    DirUpTo(g, b, es, |ds|);
    assert es[..|ds|] == ds && es[..|ds| + 1] == es;
    assert old0 + ([e] + zs) == old0 + [e] + zs;
  }

  // ---------------------------------------------------------------- a file and its entry

  lemma {:induction false} ElsewhereDir(g: Geometry, b: seq<Byte>, b': seq<Byte>, cs: seq<nat>, ds: seq<nat>)
    requires DirFits(g, |b|) && Elsewhere(g, b, b', cs) && ClustersIn(g, cs) && ClustersIn(g, ds)
    requires forall d :: d in ds ==> d !in cs
    ensures |b'| == |b| && Dir(g, b', ds) == Dir(g, b, ds)
    decreases |ds|
  {
    hide DirFits, ClusterSlots, Cluster, DataAddr, Reserved, InTable, InArea;
    if ds == [] {
    } else {
      assert ds[0] in ds;
      ElsewhereCluster(g, b, b', cs, ds[0]);
      SlotsKept(g, b, b', ds[0]);
      ElsewhereDir(g, b, b', cs, ds[1..]);
    }
  }

  // A chain that was there shares no cluster with one built from free clusters, and survives it.
  lemma ChainBeside(f0: seq<nat>, f: seq<nat>, cs: seq<nat>, ds: seq<nat>)
    requires Grown(f0, f, cs) && Chain(f0, ds)
    ensures Chain(f, ds) && (forall d :: d in ds ==> d !in cs) && forall c :: c in cs ==> c !in ds
  {
    forall k | 0 <= k < |ds| ensures ds[k] !in cs { ChainNotFree(f0, ds, k); }
    assert forall k :: 0 <= k < |ds| ==> f[ds[k]] == f0[ds[k]];
  }

  // And it survives the directory's getting a cluster more.
  lemma ChainThrough(f: seq<nat>, f': seq<nat>, cs: seq<nat>, ds: seq<nat>, c: nat)
    requires Chain(f, cs) && Chain(f, ds) && (forall d :: d in ds ==> d !in cs)
    requires Extended(f, f', ds, c) && c in Findable(f)
    ensures Chain(f', cs) && (forall x :: x in cs ==> x !in ds + [c])
  {
    FreeFact(f, c);
    forall k | 0 <= k < |cs| ensures cs[k] != c { ChainNotFree(f, cs, k); }
    assert ds[|ds| - 1] in ds;
    assert forall k :: 0 <= k < |cs| ==> cs[k] in cs;
  }

  /** krust_fat32_write_file for a name that is not there. The result of adding the entry is dropped: with data it
      reports success whenever the clusters for the data were had, but the file is listed exactly if a slot was vacant
      or one cluster more was left; otherwise its chain is named by no entry. */
  method WriteFile(vol: Volume, dir: nat, data: seq<Byte>, entry: nat -> Slot, ghost ds: seq<nat>)
    returns (done: bool, ghost listed: bool, ghost cs: seq<nat>, ghost ds': seq<nat>)
    requires DirFits(vol.g, vol.image.Length) && vol.Valid() && Chain(vol.Fat(), ds) && ds != [] && ds[0] == dir
    modifies vol.image
    ensures ClustersIn(vol.g, ds) && PerCluster(vol.g) > 0 && BytesPerCluster(vol.g) > 0
    ensures var d, free := old(Dir(vol.g, vol.image[..], ds)), |Findable(old(vol.Fat()))|;
            var need := (|data| + BytesPerCluster(vol.g) - 1) / BytesPerCluster(vol.g);
            && (done <==> if data == [] then listed else free >= need)
            && (listed <==> free > need || (free == need && First(d, Vacancy) < |d|))
            && (listed ==> && Chain(vol.Fat(), ds') && ClustersIn(vol.g, ds')
                           && Dir(vol.g, vol.image[..], ds') ==
                               Added(d, entry(if cs == [] then 0 else cs[0]), PerCluster(vol.g)))
            && (!listed ==> Dir(vol.g, vol.image[..], ds) == d)
            && (cs == [] <==> data == [] || !done)
    ensures done ==> Chain(vol.Fat(), cs) && ClustersIn(vol.g, cs) && data <= FileBytes(vol.g, vol.image[..], cs)
    ensures !done ==> vol.image[..] == old(vol.image[..])
  {
    hide Fits, DataAddr, First, PerCluster, SlotAddr, DirFits, ClusterSlots, Table, Chain, Findable, Zeros, Elsewhere,
         BytesPerCluster, Dir, FileBytes, Grown, Added;
    var g := vol.g;
    ghost var b0, f0 := vol.image[..], vol.Fat();
    SlotsFill(g, |b0|);
    GeometryIs(g, |b0|);
    ChainIn(f0, ds, g.Entries());
    cs := [];
    if data == [] {
      var ok;
      ok, ds' := AddDirEntry(vol, dir, entry(0), ds);
      EmptyFile(g, vol.image[..], vol.Fat());
      Emptiness(Findable(f0));
      return ok, ok, cs, ds';
    }
    NeedsSome(|data|, BytesPerCluster(g));
    var ok, first;
    ok, first, cs := vol.WriteNew(data);
    if !ok { return false, false, [], ds; }
    ghost var b1, f1 := vol.image[..], vol.Fat();
    Emptiness(Findable(f1));
    ChainBeside(f0, f1, cs, ds);
    GrownChain(f0, f1, cs);
    ElsewhereDir(g, b0, b1, cs, ds);
    var put;
    put, ds' := AddDirEntry(vol, dir, entry(first), ds);
    if put {
      if First(Dir(g, b1, ds), Vacancy) == |Dir(g, b1, ds)| {
        ghost var c :| c in Findable(f1) && ds' == ds + [c] && Extended(f1, vol.Fat(), ds, c);
        ChainThrough(f1, vol.Fat(), cs, ds, c);
      }
      ElsewhereFile(g, b1, vol.image[..], ds', cs);
    }
    return true, put, cs, ds';
  }

  lemma EmptyFile(g: Geometry, b: seq<Byte>, f: seq<nat>)
    requires Fits(g, |b|) && BytesPerCluster(g) > 0
    ensures Chain(f, []) && ClustersIn(g, []) && FileBytes(g, b, []) == []
    ensures (0 + BytesPerCluster(g) - 1) / BytesPerCluster(g) == 0
  {
  }

  lemma NeedsSome(n: nat, bpc: nat)
    requires n > 0 && bpc > 0
    ensures (n + bpc - 1) / bpc >= 1
  {
  }

  lemma Emptiness(s: set<nat>)
    ensures s == {} <==> |s| == 0
  {
  }
}
