/** A FAT32 image in memory (kernel/src/fs/fat32.rs): bytes, entries read and written through them, clusters of data.
    Bits are written out as arithmetic: masking is a remainder, joining disjoint bits a sum. */
module FatVolume {
  import opened FatTable

  type Byte = x: nat | x < 256

  // read_le32
  function Word(b: seq<Byte>, a: nat): (w: nat)
    requires a + 4 <= |b|
    ensures w < 0x1_0000_0000
  {
    (b[a] as int) + 0x100 * (b[a + 1] as int) + 0x1_0000 * (b[a + 2] as int) + 0x100_0000 * (b[a + 3] as int)
  }

  // write_le32
  function Stored(b: seq<Byte>, a: nat, w: nat): (b': seq<Byte>)
    requires a + 4 <= |b| && w < 0x1_0000_0000
    ensures |b'| == |b| && forall i :: 0 <= i < |b| && !(a <= i < a + 4) ==> b'[i] == b[i]
  {
    b[a := w % 0x100][a + 1 := w / 0x100 % 0x100][a + 2 := w / 0x1_0000 % 0x100][a + 3 := w / 0x100_0000]
  }

  lemma Digits(w: nat)
    requires w < 0x1_0000_0000
    ensures w / 0x100_0000 < 0x100
    ensures w % 0x100 + 0x100 * (w / 0x100 % 0x100) + 0x1_0000 * (w / 0x1_0000 % 0x100) +
        0x100_0000 * (w / 0x100_0000) == w
  {
    assert w / 0x1_0000 == w / 0x100 / 0x100;
    assert w / 0x100_0000 == w / 0x1_0000 / 0x100;
  }

  lemma WordStored(b: seq<Byte>, a: nat, w: nat)
    requires a + 4 <= |b| && w < 0x1_0000_0000
    ensures Word(Stored(b, a, w), a) == w
  {
    Digits(w);
    var b' := Stored(b, a, w);
    var d0, d1, d2, d3 := w % 0x100, w / 0x100 % 0x100, w / 0x1_0000 % 0x100, w / 0x100_0000;
    StoredAt(b, a, d0, d1, d2, d3);
  }

  lemma StoredAt(b: seq<Byte>, a: nat, d0: Byte, d1: Byte, d2: Byte, d3: Byte)
    requires a + 4 <= |b|
    ensures Word(b[a := d0][a + 1 := d1][a + 2 := d2][a + 3 := d3], a) ==
        (d0 as int) + 0x100 * (d1 as int) + 0x1_0000 * (d2 as int) + 0x100_0000 * (d3 as int)
  {
  }

  lemma WordElsewhere(b: seq<Byte>, b': seq<Byte>, a: nat)
    requires |b'| == |b| && a + 4 <= |b| && forall i :: a <= i < a + 4 ==> b'[i] == b[i]
    ensures Word(b', a) == Word(b, a)
  {
  }

  // The fields of the mounted instance the core uses. `total` counts clusters, which are numbered from 2.
  datatype Geometry = Geometry(bps: nat, spc: nat, firstFat: nat, firstData: nat, total: nat) {
    function Entries(): nat { total + 2 }
  }

  function BytesPerCluster(g: Geometry): nat { g.bps * g.spc }

  function FatBase(g: Geometry): nat { g.firstFat * g.bps }

  function DataBase(g: Geometry): nat { g.firstData * g.bps }

  // get_fat_entry and set_fat_entry: sector of the entry, then its place in the sector.
  function EntryAddr(g: Geometry, c: nat): nat
    requires g.bps > 0
  {
    (g.firstFat + 4 * c / g.bps) * g.bps + 4 * c % g.bps
  }

  function DataAddr(g: Geometry, c: nat): nat
    requires c >= 2
  {
    (g.firstData + (c - 2) * g.spc) * g.bps
  }

  // Sector arithmetic is a plain offset.
  lemma EntryAddrIs(g: Geometry, c: nat)
    requires g.bps > 0
    ensures EntryAddr(g, c) == FatBase(g) + 4 * c
  {
    var q, r := 4 * c / g.bps, 4 * c % g.bps;
    assert 4 * c == q * g.bps + r;
    Distribute(g.firstFat, q, g.bps);
  }

  lemma DataAddrIs(g: Geometry, c: nat)
    requires c >= 2
    ensures DataAddr(g, c) == DataBase(g) + (c - 2) * BytesPerCluster(g)
  {
    Distribute(g.firstData, (c - 2) * g.spc, g.bps);
    assert (c - 2) * g.spc * g.bps == (c - 2) * (g.bps * g.spc);
  }

  lemma Distribute(x: nat, y: nat, z: nat)
    ensures (x + y) * z == x * z + y * z
  {
  }

  lemma Monotone(x: nat, y: nat, z: nat)
    requires x < y
    ensures x * z + z <= y * z
  {
    Distribute(x + 1, y - x - 1, z);
    Distribute(x, 1, z);
  }

  // The table and the clusters fit the image, the table in front of the clusters.
  ghost predicate Fits(g: Geometry, len: nat) {
    && g.bps > 0 && g.spc > 0 && g.Entries() <= END_OF_CHAIN
    && FatBase(g) + 4 * g.Entries() <= DataBase(g)
    && DataBase(g) + g.total * BytesPerCluster(g) <= len
  }

  lemma EntryInside(g: Geometry, len: nat, c: nat)
    requires Fits(g, len) && c < g.Entries()
    ensures EntryAddr(g, c) == FatBase(g) + 4 * c && EntryAddr(g, c) + 4 <= DataBase(g) <= len
  {
    hide FatBase, DataBase, BytesPerCluster, EntryAddr;
    assert g.total * BytesPerCluster(g) >= 0;
    EntryAddrIs(g, c);
  }

  lemma DataInside(g: Geometry, len: nat, c: nat)
    requires Fits(g, len) && 2 <= c < g.Entries()
    ensures DataBase(g) <= DataAddr(g, c) && DataAddr(g, c) + BytesPerCluster(g) <= len
  {
    DataAddrIs(g, c);
    Monotone(c - 2, g.total, BytesPerCluster(g));
  }

  lemma DataApart(g: Geometry, c: nat, d: nat)
    requires 2 <= c < d
    ensures DataAddr(g, c) + BytesPerCluster(g) <= DataAddr(g, d)
  {
    DataAddrIs(g, c);
    DataAddrIs(g, d);
    Monotone(c - 2, d - 2, BytesPerCluster(g));
  }

  // An entry is the low 28 bits of its word.
  function Entry(g: Geometry, b: seq<Byte>, c: nat): (n: nat)
    requires g.bps > 0 && EntryAddr(g, c) + 4 <= |b|
    ensures n < ENTRY_LIMIT
  {
    Word(b, EntryAddr(g, c)) % ENTRY_LIMIT
  }

  // The table the bytes spell.
  ghost function Table(g: Geometry, b: seq<Byte>): (f: seq<nat>)
    requires Fits(g, |b|)
    ensures |f| == g.Entries()
  {
    seq(g.Entries(), c requires 0 <= c < g.Entries() => (EntryInside(g, |b|, c); Entry(g, b, c)))
  }

  lemma TableAt(g: Geometry, b: seq<Byte>, c: nat)
    requires Fits(g, |b|) && c < g.Entries()
    ensures EntryAddr(g, c) + 4 <= |b| && Table(g, b)[c] == Entry(g, b, c)
  {
    EntryInside(g, |b|, c);
  }

  // set_fat_entry keeps the top four bits.
  function WithEntry(g: Geometry, b: seq<Byte>, c: nat, v: nat): seq<Byte>
    requires g.bps > 0 && EntryAddr(g, c) + 4 <= |b|
  {
    var a := EntryAddr(g, c);
    var kept := Word(b, a) / ENTRY_LIMIT * ENTRY_LIMIT;
    Stored(b, a, kept + v % ENTRY_LIMIT)
  }

  // The four bits of a word that belong to no entry.
  ghost function Reserved(g: Geometry, b: seq<Byte>, c: nat): nat
    requires Fits(g, |b|) && c < g.Entries()
  {
    EntryInside(g, |b|, c);
    Word(b, EntryAddr(g, c)) / ENTRY_LIMIT
  }

  /** Writing one entry changes that entry of the table, keeps the reserved bits and touches no other byte. */
  lemma WithEntryIs(g: Geometry, b: seq<Byte>, c: nat, v: nat)
    requires Fits(g, |b|) && c < g.Entries() && v < ENTRY_LIMIT
    ensures EntryAddr(g, c) + 4 <= |b|
    ensures var b' := WithEntry(g, b, c, v);
            && |b'| == |b| && Table(g, b') == Table(g, b)[c := v]
            && Reserved(g, b', c) == Reserved(g, b, c)
            && forall i :: 0 <= i < |b| && !(EntryAddr(g, c) <= i < EntryAddr(g, c) + 4) ==> b'[i] == b[i]
  {
    hide Word, Stored, Fits, EntryAddr;
    EntryInside(g, |b|, c);
    var a := EntryAddr(g, c);
    var b' := WithEntry(g, b, c, v);
    WordStored(b, a, Word(b, a) / ENTRY_LIMIT * ENTRY_LIMIT + v);
    forall d | 0 <= d < g.Entries() ensures Table(g, b')[d] == Table(g, b)[c := v][d] {
      TableAt(g, b, d);
      TableAt(g, b', d);
      EntryInside(g, |b|, d);
      if d != c { WordElsewhere(b, b', EntryAddr(g, d)); }
    }
  }

  // ---------------------------------------------------------------- cluster contents

  function Cluster(g: Geometry, b: seq<Byte>, c: nat): (d: seq<Byte>)
    requires c >= 2 && DataAddr(g, c) + BytesPerCluster(g) <= |b|
    ensures |d| == BytesPerCluster(g)
  {
    b[DataAddr(g, c)..DataAddr(g, c) + BytesPerCluster(g)]
  }

  ghost predicate ClustersIn(g: Geometry, cs: seq<nat>) { forall i :: 0 <= i < |cs| ==> 2 <= cs[i] < g.Entries() }

  // A file read cluster by cluster.
  ghost function FileBytes(g: Geometry, b: seq<Byte>, cs: seq<nat>): seq<Byte>
    requires Fits(g, |b|) && ClustersIn(g, cs)
    decreases |cs|
  {
    if cs == [] then []
    else
      DataInside(g, |b|, cs[|cs| - 1]);
      FileBytes(g, b, cs[..|cs| - 1]) + Cluster(g, b, cs[|cs| - 1])
  }

  // copy_volatile
  function Pasted(b: seq<Byte>, a: nat, d: seq<Byte>): (b': seq<Byte>)
    requires a + |d| <= |b|
    ensures |b'| == |b| && b'[a..a + |d|] == d && forall i :: 0 <= i < |b| && !(a <= i < a + |d|) ==> b'[i] == b[i]
  {
    b[..a] + d + b[a + |d|..]
  }

  ghost predicate InArea(g: Geometry, c: nat, a: nat) {
    c >= 2 && DataAddr(g, c) <= a < DataAddr(g, c) + BytesPerCluster(g)
  }

  // Bytes outside the clusters cs are the same.
  ghost predicate OnlyAreas(g: Geometry, b: seq<Byte>, b': seq<Byte>, cs: seq<nat>) {
    |b'| == |b| && forall a :: 0 <= a < |b| && (forall c :: c in cs ==> !InArea(g, c, a)) ==> b'[a] == b[a]
  }

  // Nothing but entries of the table changed: not the bits of its words that belong to no entry, not the sectors before
  // it, not the clusters behind it.
  ghost predicate OnlyTable(g: Geometry, b: seq<Byte>, b': seq<Byte>) {
    && Fits(g, |b|) && |b'| == |b| && (forall a :: 0 <= a < |b| && !InTable(g, a) ==> b'[a] == b[a])
    && forall c :: 0 <= c < g.Entries() ==> Reserved(g, b', c) == Reserved(g, b, c)
  }

  predicate InTable(g: Geometry, a: nat) { FatBase(g) <= a < FatBase(g) + 4 * g.Entries() }

  lemma OnlyTableRefl(g: Geometry, b: seq<Byte>)
    requires Fits(g, |b|)
    ensures OnlyTable(g, b, b)
  {
  }

  lemma OnlyTableTrans(g: Geometry, b: seq<Byte>, b1: seq<Byte>, b2: seq<Byte>)
    requires OnlyTable(g, b, b1) && OnlyTable(g, b1, b2)
    ensures OnlyTable(g, b, b2)
  {
    hide Reserved, InTable;
  }

  lemma EntryOnly(g: Geometry, b: seq<Byte>, c: nat, v: nat)
    requires Fits(g, |b|) && c < g.Entries() && v < ENTRY_LIMIT && g.bps > 0 && EntryAddr(g, c) + 4 <= |b|
    ensures OnlyTable(g, b, WithEntry(g, b, c, v))
  {
    hide Fits, Word, EntryAddr, WithEntry, FatBase;
    var b' := WithEntry(g, b, c, v);
    WithEntryIs(g, b, c, v);
    EntryInside(g, |b|, c);
    forall d | 0 <= d < g.Entries() ensures Reserved(g, b', d) == Reserved(g, b, d) {
      EntryInside(g, |b|, d);
      if d != c { WordElsewhere(b, b', EntryAddr(g, d)); }
    }
  }

  lemma WordBytes(b: seq<Byte>, b': seq<Byte>, a: nat)
    requires a + 4 <= |b| == |b'| && Word(b', a) == Word(b, a)
    ensures b'[a] == b[a] && b'[a + 1] == b[a + 1] && b'[a + 2] == b[a + 2] && b'[a + 3] == b[a + 3]
  {
    var u2 := (b[a + 2] as int) + 0x100 * (b[a + 3] as int);
    var v2 := (b'[a + 2] as int) + 0x100 * (b'[a + 3] as int);
    Digit(b[a], b'[a], (b[a + 1] as int) + 0x100 * u2, (b'[a + 1] as int) + 0x100 * v2);
    Digit(b[a + 1], b'[a + 1], u2, v2);
    Digit(b[a + 2], b'[a + 2], b[a + 3] as int, b'[a + 3] as int);
  }

  lemma Digit(x: Byte, y: Byte, u: int, v: int)
    requires (x as int) + 0x100 * u == (y as int) + 0x100 * v
    ensures x == y && u == v
  {
  }

  // A table back to what it was is an image back to what it was.
  lemma SameBytes(g: Geometry, b: seq<Byte>, b': seq<Byte>)
    requires Fits(g, |b|) && OnlyTable(g, b, b') && Table(g, b') == Table(g, b)
    ensures b' == b
  {
    hide Fits, Word, EntryAddr, Table, FatBase;
    forall a | 0 <= a < |b| ensures b'[a] == b[a] {
      if InTable(g, a) {
        var c := (a - FatBase(g)) / 4;
        EntryInside(g, |b|, c);
        TableAt(g, b, c);
        TableAt(g, b', c);
        assert Reserved(g, b', c) == Reserved(g, b, c);
        WordBytes(b, b', EntryAddr(g, c));
      }
    }
  }

  lemma TableDataAt(g: Geometry, b: seq<Byte>, b': seq<Byte>, a: nat)
    requires OnlyTable(g, b, b') && DataBase(g) <= a < |b|
    ensures |b'| == |b| && b'[a] == b[a]
  {
    assert !InTable(g, a);
  }

  lemma AreasKeepTable(g: Geometry, b: seq<Byte>, b': seq<Byte>, cs: seq<nat>)
    requires Fits(g, |b|) && OnlyAreas(g, b, b', cs) && ClustersIn(g, cs)
    ensures Table(g, b') == Table(g, b)
  {
    hide Fits, Word, EntryAddr;
    forall c | 0 <= c < g.Entries() ensures Table(g, b')[c] == Table(g, b)[c] {
      TableAt(g, b, c);
      TableAt(g, b', c);
      EntryInside(g, |b|, c);
      forall a | EntryAddr(g, c) <= a < EntryAddr(g, c) + 4 ensures b'[a] == b[a] {
        forall d | d in cs ensures !InArea(g, d, a) { DataInside(g, |b|, d); }
      }
      WordElsewhere(b, b', EntryAddr(g, c));
    }
  }

  lemma OtherClusterKept(g: Geometry, b: seq<Byte>, b': seq<Byte>, cs: seq<nat>, c: nat)
    requires Fits(g, |b|) && OnlyAreas(g, b, b', cs) && ClustersIn(g, cs) && 2 <= c < g.Entries() && c !in cs
    ensures DataAddr(g, c) + BytesPerCluster(g) <= |b| && Cluster(g, b', c) == Cluster(g, b, c)
  {
    hide Fits, DataAddr;
    DataInside(g, |b|, c);
    forall a | DataAddr(g, c) <= a < DataAddr(g, c) + BytesPerCluster(g) ensures b'[a] == b[a] {
      forall d | d in cs ensures !InArea(g, d, a) {
        if d < c { DataApart(g, d, c); } else { DataApart(g, c, d); }
      }
    }
  }

  lemma {:induction false} FileKept(g: Geometry, b: seq<Byte>, b': seq<Byte>, cs: seq<nat>, ds: seq<nat>)
    requires Fits(g, |b|) && OnlyAreas(g, b, b', cs) && ClustersIn(g, cs) && ClustersIn(g, ds)
    requires forall d :: d in ds ==> d !in cs
    ensures FileBytes(g, b', ds) == FileBytes(g, b, ds)
    decreases |ds|
  {
    hide Fits, DataAddr, OnlyAreas, Cluster;
    if ds == [] {
    } else {
      var last := ds[|ds| - 1];
      assert last in ds && |b'| == |b| by { SameLength(g, b, b', cs); }
      OtherClusterKept(g, b, b', cs, last);
      FileKept(g, b, b', cs, ds[..|ds| - 1]);
      DataInside(g, |b|, last);
    }
  }

  lemma SameLength(g: Geometry, b: seq<Byte>, b': seq<Byte>, cs: seq<nat>)
    requires OnlyAreas(g, b, b', cs)
    ensures |b'| == |b|
  {
  }

  lemma PastedArea(g: Geometry, b: seq<Byte>, c: nat, d: seq<Byte>)
    requires Fits(g, |b|) && 2 <= c < g.Entries() && |d| <= BytesPerCluster(g)
    ensures DataAddr(g, c) + BytesPerCluster(g) <= |b|
    ensures var b' := Pasted(b, DataAddr(g, c), d);
            OnlyAreas(g, b, b', [c]) && Cluster(g, b', c)[..|d|] == d
  {
    hide Fits, DataAddr;
    DataInside(g, |b|, c);
    var b' := Pasted(b, DataAddr(g, c), d);
    forall a | 0 <= a < |b| && (forall x :: x in [c] ==> !InArea(g, x, a)) ensures b'[a] == b[a] {
      assert c in [c];
    }
  }

  lemma AreasMore(g: Geometry, b: seq<Byte>, b1: seq<Byte>, b2: seq<Byte>, cs: seq<nat>, c: nat)
    requires OnlyAreas(g, b, b1, cs) && OnlyAreas(g, b1, b2, [c]) && c in cs
    ensures OnlyAreas(g, b, b2, cs)
  {
  }

  // The next cluster of the file is written, the ones before it are not disturbed.
  lemma FileGrows(g: Geometry, b: seq<Byte>, cs: seq<nat>, k: nat, d: seq<Byte>)
    requires Fits(g, |b|) && ClustersIn(g, cs) && k < |cs| && (forall i, j :: 0 <= i < j < |cs| ==> cs[i] != cs[j])
    requires |d| <= BytesPerCluster(g) && DataAddr(g, cs[k]) + BytesPerCluster(g) <= |b|
    ensures var b' := Pasted(b, DataAddr(g, cs[k]), d);
            && FileBytes(g, b', cs[..k]) == FileBytes(g, b, cs[..k])
            && FileBytes(g, b, cs[..k]) + d <= FileBytes(g, b', cs[..k + 1])
            && (|d| == BytesPerCluster(g) ==> FileBytes(g, b', cs[..k + 1]) == FileBytes(g, b, cs[..k]) + d)
  {
    hide Fits, DataAddr, OnlyAreas, Cluster;
    var b' := Pasted(b, DataAddr(g, cs[k]), d);
    PastedArea(g, b, cs[k], d);
    assert forall x :: x in cs[..k] ==> x !in [cs[k]];
    FileKept(g, b, b', [cs[k]], cs[..k]);
    assert cs[..k + 1][..k] == cs[..k];
    DataInside(g, |b'|, cs[k]);
    var old0, last := FileBytes(g, b, cs[..k]), Cluster(g, b', cs[k]);
    assert FileBytes(g, b', cs[..k + 1]) == old0 + last;
    assert (old0 + last)[..|old0| + |d|] == old0 + last[..|d|];
  }

  // ---------------------------------------------------------------- lists of free clusters

  function FreeClusters(f: seq<nat>): set<nat> { set c | 2 <= c < |f| && f[c] == FREE }

  // Those that alloc_cluster looks at: its search ends two clusters short of the last.
  function Findable(f: seq<nat>): set<nat> { set c | 2 <= c < |f| - 2 && f[c] == FREE }

  /** The search sees every free cluster exactly if neither of the last two is free. */
  lemma LastTwoNeverFound(f: seq<nat>)
    requires |f| >= 4
    ensures Findable(f) == FreeClusters(f) <==> f[|f| - 2] != FREE && f[|f| - 1] != FREE
    ensures FreeClusters(f) - Findable(f) == set c | |f| - 2 <= c < |f| && f[c] == FREE
  {
    assert |f| - 2 in FreeClusters(f) <==> f[|f| - 2] == FREE;
    assert |f| - 1 in FreeClusters(f) <==> f[|f| - 1] == FREE;
    assert |f| - 2 !in Findable(f) && |f| - 1 !in Findable(f);
  }

  // Links from `start` on stay inside the table.
  ghost predicate Sound(f: seq<nat>, start: nat) {
    forall c :: 0 <= c < |f| && Reaches(f, start, c) ==> Stops(f[c]) || f[c] < |f|
  }

  lemma SoundStep(f: seq<nat>, start: nat)
    requires start < |f| && Sound(f, start) && !Stops(f[start])
    ensures f[start] < |f| && Sound(f[start := FREE], f[start])
  {
    ReachesSelf(f, start);
    var f' := f[start := FREE];
    forall c | 0 <= c < |f'| && Reaches(f', f[start], c)
      ensures Stops(f'[c]) || f'[c] < |f'| { ReachesStep(f, start, c); }
  }

  lemma ChainSound(f: seq<nat>, cs: seq<nat>)
    requires Chain(f, cs) && cs != []
    ensures Sound(f, cs[0])
  {
    forall c | 0 <= c < |f| && Reaches(f, cs[0], c) ensures Stops(f[c]) || f[c] < |f| {
      var p :| PathFromTo(f, p, cs[0], c);
      PathInChain(f, cs, p, |p| - 1);
      assert |p| - 1 < |cs| - 1 ==> f[cs[|p| - 1]] == cs[|p| - 1 + 1];
    }
  }

  class Volume {
    const g: Geometry
    const image: array<Byte>

    ghost predicate Valid()
      reads image
    {
      Fits(g, image.Length)
    }

    ghost function Fat(): seq<nat>
      requires Valid()
      reads image
    {
      Table(g, image[..])
    }

    constructor (geometry: Geometry, bytes: array<Byte>)
      requires Fits(geometry, bytes.Length)
      ensures Valid() && g == geometry && image == bytes
    {
      g, image := geometry, bytes;
    }

    // krust_fat32_get_fat_entry
    method GetEntry(c: nat) returns (n: nat)
      requires Valid() && c < g.Entries()
      ensures n == Fat()[c] < ENTRY_LIMIT
    {
      hide Fits, Word;
      TableAt(g, image[..], c);
      GeometryIs(g, image.Length);
      var a := EntryAddr(g, c);
      var w := ReadWord(a);
      n := w % ENTRY_LIMIT;
    }

    method ReadWord(a: nat) returns (w: nat)
      requires a + 4 <= image.Length
      ensures w == Word(image[..], a)
    {
      w := (image[a] as int) + 0x100 * (image[a + 1] as int) + 0x1_0000 * (image[a + 2] as int) +
        0x100_0000 * (image[a + 3] as int);
    }

    method WriteWord(a: nat, w: nat)
      requires a + 4 <= image.Length && w < 0x1_0000_0000
      modifies image
      ensures image[..] == Stored(old(image[..]), a, w)
    {
      Digits(w);
      image[a] := w % 0x100;
      image[a + 1] := w / 0x100 % 0x100;
      image[a + 2] := w / 0x1_0000 % 0x100;
      image[a + 3] := w / 0x100_0000;
    }

    // krust_fat32_set_fat_entry
    method SetEntry(c: nat, v: nat)
      requires Valid() && c < g.Entries() && v < ENTRY_LIMIT
      modifies image
      ensures Fat() == old(Fat())[c := v] && OnlyTable(g, old(image[..]), image[..])
      ensures forall a :: 0 <= a < image.Length && !(0 <= a - EntryAddr(g, c) < 4) ==> image[a] == old(image[a])
    {
      hide Fits, Word, EntryAddr, Stored, Table, OnlyTable;
      GeometryIs(g, image.Length);
      EntryInside(g, image.Length, c);
      WithEntryIs(g, image[..], c, v);
      EntryOnly(g, image[..], c, v);
      var a := EntryAddr(g, c);
      var w := ReadWord(a);
      var kept := w / ENTRY_LIMIT * ENTRY_LIMIT;
      WriteWord(a, kept + v % ENTRY_LIMIT);
      assert image[..] == WithEntry(g, old(image[..]), c, v);
    }

    /** krust_fat32_alloc_cluster: the lowest free cluster becomes a chain of one. */
    method AllocCluster() returns (c: nat)
      requires Valid()
      modifies image
      ensures OnlyTable(g, old(image[..]), image[..])
      ensures c == 0 <==> Findable(old(Fat())) == {}
      ensures c == 0 ==> image[..] == old(image[..])
      ensures c != 0 ==> && c in Findable(old(Fat())) && (forall d :: d in Findable(old(Fat())) ==> c <= d)
                         && Fat() == old(Fat())[c := END_OF_CHAIN]
    {
      hide Fits, Table, Word, EntryAddr, OnlyTable;
      c := 2;
      GeometryIs(g, image.Length);
      OnlyTableRefl(g, image[..]);
      while c < g.total
        invariant 2 <= c && (c <= g.total || c == 2) && image[..] == old(image[..]) && Valid()
        invariant forall d :: 2 <= d < c ==> Fat()[d] != FREE
      {
        var n := GetEntry(c);
        if n == FREE {
          assert c in Findable(Fat());
          SetEntry(c, END_OF_CHAIN);
          return;
        }
        c := c + 1;
      }
      assert forall d :: d !in Findable(Fat());
      return 0;
    }

    /** krust_fat32_free_chain: ends even when the links run in a circle, since every turn frees an entry in use, and
        frees exactly what `start` reaches. */
    method FreeChain(start: nat)
      requires Valid() && start < g.Entries() && Sound(Fat(), start)
      modifies image
      ensures Freed(old(Fat()), Fat(), start) && OnlyTable(g, old(image[..]), image[..])
    {
      hide Fits, Table, Freed, Sound, OnlyTable;
      OnlyTableRefl(g, image[..]);
      var c: nat, going := start, true;
      while going
        invariant c < g.Entries() && Valid() && OnlyTable(g, old(image[..]), image[..])
        invariant going ==> Sound(Fat(), c) && forall f :: Freed(Fat(), f, c) ==> Freed(old(Fat()), f, start)
        invariant !going ==> Freed(old(Fat()), Fat(), start)
        decreases going, Used(Fat())
      {
        ghost var f, b := Fat(), image[..];
        var n := GetEntry(c);
        SetEntry(c, FREE);
        OnlyTableTrans(g, old(image[..]), b, image[..]);
        if Stops(n) {
          FreedEnd(f, c);
          going := false;
        } else {
          UsedDrops(f, c);
          SoundStep(f, c);
          forall f' | Freed(Fat(), f', n) ensures Freed(old(Fat()), f', start) { FreedMore(f, f', c); }
          c := n;
        }
      }
    }

    /** The first loop of krust_fat32_write_file. Either `num` clusters that were free are linked into a chain, or
        there are not that many and the table is what it was; no data is touched. */
    method AllocChain(num: nat) returns (ok: bool, first: nat, ghost cs: seq<nat>)
      requires Valid() && num > 0
      modifies image
      ensures OnlyTable(g, old(image[..]), image[..])
      ensures ok <==> |Findable(old(Fat()))| >= num
      ensures ok ==> |cs| == num && Grown(old(Fat()), Fat(), cs) && cs[0] == first
      ensures ok ==> forall c :: c in cs ==> c < g.total
      ensures ok ==> |Findable(Fat())| + num == |Findable(old(Fat()))|
      ensures !ok ==> image[..] == old(image[..])
    {
      hide Fits, Table, Grown, Findable, Freed, Sound, OnlyTable;
      GeometryIs(g, image.Length);
      OnlyTableRefl(g, image[..]);
      var prev, i := 0, 0;
      first, cs := 0, [];
      GrownNone(Fat());
      ghost var free := Findable(Fat());
      while i < num
        invariant i <= num && |cs| == i && Valid() && OnlyTable(g, old(image[..]), image[..])
        invariant Grown(old(Fat()), Fat(), cs) && prev == (if cs == [] then 0 else cs[i - 1])
        invariant first == (if cs == [] then 0 else cs[0])
        invariant cs != [] ==> 2 <= cs[0] < g.Entries() && 2 <= cs[i - 1] < g.Entries()
        invariant |Findable(Fat())| + i == |free| && forall c :: c in cs ==> c < g.total
      {
        ghost var f, b := Fat(), image[..];
        var c := AllocCluster();
        OnlyTableTrans(g, old(image[..]), b, image[..]);
        if c == 0 {
          NoneFree(f);
          if first != 0 {
            GrownSound(old(Fat()), f, cs);
            FreeChain(first);
            OnlyTableTrans(g, old(image[..]), b, image[..]);
            Restored(old(Fat()), f, cs, Fat());
          } else {
            GrownFrom(old(Fat()), f);
          }
          SameBytes(g, old(image[..]), image[..]);
          return false, first, cs;
        }
        FreeFact(f, c);
        GrownMore(old(Fat()), f, cs, c);
        if i == 0 { first := c; }
        ghost var b1 := image[..];
        if prev != 0 {
          SetEntry(prev, c);
          OnlyTableTrans(g, old(image[..]), b1, image[..]);
        }
        if cs != [] { GrownLast(old(Fat()), f, cs); }
        FreeDrops(f, c, prev);
        prev, cs, i := c, cs + [c], i + 1;
      }
      return true, first, cs;
    }

    // copy_volatile from the caller's buffer
    method CopyIn(a: nat, data: seq<Byte>, off: nat, n: nat)
      requires a + n <= image.Length && off + n <= |data|
      modifies image
      ensures image[..] == Pasted(old(image[..]), a, data[off..off + n])
    {
      var i := 0;
      while i < n
        invariant i <= n
        invariant forall k ::
          0 <= k < image.Length ==> image[k] == if a <= k < a + i then data[off + k - a] else old(image[k])
      {
        image[a + i] := data[off + i];
        i := i + 1;
      }
    }

    // One turn of that loop.
    method WriteChunk(ghost b0: seq<Byte>, c: nat, data: seq<Byte>, off: nat, chunk: nat, ghost cs: seq<nat>,
                      ghost k: nat)
      requires Valid() && ClustersIn(g, cs) && (forall i, j :: 0 <= i < j < |cs| ==> cs[i] != cs[j])
      requires k < |cs| && c == cs[k] && off + chunk <= |data| && chunk <= BytesPerCluster(g)
      requires FileBytes(g, image[..], cs[..k]) == data[..off] && OnlyAreas(g, b0, image[..], cs)
      modifies image
      ensures Fat() == old(Fat()) && OnlyAreas(g, b0, image[..], cs)
      ensures data[..off + chunk] <= FileBytes(g, image[..], cs[..k + 1])
      ensures chunk == BytesPerCluster(g) ==> FileBytes(g, image[..], cs[..k + 1]) == data[..off + chunk]
    {
      hide Fits, Table, FileBytes, OnlyAreas, DataAddr, BytesPerCluster;
      ghost var b, d := image[..], data[off..off + chunk];
      PastedArea(g, b, c, d);
      FileGrows(g, b, cs, k, d);
      CopyIn(DataAddr(g, c), data, off, chunk);
      AreasMore(g, b0, b, image[..], cs, c);
      AreasKeepTable(g, b, image[..], [c]);
      assert data[..off] + d == data[..off + chunk];
    }

    /** The second loop of krust_fat32_write_file: the chain then holds the data in order, and no byte outside its
        clusters has changed. */
    method WriteData(first: nat, data: seq<Byte>, ghost cs: seq<nat>)
      requires Valid() && Chain(Fat(), cs) && cs != [] && cs[0] == first && data != [] && Needs(g, |data|, |cs|)
      modifies image
      ensures Fat() == old(Fat()) && ClustersIn(g, cs)
      ensures data <= FileBytes(g, image[..], cs) && OnlyAreas(g, old(image[..]), image[..], cs)
    {
      hide Fits, Table, FileBytes, OnlyAreas, DataAddr, BytesPerCluster, Needs;
      GeometryIs(g, image.Length);
      var bpc, rem, c, off := BytesPerCluster(g), |data|, first, 0;
      ghost var k := 0;
      ChainIn(Fat(), cs, g.Entries());
      FileNone(g, image[..], cs);
      AreasRefl(g, image[..], cs);
      NeedsFirst(g, |data|, |cs|);
      while rem > 0 && 2 <= c < END_OF_CHAIN
        invariant Valid() && Fat() == old(Fat()) && OnlyAreas(g, old(image[..]), image[..], cs) && rem == |data| - off
        invariant off <= |data|
        invariant rem > 0 ==>
          k < |cs| && c == cs[k] && Needs(g, rem, |cs| - k) && FileBytes(g, image[..], cs[..k]) == data[..off]
        invariant rem == 0 ==> data <= FileBytes(g, image[..], cs)
        invariant rem > 0 ==> 2 <= c < END_OF_CHAIN
        decreases rem
      {
        var chunk := if rem > bpc then bpc else rem;
        WriteChunk(old(image[..]), c, data, off, chunk, cs, k);
        NeedsNext(g, rem, |cs| - k);
        off, rem := off + chunk, rem - chunk;
        if rem == 0 {
          assert cs[..k + 1] == cs && data[..off] == data;
          break;
        }
        assert k < |cs| - 1 ==> Fat()[cs[k]] == cs[k + 1];
        c := GetEntry(c);
        k := k + 1;
      }
    }

    /** krust_fat32_write_file for a new name, up to its directory entry. All or nothing: the table gains one chain
        of exactly as many free clusters as the data needs and the chain holds the data, every other cluster is
        untouched; or there are too few free clusters, and the table and all data are as before. */
    method WriteNew(data: seq<Byte>) returns (ok: bool, first: nat, ghost cs: seq<nat>)
      requires Valid() && data != []
      modifies image
      ensures ok <==> |Findable(old(Fat()))| >= (|data| + BytesPerCluster(g) - 1) / BytesPerCluster(g)
      ensures !ok ==> image[..] == old(image[..])
      ensures ok ==>
        && Grown(old(Fat()), Fat(), cs)
        && |cs| == (|data| + BytesPerCluster(g) - 1) / BytesPerCluster(g) == |Findable(old(Fat()))| - |Findable(Fat())|
        && cs[0] == first
        && ClustersIn(g, cs)
        && data <= FileBytes(g, image[..], cs)
      ensures ok ==> Elsewhere(g, old(image[..]), image[..], cs)
    {
      hide Fits, Table, FileBytes, OnlyAreas, DataAddr, BytesPerCluster, Needs, Grown, OnlyTable, Elsewhere,
           Findable;
      GeometryIs(g, image.Length);
      var bpc := BytesPerCluster(g);
      NeedsIs(g, |data|);
      var num := (|data| + bpc - 1) / bpc;
      NeedsFirst(g, |data|, num);
      ok, first, cs := AllocChain(num);
      if !ok { return; }
      GrownChain(old(Fat()), Fat(), cs);
      ghost var b := image[..];
      WriteData(first, data, cs);
      TableAndAreas(g, old(image[..]), b, image[..], cs);
    }
  }

  // All bytes are as they were but entries of the table and the clusters cs.
  ghost predicate Elsewhere(g: Geometry, b: seq<Byte>, b': seq<Byte>, cs: seq<nat>) {
    && Fits(g, |b|)
    && |b'| == |b|
    && (forall a :: 0 <= a < |b| && !InTable(g, a) && (forall c :: c in cs ==> !InArea(g, c, a)) ==> b'[a] == b[a])
    && forall c :: 0 <= c < g.Entries() ==> Reserved(g, b', c) == Reserved(g, b, c)
  }

  // Clusters other than those are as they were.
  lemma ElsewhereCluster(g: Geometry, b: seq<Byte>, b': seq<Byte>, cs: seq<nat>, c: nat)
    requires Elsewhere(g, b, b', cs) && ClustersIn(g, cs) && 2 <= c < g.Entries() && c !in cs
    ensures |b'| == |b| && DataAddr(g, c) + BytesPerCluster(g) <= |b| && Cluster(g, b', c) == Cluster(g, b, c)
  {
    hide Fits, DataAddr, Reserved;
    DataInside(g, |b|, c);
    EntryInside(g, |b|, g.Entries() - 1);
    forall a | DataAddr(g, c) <= a < DataAddr(g, c) + BytesPerCluster(g) ensures b'[a] == b[a] {
      forall d | d in cs ensures !InArea(g, d, a) {
        if d < c { DataApart(g, d, c); } else { DataApart(g, c, d); }
      }
    }
  }

  lemma {:induction false} ElsewhereFile(g: Geometry, b: seq<Byte>, b': seq<Byte>, cs: seq<nat>, ds: seq<nat>)
    requires Fits(g, |b|) && Elsewhere(g, b, b', cs) && ClustersIn(g, cs) && ClustersIn(g, ds)
    requires forall d :: d in ds ==> d !in cs
    ensures |b'| == |b| && FileBytes(g, b', ds) == FileBytes(g, b, ds)
    decreases |ds|
  {
    hide Fits, DataAddr, Cluster, Reserved, InTable, InArea;
    if ds == [] {
    } else {
      var last := ds[|ds| - 1];
      assert last in ds;
      ElsewhereCluster(g, b, b', cs, last);
      ElsewhereFile(g, b, b', cs, ds[..|ds| - 1]);
      DataInside(g, |b|, last);
    }
  }

  lemma ElsewhereMore(g: Geometry, b: seq<Byte>, b': seq<Byte>, cs: seq<nat>, ds: seq<nat>)
    requires Elsewhere(g, b, b', cs) && forall c :: c in cs ==> c in ds
    ensures Elsewhere(g, b, b', ds)
  {
    hide Reserved, InTable, InArea;
  }

  // A change of entries, then a change of clusters.
  lemma TableAndAreas(g: Geometry, b: seq<Byte>, b1: seq<Byte>, b2: seq<Byte>, cs: seq<nat>)
    requires Fits(g, |b|) && OnlyTable(g, b, b1) && OnlyAreas(g, b1, b2, cs) && ClustersIn(g, cs)
    ensures Elsewhere(g, b, b2, cs)
  {
    hide Fits, Word, EntryAddr, DataAddr;
    forall c | 0 <= c < g.Entries() ensures Reserved(g, b2, c) == Reserved(g, b, c) {
      EntryInside(g, |b|, c);
      forall a | EntryAddr(g, c) <= a < EntryAddr(g, c) + 4 ensures b2[a] == b1[a] {
        forall d | d in cs ensures !InArea(g, d, a) { DataInside(g, |b|, d); }
      }
      WordElsewhere(b1, b2, EntryAddr(g, c));
      assert Reserved(g, b1, c) == Reserved(g, b, c);
    }
  }

  // `left` bytes fill `clusters` clusters, the last one perhaps not quite.
  ghost predicate Needs(g: Geometry, left: nat, clusters: nat) {
    clusters > 0 && (clusters - 1) * BytesPerCluster(g) < left <= clusters * BytesPerCluster(g)
  }

  /** (size + bpc - 1) / bpc is the number of clusters. */
  lemma NeedsIs(g: Geometry, size: nat)
    requires size > 0 && BytesPerCluster(g) > 0
    ensures Needs(g, size, (size + BytesPerCluster(g) - 1) / BytesPerCluster(g))
  {
    var b := BytesPerCluster(g);
    var n, r := (size + b - 1) / b, (size + b - 1) % b;
    assert size + b - 1 == n * b + r;
    assert 0 * b == 0 && n * b > 0;
    assert (n - 1) * b == n * b - b;
  }

  lemma NeedsFirst(g: Geometry, left: nat, clusters: nat)
    requires Needs(g, left, clusters) && left > 0
    ensures clusters > 0
  {
  }

  lemma NeedsNext(g: Geometry, left: nat, clusters: nat)
    requires Needs(g, left, clusters) && BytesPerCluster(g) > 0
    ensures clusters > 0
    ensures left > BytesPerCluster(g) ==> clusters > 1 && Needs(g, left - BytesPerCluster(g), clusters - 1)
    ensures left <= BytesPerCluster(g) ==> clusters == 1
  {
    var b := BytesPerCluster(g);
    assert (clusters - 1) * b == clusters * b - b;
    if clusters > 1 {
      assert (clusters - 2) * b == (clusters - 1) * b - b;
      assert (clusters - 1) * b >= b by { Distribute(clusters - 2, 1, b); }
    }
  }

  lemma ChainIn(f: seq<nat>, cs: seq<nat>, total: nat)
    requires Chain(f, cs) && |f| == total
    ensures forall i :: 0 <= i < |cs| ==> 2 <= cs[i] < total
  {
  }

  lemma FileNone(g: Geometry, b: seq<Byte>, cs: seq<nat>)
    requires Fits(g, |b|)
    ensures FileBytes(g, b, cs[..0]) == []
  {
  }

  lemma AreasRefl(g: Geometry, b: seq<Byte>, cs: seq<nat>)
    ensures OnlyAreas(g, b, b, cs)
  {
  }

  lemma GrownNone(f: seq<nat>)
    ensures Grown(f, f, [])
  {
  }

  lemma GrownFrom(f0: seq<nat>, f: seq<nat>)
    requires Grown(f0, f, [])
    ensures f == f0
  {
  }

  lemma GrownLast(f0: seq<nat>, f: seq<nat>, cs: seq<nat>)
    requires Grown(f0, f, cs) && cs != []
    ensures cs[|cs| - 1] < |f| && f[cs[|cs| - 1]] != FREE
  {
    ChainNotFree(f, cs, |cs| - 1);
  }

  lemma GrownChain(f0: seq<nat>, f: seq<nat>, cs: seq<nat>)
    requires Grown(f0, f, cs)
    ensures Chain(f, cs)
  {
  }

  lemma GrownSound(f0: seq<nat>, f: seq<nat>, cs: seq<nat>)
    requires Grown(f0, f, cs) && cs != []
    ensures Sound(f, cs[0])
  {
    ChainSound(f, cs);
  }

  lemma NoneFree(f: seq<nat>)
    requires Findable(f) == {}
    ensures |Findable(f)| == 0
  {
  }

  lemma FreeFact(f: seq<nat>, c: nat)
    requires c in Findable(f)
    ensures 2 <= c < |f| - 2 && f[c] == FREE
  {
  }

  lemma FreeDrops(f: seq<nat>, c: nat, prev: nat)
    requires c in Findable(f) && prev < |f| && (prev != 0 ==> f[prev] != FREE)
    ensures var f1 := f[c := END_OF_CHAIN];
            |Findable(if prev == 0 then f1 else f1[prev := c])| == |Findable(f)| - 1
  {
    var f1 := f[c := END_OF_CHAIN];
    assert Findable(if prev == 0 then f1 else f1[prev := c]) == Findable(f) - {c};
  }

  lemma GeometryIs(g: Geometry, len: nat)
    requires Fits(g, len)
    ensures 2 <= g.Entries() <= END_OF_CHAIN && g.bps > 0 && BytesPerCluster(g) > 0
  {
  }
}
