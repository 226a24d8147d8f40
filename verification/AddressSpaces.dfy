/** The page-table operations of kernel/src/mm/paging.rs on a machine with several address spaces at once. */
module AddressSpaces {
  import opened Wrappers
  import opened Paging
  import opened Cloning
  import Pmm

  // How many tables mapping `v` has to allocate.
  function Needed(m: Memory, root: nat, v: nat): nat {
    if !IsTable(m, root) || !m[root][I4(v)].present then 3
    else if Directory(m, root, v).None? then 2
    else if LastTable(m, root, v).None? then 1
    else 0
  }

  // Each table linked on the way down is one less to allocate.
  lemma LinkedThird(m: Memory, m': Memory, root: nat, v: nat, nt: nat)
    requires IsTable(m, root) && !m[root][I4(v)].present && nt != root
    requires m' == m[nt := ZERO_TABLE][root := m[root][I4(v) := TableLink(nt)]]
    ensures Needed(m, root, v) == 3 && Needed(m', root, v) == 2
  {
  }

  lemma LinkedSecond(m: Memory, m': Memory, spaces: Spaces, free: set<nat>, n: nat, root: nat, v: nat, t: nat, nt: nat)
    requires System(m, spaces, free, n) && root in spaces && nt in free
    requires IsTable(m, root) && m[root][I4(v)].present && t == m[root][I4(v)].frame && IsTable(m, t)
    requires !m[t][I3(v)].present
    requires m' == m[nt := ZERO_TABLE][t := m[t][I3(v) := TableLink(nt)]]
    ensures Directory(m', root, v) == Some(nt)
    ensures Needed(m, root, v) == 2 && Needed(m', root, v) == 1
  {
    Path(m, root, spaces[root], I4(v), I3(v), I2(v));
  }

  lemma LinkedLast(m: Memory, m': Memory, spaces: Spaces, free: set<nat>, n: nat, root: nat, v: nat, t: nat, nt: nat,
                   table: seq<Word>)
    requires System(m, spaces, free, n) && root in spaces && nt in free
    requires Directory(m, root, v) == Some(t) && LastTable(m, root, v).None?
    requires IsTable(m, t) && m' == m[nt := table][t := m[t][I2(v) := TableLink(nt)]]
    ensures LastTable(m', root, v) == Some(nt) && Needed(m, root, v) == 1
  {
    Path(m, root, spaces[root], I4(v), I3(v), I2(v));
  }

  // krust_paging_get_phys: None is `!0`.
  function PhysAddr(leaf: Option<Word>, v: nat): Option<nat> {
    if leaf.None? then None else Some(leaf.value.frame * 4096 + v % 4096)
  }

  // What address u of space s reads after v of space r is mapped with w.
  function LeafAfterMap(m: Memory, r: nat, v: nat, w: Word, s: nat, u: nat): Option<Word> {
    if Alias(m, r, v, s, u) then Some(w) else Leaf(m, s, u)
  }

  predicate InHuge(m: Memory, root: nat, v: nat) {
    match Directory(m, root, v)
    case None => false
    case Some(t2) => IsTable(m, t2) && m[t2][I2(v)].present && m[t2][I2(v)].huge
  }

  // And after v of space r is unmapped.
  function LeafAfterUnmap(m: Memory, r: nat, v: nat, s: nat, u: nat): Option<Word> {
    if Alias(m, r, v, s, u) || (InHuge(m, r, v) && SameDirEntry(m, r, v, s, u)) then None else Leaf(m, s, u)
  }

  lemma SameSeen(m: Memory, m': Memory, root: nat)
    requires SameLeaves(m, m', root)
    ensures forall u :: Leaf(m', root, u) == Leaf(m, root, u)
  {
  }

  lemma GrewKeeps(m: Memory, sp: Spaces, m': Memory, sp': Spaces)
    requires Grew(m, sp, m', sp')
    ensures forall s, u :: s in sp ==> Leaf(m', s, u) == Leaf(m, s, u)
  {
    hide SameLeaves, Leaf;
    forall s | s in sp ensures forall u :: Leaf(m', s, u) == Leaf(m, s, u) {
      SameSeen(m, m', s);
    }
  }

  lemma StoredSeen(m: Memory, m': Memory, s: nat, t: nat, i: Idx, w: Word, u: nat)
    requires Stored(m, m', s, t, i, w)
    ensures Leaf(m', s, u) == if LastTable(m, s, u) == Some(t) && I1(u) == i then EntryLeaf(w) else Leaf(m, s, u)
  {
    hide I4, I3, I2, I1, Last4, Walk4;
  }

  lemma ClearedSeen(m: Memory, m': Memory, s: nat, t: nat, i: Idx, u: nat)
    requires Cleared(m, m', s, t, i)
    ensures Leaf(m', s, u) == if Directory(m, s, u) == Some(t) && I2(u) == i then None else Leaf(m, s, u)
  {
    hide I4, I3, I2, I1, Dir4, Walk4;
  }

  // Writing the entry `v` is looked up at changes the pages that are looked up there, in any space.
  lemma StoreEffect(m: Memory, m': Memory, spaces: Spaces, free: set<nat>, n: nat, root: nat, v: nat, t: nat, w: Word)
    requires System(m, spaces, free, n) && root in spaces && LastTable(m, root, v) == Some(t) && IsTable(m, t)
    requires m' == m[t := m[t][I1(v) := w]]
    ensures System(m', spaces, free, n)
    ensures forall s, u :: s in spaces ==>
              Leaf(m', s, u) == if Alias(m, root, v, s, u) then EntryLeaf(w) else Leaf(m, s, u)
    ensures forall s, j: Idx :: s in spaces ==> Next(m', s, j) == Next(m, s, j)
  {
    hide WellFormed, Stored, Separate, Leaf, LastTable, Alias, I4, I3, I2, I1;
    PathIn(m, spaces, free, n, root, v);
    RootsAre(m, spaces, free, n);
    SharedAt(m, spaces, free, n, root, t);
    WriteLeafAll(m, m', spaces, free, n, root, t, I1(v), w);
    forall s, u | s in spaces
      ensures Leaf(m', s, u) == if Alias(m, root, v, s, u) then EntryLeaf(w) else Leaf(m, s, u)
    {
      StoredSeen(m, m', s, t, I1(v), w, u);
      LastTableAlias(m, spaces, free, n, root, v, s, u);
    }
  }

  // The tables for v are there in m, made from m0 or there before, and the entry is written.
  lemma MapEffect(m0: Memory, m: Memory, m': Memory, spaces: Spaces, free: set<nat>, n: nat, root: nat, v: nat, t: nat,
                  w: Word)
    requires System(m, spaces, free, n) && root in spaces && LastTable(m, root, v) == Some(t) && IsTable(m, t)
    requires m' == m[t := m[t][I1(v) := w]] && w.present
    requires RootsKept(m0, m, spaces.Keys, root, I4(v))
    requires forall s, u :: s in spaces ==> Leaf(m, s, u) == Leaf(m0, s, u)
    ensures System(m', spaces, free, n)
    ensures forall s, u :: s in spaces ==> Leaf(m', s, u) == LeafAfterMap(m0, root, v, w, s, u)
    ensures forall s, j: Idx :: s in spaces && Sole(m0, spaces.Keys, s, j) ==> Sole(m', spaces.Keys, s, j)
  {
    hide System, Leaf, LastTable, Alias, RootsKept, Sole, I4, I1, Next;
    StoreEffect(m, m', spaces, free, n, root, v, t, w);
    RootsSame(m, m', spaces.Keys, root, I4(v));
    RootsTrans(m0, m, m', spaces.Keys, root, I4(v));
    SolesKept(m0, m', spaces.Keys, root, I4(v));
    forall s, u | s in spaces ensures Leaf(m', s, u) == LeafAfterMap(m0, root, v, w, s, u) {
      AliasKept(m0, m, spaces.Keys, root, v, s, u);
    }
  }

  lemma UnmapEffect(m: Memory, m': Memory, spaces: Spaces, free: set<nat>, n: nat, root: nat, v: nat, t: nat)
    requires System(m, spaces, free, n) && root in spaces
    requires LastTable(m, root, v) == Some(t) && IsTable(m, t) && m' == m[t := m[t][I1(v) := ZERO]]
    ensures System(m', spaces, free, n)
    ensures forall s, u :: s in spaces ==> Leaf(m', s, u) == LeafAfterUnmap(m, root, v, s, u)
    ensures forall s, j: Idx :: s in spaces ==> Next(m', s, j) == Next(m, s, j)
  {
    hide System, Leaf, LastTable, Alias, SameDirEntry;
    StoreEffect(m, m', spaces, free, n, root, v, t, ZERO);
    assert !InHuge(m, root, v) by { LastIsNotHuge(m, root, v); }
  }

  lemma LastIsNotHuge(m: Memory, root: nat, v: nat)
    requires LastTable(m, root, v).Some?
    ensures !InHuge(m, root, v)
  {
  }

  lemma UnmapHugeEffect(m: Memory, m': Memory, spaces: Spaces, free: set<nat>, n: nat, root: nat, v: nat, t: nat)
    requires System(m, spaces, free, n) && root in spaces
    requires Directory(m, root, v) == Some(t) && InHuge(m, root, v) && m' == m[t := m[t][I2(v) := ZERO]]
    ensures System(m', spaces, free, n)
    ensures forall s, u :: s in spaces ==> Leaf(m', s, u) == LeafAfterUnmap(m, root, v, s, u)
    ensures forall s, j: Idx :: s in spaces ==> Next(m', s, j) == Next(m, s, j)
  {
    hide WellFormed, Cleared, Separate, Leaf, LastTable, Directory, I4, I3, I2, I1;
    PathIn(m, spaces, free, n, root, v);
    RootsAre(m, spaces, free, n);
    SharedAt(m, spaces, free, n, root, t);
    ClearHugeAll(m, m', spaces, free, n, root, t, I2(v));
    forall s, u | s in spaces ensures Leaf(m', s, u) == LeafAfterUnmap(m, root, v, s, u) {
      ClearedSeen(m, m', s, t, I2(v), u);
      DirectoryAlias(m, spaces, free, n, root, v, s, u);
    }
  }

  // Where the walk of `v` stops before a last-level entry, unmapping has nothing to do.
  lemma UnmapAbsent(m: Memory, spaces: Spaces, free: set<nat>, n: nat, root: nat, v: nat)
    requires System(m, spaces, free, n) && root in spaces && LastTable(m, root, v).None? && !InHuge(m, root, v)
    ensures forall s, u :: s in spaces ==> LeafAfterUnmap(m, root, v, s, u) == Leaf(m, s, u)
  {
    hide System, I4, I3, I2, I1, Leaf, Alias;
    NoLastNoLeaf(m, root, v);
    forall s, u | s in spaces && Alias(m, root, v, s, u) ensures Leaf(m, s, u) == None {
      AliasReads(m, root, v, s, u);
    }
  }

  lemma NoLastNoLeaf(m: Memory, root: nat, v: nat)
    requires LastTable(m, root, v).None? && !InHuge(m, root, v)
    ensures Leaf(m, root, v) == None
  {
    hide I4, I3, I2, I1;
  }

  // ---------------------------------------------------------------- when one page alone changes

  // The address with the offset of v under root entry j.
  function At(j: Idx, v: nat): nat { j * 0x80_0000_0000 + v % 0x80_0000_0000 }

  lemma Offset(q: nat, x: nat)
    requires x < 0x80_0000_0000
    ensures var v := q * 0x80_0000_0000 + x;
            && v / 0x80_0000_0000 == q && v / 0x4000_0000 == q * 512 + x / 0x4000_0000
            && v / 0x20_0000 == q * 0x4_0000 + x / 0x20_0000 && v / 0x1000 == q * 0x800_0000 + x / 0x1000
  {
  }

  lemma AtIs(j: Idx, v: nat)
    ensures I4(At(j, v)) == j && I3(At(j, v)) == I3(v) && I2(At(j, v)) == I2(v) && I1(At(j, v)) == I1(v)
  {
    var q, x := v / 0x80_0000_0000, v % 0x80_0000_0000;
    Offset(q, x);
    Offset(j, x);
    Below(q, x / 0x4000_0000);
    Below(j, x / 0x4000_0000);
    Below(q * 512, x / 0x20_0000);
    Below(j * 512, x / 0x20_0000);
    Below(q * 0x4_0000, x / 0x1000);
    Below(j * 0x4_0000, x / 0x1000);
  }

  lemma Below(q: nat, x: nat)
    ensures (q * 512 + x) % 512 == x % 512
  {
  }

  /** Mapping v with w changes no other page of any space exactly when it read w before or no other root entry names
      the third-level table of v. */
  lemma MapIsLocalIff(m: Memory, roots: set<nat>, r: nat, v: nat, w: Word)
    requires r in roots
    ensures (forall s, u :: s in roots && !(s == r && SamePage(u, v)) ==>
               LeafAfterMap(m, r, v, w, s, u) == Leaf(m, s, u))
            <==> Leaf(m, r, v) == Some(w) || Sole(m, roots, r, I4(v))
  {
    hide I4, I3, I2, I1, Leaf, SameThird;
    forall s, u | Alias(m, r, v, s, u) ensures Leaf(m, s, u) == Leaf(m, r, v) { AliasReads(m, r, v, s, u); }
    if Leaf(m, r, v) != Some(w) && !Sole(m, roots, r, I4(v)) {
      var s, j: Idx :| s in roots && SameThird(m, r, I4(v), s, j) && !(s == r && j == I4(v));
      AtIs(j, v);
      assert Alias(m, r, v, s, At(j, v));
    }
  }

  /** Unmapping v takes no other page away exactly when v is not part of a 2 MB entry, and is not mapped or no other
      root entry names its third-level table. */
  lemma UnmapIsLocalIff(m: Memory, roots: set<nat>, r: nat, v: nat)
    requires r in roots
    ensures (forall s, u :: s in roots && !(s == r && SamePage(u, v)) ==>
               LeafAfterUnmap(m, r, v, s, u) == Leaf(m, s, u))
            <==> !InHuge(m, r, v) && (Leaf(m, r, v) == None || Sole(m, roots, r, I4(v)))
  {
    hide I4, I3, I2, I1, SameThird, Leaf, InHuge;
    forall s, u | Alias(m, r, v, s, u) ensures Leaf(m, s, u) == Leaf(m, r, v) { AliasReads(m, r, v, s, u); }
    if InHuge(m, r, v) {
      var u := Neighbour(v);
      HugeNeighbour(m, r, v, u);
    } else if Leaf(m, r, v) != None && !Sole(m, roots, r, I4(v)) {
      var s, j: Idx :| s in roots && SameThird(m, r, I4(v), s, j) && !(s == r && j == I4(v));
      AtIs(j, v);
      assert Alias(m, r, v, s, At(j, v));
    }
  }

  // Every page of a 2 MB region has another page beside it.
  lemma Neighbour(v: nat) returns (u: nat)
    ensures I4(u) == I4(v) && I3(u) == I3(v) && I2(u) == I2(v) && I1(u) != I1(v)
  {
    hide I1;
    var k := if I1(v) == 0 then 1 else 0;
    u := v / 0x20_0000 * 0x20_0000 + k * 0x1000;
    PageOf(v / 0x20_0000, k);
    Regions(u);
    Regions(v);
  }

  lemma PageOf(q: nat, k: nat)
    requires k < 512
    ensures (q * 0x20_0000 + k * 0x1000) / 0x20_0000 == q && I1(q * 0x20_0000 + k * 0x1000) == k
  {
    assert (q * 0x20_0000 + k * 0x1000) / 0x1000 == q * 512 + k;
  }

  lemma Regions(v: nat)
    ensures v / 0x4000_0000 == v / 0x20_0000 / 512 && v / 0x80_0000_0000 == v / 0x20_0000 / 0x4_0000
  {
  }

  lemma HugeNeighbour(m: Memory, r: nat, v: nat, u: nat)
    requires InHuge(m, r, v) && I4(u) == I4(v) && I3(u) == I3(v) && I2(u) == I2(v)
    ensures Leaf(m, r, u).Some? && SameDirEntry(m, r, v, r, u)
  {
    hide I4, I3, I2, I1;
  }

  // ---------------------------------------------------------------- the root the kernel boots on

  function BootRoot(third: nat): (t: seq<Word>)
    ensures |t| == 512 && forall i: Idx :: t[i] == if i == 0 || i == 256 then TableLink(third) else ZERO
  {
    seq(512, i => if i == 0 || i == 256 then TableLink(third) else ZERO)
  }

  function BootThird(low: nat, high: nat): (t: seq<Word>)
    ensures |t| == 512
    ensures forall i: Idx :: t[i] == if i == 0 then TableLink(low) else if i == 1 then TableLink(high) else ZERO
  {
    seq(512, i => if i == 0 then TableLink(low) else if i == 1 then TableLink(high) else ZERO)
  }

  // 512 entries of 2 MB from `first` on.
  function BootPages(first: nat): (t: seq<Word>)
    ensures |t| == 512 && forall i: Idx :: t[i] == TableLink(first + 512 * i).(huge := true)
  {
    seq(512, i requires 0 <= i < 512 => TableLink(first + 512 * i).(huge := true))
  }

  // The tables that arch/x86_64/boot.asm fills.
  predicate BootTables(m: Memory, root: nat, third: nat, low: nat, high: nat) {
    && root in m && m[root] == BootRoot(third) && third in m && m[third] == BootThird(low, high)
    && low in m && m[low] == BootPages(0) && high in m && m[high] == BootPages(0x4_0000)
    && root != third && root != low && root != high && third != low && third != high && low != high
  }

  lemma BootWellFormed(m: Memory, root: nat, third: nat, low: nat, high: nat)
    requires BootTables(m, root, third, low, high)
    ensures WellFormed(m, root, map[root := P4, third := P3, low := P2(third, 0), high := P2(third, 1)])
  {
    var own := map[root := P4, third := P3, low := P2(third, 0), high := P2(third, 1)];
    forall f, i: Idx | f in own ensures EntryOk(own, f, own[f], i, m[f][i]) {
      assert m[root][i] == if i == 0 || i == 256 then TableLink(third) else ZERO;
      assert m[third][i] == if i == 0 then TableLink(low) else if i == 1 then TableLink(high) else ZERO;
      assert m[low][i] == TableLink(512 * i).(huge := true);
      assert m[high][i] == TableLink(0x4_0000 + 512 * i).(huge := true);
    }
  }

  lemma BootTablesExist()
    ensures var m := map[1 := BootRoot(2), 2 := BootThird(3, 4), 3 := BootPages(0), 4 := BootPages(0x4_0000)];
            BootTables(m, 1, 2, 3, 4)
  {
  }

  /** On that root a page below 512 GB and the page 256 slots above it are one: mapping the one maps the other. */
  lemma BootMapsTwice(m: Memory, root: nat, third: nat, low: nat, high: nat, v: nat, w: Word)
    requires BootTables(m, root, third, low, high) && I4(v) == 0
    ensures !SamePage(At(256, v), v) && LeafAfterMap(m, root, v, w, root, At(256, v)) == Some(w)
    ensures !Sole(m, {root}, root, 0)
  {
    hide I4, I3, I2, I1;
    AtIs(256, v);
    assert Next(m, root, 0) == Some(third) == Next(m, root, 256);
    assert SameThird(m, root, 0, root, 256);
  }

  /** And if r names one table in slots 0 and 256, what is mapped in its slot 0 shows in slot 256 of its clones. */
  lemma CloneSeesSource(m: Memory, r: nat, np: nat, v: nat, w: Word)
    requires I4(v) == 0 && Next(m, r, 0).Some? && Next(m, r, 256) == Next(m, r, 0)
    requires Next(m, np, 256) == Next(m, r, 256)
    ensures LeafAfterMap(m, r, v, w, np, At(256, v)) == Some(w)
  {
    hide I4, I3, I2, I1;
    AtIs(256, v);
  }

  class Machine {
    var mem: Memory
    const pmm: Pmm.FrameAllocator
    ghost var spaces: Spaces
    ghost var free: set<nat>

    // `free` is what the frame allocator would hand out.
    ghost predicate FreeKnown()
      reads this`free, pmm, pmm.bitmap
    {
      pmm.Valid() && free == pmm.Free()
    }

    ghost predicate Valid()
      reads this, pmm, pmm.bitmap
    {
      FreeKnown() && System(mem, spaces, free, pmm.totalFrames)
    }

    method TakeFrame() returns (r: Option<nat>)
      requires FreeKnown()
      modifies this`free, pmm`firstFree, pmm.bitmap
      ensures FreeKnown()
      ensures r.None? <==> old(free) == {}
      ensures r.None? ==> free == old(free)
      ensures r.Some? ==> r.value in old(free) && free == old(free) - {r.value} && |free| == |old(free)| - 1
    {
      r := pmm.Alloc();
      if r.Some? { free := free - {r.value}; }
    }

    constructor Boot(pmm: Pmm.FrameAllocator, mem: Memory, root: nat, ghost own: Owner)
      requires pmm.Valid()
      requires Ram(mem, pmm.totalFrames)
      requires WellFormed(mem, root, own) && forall f :: f in own ==> f !in pmm.Free()
      ensures Valid() && this.mem == mem && this.pmm == pmm && spaces == map[root := own]
    {
      this.pmm, this.mem, this.spaces, this.free := pmm, mem, map[root := own], pmm.Free();
    }

    method GetPhys(root: nat, v: nat) returns (r: Option<nat>)
      requires Valid() && root in spaces
      ensures r == PhysAddr(Leaf(mem, root, v), v)
    {
      Path(mem, root, spaces[root], I4(v), I3(v), I2(v));
      if !mem[root][I4(v)].present { return None; }
      var t3 := mem[root][I4(v)].frame;
      if !mem[t3][I3(v)].present { return None; }
      var t2 := mem[t3][I3(v)].frame;
      if !mem[t2][I2(v)].present { return None; }
      if mem[t2][I2(v)].huge {
        return Some(Or(mem[t2][I2(v)].frame, I1(v)) * 4096 + v % 4096);
      }
      var t1 := mem[t2][I2(v)].frame;
      if !mem[t1][I1(v)].present { return None; }
      return Some(mem[t1][I1(v)].frame * 4096 + v % 4096);
    }

    // table_alloc followed by the store that links the table: one `if` of the walk down.
    method EnsurePresent(ghost r: nat, ghost i4: Idx, t: nat, i: Idx) returns (ok: bool, ghost nt: nat)
      requires Valid() && r in spaces && t in spaces[r] && !spaces[r][t].P1? && (t == r ==> i == i4)
      modifies this`mem, this`spaces, this`free, pmm`firstFree, pmm.bitmap
      ensures Valid() && Grew(old(mem), old(spaces), mem, spaces) && spaces.Keys == old(spaces).Keys
      ensures IsTable(old(mem), t) && RootsKept(old(mem), mem, spaces.Keys, r, i4)
      ensures ok <==> old(mem)[t][i].present || old(free) != {}
      ensures old(mem)[t][i].present || !ok ==> mem == old(mem) && spaces == old(spaces) && free == old(free)
      ensures ok && !old(mem)[t][i].present ==>
                && nt in old(free) && t !in old(free) && free == old(free) - {nt} && |free| == |old(free)| - 1
                && mem == old(mem)[nt := ZERO_TABLE][t := old(mem)[t][i := TableLink(nt)]]
    {
      hide System, Grew, FreeKnown;
      GrewRefl(mem, spaces);
      SharedAt(mem, spaces, free, pmm.totalFrames, r, t);
      nt := 0;
      if mem[t][i].present { return true, nt; }
      var frame := TakeFrame();
      if frame.None? { return false, nt; }
      nt := frame.value;
      mem := mem[frame.value := ZERO_TABLE];
      mem := mem[t := mem[t][i := TableLink(frame.value)]];
      LinkFreshAll(old(mem), mem, spaces, old(free), pmm.totalFrames, t, i, nt, TableLink(nt));
      RootsLinked(old(mem), mem, spaces, old(free), pmm.totalFrames, r, i4, t, i, nt, ZERO_TABLE, TableLink(nt));
      spaces := Grow(spaces, t, i, nt);
      return true, nt;
    }

    method FillSplit(nt: nat, w: Word)
      requires IsTable(mem, nt)
      modifies this`mem
      ensures mem == old(mem)[nt := SplitTable(w)]
    {
      var j := 0;
      while j < 512
        invariant 0 <= j <= 512 && IsTable(mem, nt)
        invariant mem == old(mem)[nt := mem[nt]]
        invariant mem[nt][..j] == SplitTable(w)[..j]
      {
        mem := mem[nt := mem[nt][j := w.(frame := w.frame + j, present := true, huge := false)]];
        j := j + 1;
      }
      assert mem[nt] == mem[nt][..512] && SplitTable(w) == SplitTable(w)[..512];
    }

    // Replacing a 2 MB entry by a table of its 512 pages.
    method SplitEntry(ghost r: nat, ghost i4: Idx, t: nat, i: Idx) returns (ok: bool, ghost nt: nat)
      requires Valid() && r in spaces && t in spaces[r] && spaces[r][t].P2?
      requires IsTable(mem, t) && mem[t][i].present && mem[t][i].huge
      modifies this`mem, this`spaces, this`free, pmm`firstFree, pmm.bitmap
      ensures Valid() && Grew(old(mem), old(spaces), mem, spaces) && spaces.Keys == old(spaces).Keys
      ensures RootsKept(old(mem), mem, spaces.Keys, r, i4)
      ensures ok <==> old(free) != {}
      ensures !ok ==> mem == old(mem) && free == old(free)
      ensures ok ==> && nt in old(free) && t !in old(free) && free == old(free) - {nt} && |free| == |old(free)| - 1
                     && mem == old(mem)[nt := SplitTable(old(mem)[t][i])][t := old(mem)[t][i := TableLink(nt)]]
    {
      hide System, Grew, FreeKnown;
      GrewRefl(mem, spaces);
      SharedAt(mem, spaces, free, pmm.totalFrames, r, t);
      nt := 0;
      var frame := TakeFrame();
      if frame.None? { return false, nt; }
      nt := frame.value;
      var w := mem[t][i];
      mem := mem[frame.value := ZERO_TABLE];
      FillSplit(frame.value, w);
      mem := mem[t := mem[t][i := TableLink(frame.value)]];
      LinkSplitAll(old(mem), mem, spaces, old(free), pmm.totalFrames, t, i, nt, TableLink(nt));
      RootsAt(old(mem), spaces, old(free), pmm.totalFrames, r);
      RootsLinked(old(mem), mem, spaces, old(free), pmm.totalFrames, r, i4, t, i, nt, SplitTable(w), TableLink(nt));
      spaces := Grow(spaces, t, i, nt);
      return true, nt;
    }

    // The walk down of map_page to the second level.
    method EnsureDirectory(root: nat, v: nat) returns (t2: Option<nat>)
      requires Valid() && root in spaces
      modifies this`mem, this`spaces, this`free, pmm`firstFree, pmm.bitmap
      ensures Valid() && Grew(old(mem), old(spaces), mem, spaces) && spaces.Keys == old(spaces).Keys
      ensures RootsKept(old(mem), mem, spaces.Keys, root, I4(v))
      ensures t2.Some? ==> Directory(mem, root, v) == t2
      ensures t2.Some? ==> Needed(mem, root, v) - |free| == old(Needed(mem, root, v) - |free|)
      ensures t2.None? ==> free == {} && old(Needed(mem, root, v) > |free|)
    {
      hide System, Grew, FreeKnown;
      PathIn(mem, spaces, free, pmm.totalFrames, root, v);
      var ok, nt := EnsurePresent(root, I4(v), root, I4(v));
      if !ok { return None; }
      if !old(mem)[root][I4(v)].present {
        LinkedThird(old(mem), mem, root, v, nt);
      }
      ghost var m: Memory, sp, fr := mem, spaces, free;
      PathIn(mem, spaces, free, pmm.totalFrames, root, v);
      var t3 := mem[root][I4(v)].frame;
      ok, nt := EnsurePresent(root, I4(v), t3, I3(v));
      GrewTrans(old(mem), old(spaces), m, sp, mem, spaces);
      RootsTrans(old(mem), m, mem, spaces.Keys, root, I4(v));
      if !ok { return None; }
      if !m[t3][I3(v)].present {
        LinkedSecond(m, mem, sp, fr, pmm.totalFrames, root, v, t3, nt);
      }
      return Some(mem[t3][I3(v)].frame);
    }

    // The whole walk down of map_page: afterwards `v` has a last-level table, or memory has run out.
    method EnsureLastTable(root: nat, v: nat) returns (t1: Option<nat>)
      requires Valid() && root in spaces
      modifies this`mem, this`spaces, this`free, pmm`firstFree, pmm.bitmap
      ensures Valid() && Grew(old(mem), old(spaces), mem, spaces) && spaces.Keys == old(spaces).Keys
      ensures RootsKept(old(mem), mem, spaces.Keys, root, I4(v))
      ensures t1.Some? <==> Needed(old(mem), root, v) <= |old(free)|
      ensures t1.Some? ==> LastTable(mem, root, v) == t1 && |free| == |old(free)| - Needed(old(mem), root, v)
      ensures t1.None? ==> free == {}
    {
      hide System, Grew, FreeKnown;
      var t2 := EnsureDirectory(root, v);
      if t2.None? { return None; }
      PathIn(mem, spaces, free, pmm.totalFrames, root, v);
      ghost var m: Memory, sp, fr := mem, spaces, free;
      var ok, nt := EnsurePresent(root, I4(v), t2.value, I2(v));
      if !ok { return None; }
      if !m[t2.value][I2(v)].present {
        LinkedLast(m, mem, sp, fr, pmm.totalFrames, root, v, t2.value, nt, ZERO_TABLE);
      }
      if mem[t2.value][I2(v)].huge {
        ok, nt := SplitEntry(root, I4(v), t2.value, I2(v));
        if ok {
          LinkedLast(m, mem, sp, fr, pmm.totalFrames, root, v, t2.value, nt, SplitTable(m[t2.value][I2(v)]));
        }
      }
      GrewTrans(old(mem), old(spaces), m, sp, mem, spaces);
      RootsTrans(old(mem), m, mem, spaces.Keys, root, I4(v));
      return if ok then Some(mem[t2.value][I2(v)].frame) else None;
    }

    /** krust_paging_map_page and krust_paging_map_page_in: the page, and every page that is looked up at the same
        entry, reads the new word, and no other page of any space changes. It fails exactly when too few frames are
        left, and then changes no translation. */
    method MapPageIn(root: nat, v: nat, phys: Word, flags: Word) returns (ok: bool)
      requires Valid() && root in spaces
      modifies this`mem, this`spaces, this`free, pmm`firstFree, pmm.bitmap
      ensures Valid() && spaces.Keys == old(spaces).Keys
      ensures ok <==> Needed(old(mem), root, v) <= |old(free)|
      ensures |free| == if ok then |old(free)| - Needed(old(mem), root, v) else 0
      ensures forall s, u :: s in spaces ==>
                Leaf(mem, s, u) == if ok then LeafAfterMap(old(mem), root, v, LeafWord(phys, flags), s, u)
                                   else Leaf(old(mem), s, u)
      ensures forall s, j: Idx :: s in spaces && Sole(old(mem), spaces.Keys, s, j) ==> Sole(mem, spaces.Keys, s, j)
    {
      hide System, Grew, Needed, Leaf, LastTable, Alias, FreeKnown, RootsKept, Sole, I4, I1, LeafAfterMap;
      var t1 := EnsureLastTable(root, v);
      GrewKeeps(old(mem), old(spaces), mem, spaces);
      SolesKept(old(mem), mem, spaces.Keys, root, I4(v));
      if t1.None? { return false; }
      PathIn(mem, spaces, free, pmm.totalFrames, root, v);
      ghost var m := mem;
      mem := mem[t1.value := mem[t1.value][I1(v) := LeafWord(phys, flags)]];
      MapEffect(old(mem), m, mem, spaces, free, pmm.totalFrames, root, v, t1.value, LeafWord(phys, flags));
      return true;
    }

    /** Any sequence of mappings below slot 256 leaves the translations of all other spaces alone, if the entries of
        those slots name their tables alone. That is so for every clone, and remains so. */
    method MapMany(root: nat, pages: seq<nat>, frames: seq<Word>, flags: Word) returns (ok: bool)
      requires Valid() && root in spaces && |frames| == |pages|
      requires forall i :: 0 <= i < |pages| ==> I4(pages[i]) < 256
      requires forall i: Idx :: i < 256 ==> Sole(mem, spaces.Keys, root, i)
      modifies this`mem, this`spaces, this`free, pmm`firstFree, pmm.bitmap
      ensures Valid() && spaces.Keys == old(spaces).Keys
      ensures forall i: Idx :: i < 256 ==> Sole(mem, spaces.Keys, root, i)
      ensures forall s, u :: s in spaces && s != root ==> Leaf(mem, s, u) == Leaf(old(mem), s, u)
    {
      hide System, Leaf, SamePage, FreeKnown, Needed, I4, Sole;
      ok := true;
      var i := 0;
      while i < |pages| && ok
        invariant i <= |pages| && Valid() && spaces.Keys == old(spaces).Keys
        invariant forall i: Idx :: i < 256 ==> Sole(mem, spaces.Keys, root, i)
        invariant forall s, u :: s in spaces && s != root ==> Leaf(mem, s, u) == Leaf(old(mem), s, u)
      {
        MapIsLocalIff(mem, spaces.Keys, root, pages[i], LeafWord(frames[i], flags));
        ok := MapPageIn(root, pages[i], frames[i], flags);
        i := i + 1;
      }
    }

    /** krust_paging_unmap_page. Inside a 2 MB entry it drops the whole entry, that is 512 pages. */
    method UnmapPage(root: nat, v: nat)
      requires Valid() && root in spaces
      modifies this`mem
      ensures Valid()
      ensures forall s, u :: s in spaces ==> Leaf(mem, s, u) == LeafAfterUnmap(old(mem), root, v, s, u)
      ensures forall s, j: Idx :: s in spaces ==> Next(mem, s, j) == Next(old(mem), s, j)
    {
      hide System, Leaf, FreeKnown, LeafAfterUnmap, I4, I3, I2, I1;
      PathIn(mem, spaces, free, pmm.totalFrames, root, v);
      if LastTable(mem, root, v).None? && !InHuge(mem, root, v) {
        UnmapAbsent(mem, spaces, free, pmm.totalFrames, root, v);
      }
      if !mem[root][I4(v)].present { return; }
      var t3 := mem[root][I4(v)].frame;
      if !mem[t3][I3(v)].present { return; }
      var t2 := mem[t3][I3(v)].frame;
      if !mem[t2][I2(v)].present { return; }
      ghost var m := mem;
      if mem[t2][I2(v)].huge {
        mem := mem[t2 := mem[t2][I2(v) := ZERO]];
        UnmapHugeEffect(m, mem, spaces, free, pmm.totalFrames, root, v, t2);
        return;
      }
      var t1 := mem[t2][I2(v)].frame;
      mem := mem[t1 := mem[t1][I1(v) := ZERO]];
      UnmapEffect(m, mem, spaces, free, pmm.totalFrames, root, v, t1);
    }

    method CopyTable(dst: nat, src: nat)
      requires IsTable(mem, dst) && IsTable(mem, src) && dst != src
      modifies this`mem
      ensures mem == old(mem)[dst := old(mem)[src]]
    {
      var i := 0;
      while i < 512
        invariant 0 <= i <= 512 && IsTable(mem, dst)
        invariant mem == old(mem)[dst := mem[dst]]
        invariant mem[dst][..i] == mem[src][..i]
      {
        mem := mem[dst := mem[dst][i := mem[src][i]]];
        i := i + 1;
      }
      assert mem[dst] == mem[dst][..512] && mem[src] == mem[src][..512];
    }

    // Fill the new last-level table and hang it: a split 2 MB entry is filled first, a copied table hung first.
    method CopyUnder(nt: nat, dst: nat, i2: Idx, w: Word)
      requires w.present && IsTable(mem, dst) && nt != dst
      requires !w.huge ==> IsTable(mem, w.frame) && w.frame != dst && w.frame != nt
      modifies this`mem
      ensures var link := w.(frame := nt, huge := false, avail := 0);
              mem == old(mem)[nt := CopiedTable(old(mem), w)][dst := old(mem)[dst][i2 := link]]
    {
      mem := mem[nt := ZERO_TABLE];
      if w.huge {
        FillSplit(nt, w.(avail := 0));
        mem := mem[dst := mem[dst][i2 := w.(frame := nt, huge := false, avail := 0)]];
      } else {
        mem := mem[dst := mem[dst][i2 := w.(frame := nt, avail := 0)]];
        CopyTable(nt, w.frame);
      }
    }

    // One turn of the i2 loop of krust_paging_clone_kernel_dir.
    method CloneEntry(ghost m0: Memory, ghost s0: Spaces, ghost root: nat, ghost np: nat, src: nat, dst: nat,
                      ghost i3: Idx, i2: Idx, ghost c: bool) returns (ghost c': bool)
      requires Valid() && CloneState(m0, s0, mem, spaces, root, np, i3 * 512 + i2, c) && np in spaces
      requires src in s0[root] && Arrives(m0, root, 0, i3, src)
      requires Private(spaces, np, dst) && spaces[np][dst].P2? && Arrives(mem, np, 0, i3, dst)
      requires IsTable(mem, dst) && (forall k :: i2 <= k < 512 ==> !mem[dst][k].present) && (!c ==> free == {})
      modifies this`mem, this`spaces, this`free, pmm`firstFree, pmm.bitmap
      ensures Valid() && CloneState(m0, s0, mem, spaces, root, np, i3 * 512 + i2 + 1, c') && np in spaces
      ensures Private(spaces, np, dst) && spaces[np][dst].P2? && Arrives(mem, np, 0, i3, dst)
      ensures IsTable(mem, dst) && forall k :: i2 < k < 512 ==> !mem[dst][k].present
      ensures Preserved(old(mem), mem, dst, old(free)) && OwnGrew(old(spaces), spaces, np) && free <= old(free)
      ensures IsTable(m0, src) && Took(|old(free)|, |free|, if m0[src][i2].present then 1 else 0, c, c')
    {
      hide System, CloneState, Arrives, FreeKnown, Preserved, OwnGrew;
      Stay(mem, dst, free, spaces, np);
      SourceUnchanged(m0, s0, mem, spaces, root, np, i3 * 512 + i2, c, src);
      c' := c;
      var w := mem[src][i2];
      if !w.present {
        AbsentEntry(m0, root, src, i3, i2);
        Skipped(m0, s0, mem, spaces, root, np, i3 * 512 + i2, i3 * 512 + i2 + 1, c, c);
        return;
      }
      ghost var m := mem;
      var nt := TakeFrame();
      if nt.None? {
        c' := false;
        Skipped(m0, s0, mem, spaces, root, np, i3 * 512 + i2, i3 * 512 + i2 + 1, c, c');
        return;
      }
      EntrySource(m0, s0, mem, spaces, old(free), pmm.totalFrames, root, np, i3 * 512 + i2, c, src, dst, i3, i2);
      CopyUnder(nt.value, dst, i2, w);
      EntryCloned(m0, s0, m, mem, spaces, old(free), pmm.totalFrames, root, np, src, dst, i3, i2, nt.value,
                  w.(frame := nt.value, huge := false, avail := 0), c);
      spaces := Grow(spaces, dst, i2, nt.value);
    }

    // The i2 loop.
    method CloneEntries(ghost m0: Memory, ghost s0: Spaces, ghost root: nat, ghost np: nat, src: nat, dst: nat,
                        ghost i3: Idx, ghost c: bool) returns (ghost c': bool)
      requires Valid() && CloneState(m0, s0, mem, spaces, root, np, i3 * 512, c) && np in spaces
      requires src in s0[root] && Arrives(m0, root, 0, i3, src)
      requires Private(spaces, np, dst) && spaces[np][dst].P2? && Arrives(mem, np, 0, i3, dst)
      requires IsTable(mem, dst) && (forall k :: 0 <= k < 512 ==> !mem[dst][k].present) && (!c ==> free == {})
      modifies this`mem, this`spaces, this`free, pmm`firstFree, pmm.bitmap
      ensures Valid() && CloneState(m0, s0, mem, spaces, root, np, (i3 + 1) * 512, c') && np in spaces
      ensures Preserved(old(mem), mem, dst, old(free)) && OwnGrew(old(spaces), spaces, np) && free <= old(free)
      ensures Took(|old(free)|, |free|, EntryFrames(m0, src, 512), c, c')
    {
      hide System, CloneState, Arrives, FreeKnown;
      var i2 := 0;
      c' := c;
      while i2 < 512
        invariant 0 <= i2 <= 512
        invariant Valid() && CloneState(m0, s0, mem, spaces, root, np, i3 * 512 + i2, c') && np in spaces
        invariant Private(spaces, np, dst) && spaces[np][dst].P2? && Arrives(mem, np, 0, i3, dst)
        invariant IsTable(mem, dst) && forall k :: i2 <= k < 512 ==> !mem[dst][k].present
        invariant Preserved(old(mem), mem, dst, old(free)) && OwnGrew(old(spaces), spaces, np) && free <= old(free)
        invariant Took(|old(free)|, |free|, EntryFrames(m0, src, i2), c, c')
      {
        c' := CloneEntry(m0, s0, root, np, src, dst, i3, i2, c');
        i2 := i2 + 1;
      }
    }

    // One turn of the i3 loop of krust_paging_clone_kernel_dir.
    method CloneDirectory(ghost m0: Memory, ghost s0: Spaces, ghost root: nat, ghost np: nat, srcPdp: nat, newPdp: nat,
                          i3: Idx, ghost c: bool) returns (ghost c': bool)
      requires Valid() && CloneState(m0, s0, mem, spaces, root, np, i3 * 512, c) && np in spaces
      requires srcPdp in s0[root] && PdpArrives(m0, root, 0, srcPdp)
      requires Private(spaces, np, newPdp) && spaces[np][newPdp] == P3 && PdpArrives(mem, np, 0, newPdp)
      requires IsTable(mem, newPdp) && (forall k :: i3 <= k < 512 ==> !mem[newPdp][k].present) && (!c ==> free == {})
      modifies this`mem, this`spaces, this`free, pmm`firstFree, pmm.bitmap
      ensures Valid() && CloneState(m0, s0, mem, spaces, root, np, (i3 + 1) * 512, c') && np in spaces
      ensures Private(spaces, np, newPdp) && spaces[np][newPdp] == P3 && PdpArrives(mem, np, 0, newPdp)
      ensures IsTable(mem, newPdp) && forall k :: i3 < k < 512 ==> !mem[newPdp][k].present
      ensures free <= old(free) && IsTable(m0, srcPdp)
      ensures Took(|old(free)|, |free|, DirectoryNeed(m0, m0[srcPdp][i3]), c, c')
    {
      hide System, CloneState, FreeKnown, EntryFrames;
      SourceUnchanged(m0, s0, mem, spaces, root, np, i3 * 512, c, srcPdp);
      c' := c;
      var w := mem[srcPdp][i3];
      if !w.present || w.huge {
        SkipDirectory(m0, s0, mem, spaces, root, np, srcPdp, i3, c);
        return;
      }
      var nt := TakeFrame();
      if nt.None? {
        c' := false;
        Skipped(m0, s0, mem, spaces, root, np, i3 * 512, (i3 + 1) * 512, c, c');
        return;
      }
      HangDirectory(m0, s0, root, np, srcPdp, newPdp, i3, w, nt.value, old(free), c);
      c' := CloneEntries(m0, s0, root, np, w.frame, nt.value, i3, c);
    }

    // A new empty directory under the clone, in the place of one of the source.
    method HangDirectory(ghost m0: Memory, ghost s0: Spaces, ghost root: nat, ghost np: nat, srcPdp: nat, newPdp: nat,
                         i3: Idx, w: Word, nt: nat, ghost was: set<nat>, ghost c: bool)
      requires FreeKnown() && System(mem, spaces, was, pmm.totalFrames) && nt in was && free == was - {nt}
      requires CloneState(m0, s0, mem, spaces, root, np, i3 * 512, c) && np in spaces
      requires srcPdp in s0[root] && PdpArrives(m0, root, 0, srcPdp)
      requires IsTable(m0, srcPdp) && w == m0[srcPdp][i3] && w.present && !w.huge
      requires Private(spaces, np, newPdp) && spaces[np][newPdp] == P3 && PdpArrives(mem, np, 0, newPdp)
      requires IsTable(mem, newPdp) && forall k :: i3 <= k < 512 ==> !mem[newPdp][k].present
      modifies this`mem, this`spaces
      ensures Valid() && CloneState(m0, s0, mem, spaces, root, np, i3 * 512, c) && np in spaces
      ensures Private(spaces, np, newPdp) && spaces[np][newPdp] == P3 && PdpArrives(mem, np, 0, newPdp)
      ensures newPdp != nt && newPdp !in free && np != nt && np !in free
      ensures IsTable(mem, newPdp) && forall k :: i3 < k < 512 ==> !mem[newPdp][k].present
      ensures w.frame in s0[root] && Arrives(m0, root, 0, i3, w.frame)
      ensures Private(spaces, np, nt) && spaces[np][nt].P2? && Arrives(mem, np, 0, i3, nt)
      ensures IsTable(mem, nt) && forall k :: 0 <= k < 512 ==> !mem[nt][k].present
    {
      hide System, CloneState, FreeKnown;
      DirectorySource(m0, s0, mem, spaces, was, pmm.totalFrames, root, np, i3 * 512, c, srcPdp, newPdp, i3);
      ghost var m := mem;
      mem := mem[nt := ZERO_TABLE];
      mem := mem[newPdp := mem[newPdp][i3 := w.(frame := nt, avail := 0)]];
      TableHung(m0, s0, m, mem, spaces, was, pmm.totalFrames, root, np, newPdp, i3, nt, w.(frame := nt, avail := 0),
                i3 * 512, c);
      spaces := Grow(spaces, newPdp, i3, nt);
    }

    method CopyUpperHalf(np: nat, root: nat)
      requires IsTable(mem, root) && np in mem && mem[np] == ZERO_TABLE && np != root
      modifies this`mem
      ensures mem == old(mem)[np := UpperHalf(old(mem)[root])]
    {
      var i := 256;
      while i < 512
        invariant 256 <= i <= 512 && IsTable(mem, np)
        invariant mem == old(mem)[np := mem[np]]
        invariant forall k :: 0 <= k < 512 ==> mem[np][k] == if 256 <= k < i then mem[root][k] else ZERO
      {
        mem := mem[np := mem[np][i := mem[root][i]]];
        i := i + 1;
      }
      assert mem[np] == UpperHalf(mem[root]);
    }

    method CloneSlotZero(ghost m0: Memory, ghost s0: Spaces, root: nat, np: nat) returns (ghost c: bool)
      requires Valid() && CloneState(m0, s0, mem, spaces, root, np, 0, true) && np in spaces
      requires IsTable(mem, np) && !mem[np][0].present
      modifies this`mem, this`spaces, this`free, pmm`firstFree, pmm.bitmap
      ensures Valid() && CloneState(m0, s0, mem, spaces, root, np, 512 * 512, c) && np in spaces
      ensures Took(|old(free)| + 1, |free|, CloneFrames(m0, root), true, c)
    {
      hide System, CloneState, FreeKnown, DirectoryFrames;
      c := true;
      Pml4Source(m0, s0, mem, spaces, free, pmm.totalFrames, root, np);
      var w := mem[root][0];
      if !w.present {
        Skipped(m0, s0, mem, spaces, root, np, 0, 512 * 512, true, true);
        return;
      }
      var nt := TakeFrame();
      if nt.None? {
        c := false;
        Skipped(m0, s0, mem, spaces, root, np, 0, 512 * 512, true, false);
        return;
      }
      mem := mem[nt.value := ZERO_TABLE];
      mem := mem[np := mem[np][0 := w.(frame := nt.value, avail := 0)]];
      TableHung(m0, s0, old(mem), mem, spaces, old(free), pmm.totalFrames, root, np, np, 0, nt.value,
                w.(frame := nt.value, avail := 0), 0, true);
      spaces := Grow(spaces, np, 0, nt.value);
      c := CloneDirectories(m0, s0, root, np, w.frame, nt.value);
    }

    // The i3 loop.
    method CloneDirectories(ghost m0: Memory, ghost s0: Spaces, ghost root: nat, ghost np: nat, srcPdp: nat,
                            newPdp: nat)
      returns (ghost c: bool)
      requires Valid() && CloneState(m0, s0, mem, spaces, root, np, 0, true) && np in spaces
      requires srcPdp in s0[root] && PdpArrives(m0, root, 0, srcPdp)
      requires Private(spaces, np, newPdp) && spaces[np][newPdp] == P3 && PdpArrives(mem, np, 0, newPdp)
      requires IsTable(mem, newPdp) && forall k :: 0 <= k < 512 ==> !mem[newPdp][k].present
      modifies this`mem, this`spaces, this`free, pmm`firstFree, pmm.bitmap
      ensures Valid() && CloneState(m0, s0, mem, spaces, root, np, 512 * 512, c) && np in spaces
      ensures Took(|old(free)|, |free|, DirectoryFrames(m0, srcPdp, 512), true, c)
    {
      hide System, CloneState, FreeKnown, PdpArrives, DirectoryNeed;
      var i3 := 0;
      c := true;
      while i3 < 512
        invariant 0 <= i3 <= 512
        invariant Valid() && CloneState(m0, s0, mem, spaces, root, np, i3 * 512, c) && np in spaces
        invariant Private(spaces, np, newPdp) && spaces[np][newPdp] == P3 && PdpArrives(mem, np, 0, newPdp)
        invariant IsTable(mem, newPdp) && forall k :: i3 <= k < 512 ==> !mem[newPdp][k].present
        invariant Took(|old(free)|, |free|, DirectoryFrames(m0, srcPdp, i3), true, c)
      {
        c := CloneDirectory(m0, s0, root, np, srcPdp, newPdp, i3, c);
        i3 := i3 + 1;
      }
    }

    /** krust_paging_clone_kernel_dir: a new address space with the source's translations in slot 0, every 2 MB
        entry split, and in the upper half, where it names the source's own tables. No table of another space is
        touched. The entries below 256 of the clone name tables of their own, so mappings there show nowhere else. */
    method CloneKernelDir(root: nat) returns (np: Option<nat>, ghost complete: bool)
      requires Valid() && root in spaces
      modifies this`mem, this`spaces, this`free, pmm`firstFree, pmm.bitmap
      ensures Valid()
      ensures np.None? <==> old(free) == {}
      ensures np.None? ==> mem == old(mem) && spaces == old(spaces)
      ensures np.Some? ==> np.value !in old(spaces) && spaces.Keys == old(spaces).Keys + {np.value}
      ensures np.Some? ==> forall s, u :: s in old(spaces) ==> Leaf(mem, s, u) == Leaf(old(mem), s, u)
      ensures np.Some? ==> forall u ::
                ClonedLeaf(Leaf(old(mem), root, u), Leaf(mem, np.value, u), I4(u), true, complete)
      ensures np.Some? ==> forall u :: I4(u) == 0 && Leaf(mem, np.value, u).Some? ==> LastTable(mem, np.value, u).Some?
      ensures np.Some? ==> forall k: Idx :: k >= 256 ==> Next(mem, np.value, k) == Next(old(mem), root, k)
      ensures np.Some? ==> forall i: Idx :: i < 256 ==> Sole(mem, spaces.Keys, np.value, i)
      ensures np.Some? ==> forall s, i: Idx :: s in old(spaces) && i < 256 && Sole(old(mem), old(spaces).Keys, s, i) ==>
                             Sole(mem, spaces.Keys, s, i)
      ensures complete <==> |old(free)| >= CloneFrames(old(mem), root)
      ensures |free| == if complete then |old(free)| - CloneFrames(old(mem), root) else 0
    {
      hide System, CloneState, FreeKnown, Leaf, LastTable, DirectoryFrames, Sole, KernelPart;
      PathIn(mem, spaces, free, pmm.totalFrames, root, 0);
      complete := false;
      np := TakeFrame();
      if np.None? { return; }
      ghost var m0, s0 := mem, spaces;
      SharedAt(mem, spaces, old(free), pmm.totalFrames, root, root);
      mem := mem[np.value := ZERO_TABLE];
      CopyUpperHalf(np.value, root);
      CloneStarts(m0, mem, spaces, old(free), pmm.totalFrames, root, np.value);
      spaces := spaces[np.value := KernelPart(m0, root, spaces[root])[np.value := P4]];
      complete := CloneSlotZero(m0, s0, root, np.value);
      CloneFinished(m0, s0, mem, spaces, root, np.value, complete);
      CloneIsFlat(m0, s0, mem, spaces, free, pmm.totalFrames, root, np.value, 512 * 512, complete);
    }
  }
}
