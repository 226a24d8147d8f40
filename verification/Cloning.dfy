/** What krust_paging_clone_kernel_dir builds (kernel/src/mm/paging.rs), in terms of leaves. */
module Cloning {
  import opened Wrappers
  import opened Paging

  // A 4 KB word is copied verbatim; a page out of a split 2 MB entry loses bits 62..52 to FLAGS_MASK.
  predicate CopyOf(a: Option<Word>, b: Option<Word>) {
    b == a || (a.Some? && b == Some(a.value.(avail := 0)))
  }

  /** The clone `np` in m holds what `root` held in m0: the upper half as it was, slot 0 copied as far as the
      first `bound` second-level entries (an entry may be missing if an allocation failed), nothing else. */
  ghost predicate Cloned(m0: Memory, m: Memory, root: nat, np: nat, bound: nat, complete: bool) {
    forall i4: Idx, i3: Idx, i2: Idx, i1: Idx ::
      ClonedLeaf(Walk4(m0, root, i4, i3, i2, i1), Walk4(m, np, i4, i3, i2, i1), i4, i3 * 512 + i2 < bound, complete)
  }

  predicate ClonedLeaf(a: Option<Word>, b: Option<Word>, i4: nat, done: bool, complete: bool) {
    if i4 >= 256 then b == a
    else if i4 == 0 && done then CopyOf(a, b) || (!complete && b == None)
    else b == None
  }

  // The third-level table a position is at or under.
  function Third(f: nat, p: Pos): nat
    requires !p.P4?
  {
    if p.P3? then f else p.t3
  }

  // The tables that a root reaches through its entries from 256 up.
  ghost function KernelPart(m: Memory, root: nat, own: Owner): Owner {
    map f | f in own && !own[f].P4? && Upper(m, root, Third(f, own[f])) :: own[f]
  }

  ghost predicate Upper(m: Memory, root: nat, t3: nat) { exists k: Idx :: 256 <= k && Next(m, root, k) == Some(t3) }

  // The new root before slot 0 is filled.
  function UpperHalf(t: seq<Word>): (r: seq<Word>)
    requires |t| == 512
    ensures |r| == 512
  {
    seq(512, i requires 0 <= i < 512 => if i < 256 then ZERO else t[i])
  }

  lemma NewRootWellFormed(m: Memory, m': Memory, root: nat, own: Owner, np: nat)
    requires WellFormed(m, root, own) && np !in own && m' == m[np := UpperHalf(m[root])]
    ensures WellFormed(m', np, KernelPart(m, root, own)[np := P4])
  {
    var own' := KernelPart(m, root, own)[np := P4];
    forall f, k: Idx | f in own' ensures EntryOk(own', f, own'[f], k, m'[f][k]) {
      if f == np {
        assert EntryOk(own, root, own[root], k, m[root][k]);
        assert k >= 256 && m[root][k].present ==> Next(m, root, k) == Some(m[root][k].frame);
      } else {
        assert EntryOk(own, f, own[f], k, m[f][k]);
      }
    }
  }

  lemma NewRootLeaves(m: Memory, m': Memory, root: nat, own: Owner, np: nat)
    requires WellFormed(m, root, own) && np !in own && m' == m[np := UpperHalf(m[root])]
    ensures Cloned(m, m', root, np, 0, true)
  {
    forall i4: Idx, i3: Idx, i2: Idx, i1: Idx
      ensures Walk4(m', np, i4, i3, i2, i1) == if i4 >= 256 then Walk4(m, root, i4, i3, i2, i1) else None
    {
      Path(m, root, own, i4, i3, i2);
    }
  }

  lemma NewRoot(m: Memory, m': Memory, spaces: Spaces, free: set<nat>, n: nat, root: nat, np: nat)
    requires System(m, spaces, free, n) && root in spaces && np in free && root in m && |m[root]| == 512
    requires m' == m[np := UpperHalf(m[root])]
    ensures System(m', spaces[np := KernelPart(m, root, spaces[root])[np := P4]], free - {np}, n)
    ensures Cloned(m, m', root, np, 0, true) && np !in spaces
    ensures forall s :: s in spaces ==> SameLeaves(m, m', s)
  {
    hide WellFormed, SameLeaves, Cloned;
    TablesAreUsed(m, spaces, free, n);
    RootsAreTables(m, spaces, free, n);
    NewRootWellFormed(m, m', root, spaces[root], np);
    NewRootLeaves(m, m', root, spaces[root], np);
    forall s | s in spaces ensures WellFormed(m', s, spaces[s]) && SameLeaves(m, m', s) {
      Untouched(m, m', s, spaces[s]);
    }
  }

  lemma RootsAreTables(m: Memory, spaces: Spaces, free: set<nat>, n: nat)
    requires System(m, spaces, free, n)
    ensures forall r :: r in spaces ==> r in spaces[r] && r !in free
  {
  }

  lemma ClonedSame(m0: Memory, m: Memory, m': Memory, root: nat, np: nat, bound: nat, complete: bool)
    requires Cloned(m0, m, root, np, bound, complete) && SameLeaves(m, m', np)
    ensures Cloned(m0, m', root, np, bound, complete)
  {
  }

  // ---------------------------------------------------------------- hanging a filled table

  // The walk for (i4, i3) arrives at t.
  predicate Arrives(m: Memory, root: nat, i4: Idx, i3: Idx, t: nat) {
    && IsTable(m, root) && m[root][i4].present
    && IsTable(m, m[root][i4].frame) && m[m[root][i4].frame][i3].present
    && m[m[root][i4].frame][i3].frame == t
  }

  predicate PdpArrives(m: Memory, root: nat, i4: Idx, t: nat) {
    IsTable(m, root) && m[root][i4].present && m[root][i4].frame == t
  }

  // Between m and m' the leaves under (i4, i3, i2) become those of `table`; no other leaf differs.
  ghost predicate Loaded(m: Memory, m': Memory, root: nat, j4: Idx, j3: Idx, j2: Idx, table: seq<Word>)
    requires |table| == 512
  {
    forall i4: Idx, i3: Idx, i2: Idx, i1: Idx ::
      Walk4(m', root, i4, i3, i2, i1) ==
        if i4 == j4 && i3 == j3 && i2 == j2 then EntryLeaf(table[i1]) else Walk4(m, root, i4, i3, i2, i1)
  }

  lemma LinkLoaded(m: Memory, m': Memory, root: nat, own: Owner, t: nat, i4: Idx, i3: Idx, i2: Idx, nt: nat,
                   link: Word, table: seq<Word>)
    requires WellFormed(m, root, own) && t in own && own[t].P2? && Arrives(m, root, i4, i3, t)
    requires forall k: Idx :: Next(m, root, k) == Next(m, root, i4) ==> k == i4
    requires !m[t][i2].present && nt !in own && link.frame == nt && link.present && !link.huge && |table| == 512
    requires m' == m[nt := table][t := m[t][i2 := link]]
    ensures WellFormed(m', root, own[nt := Child(t, own[t], i2)]) && Loaded(m, m', root, i4, i3, i2, table)
  {
    LinkKeepsShape(m, m', root, own, t, i2, nt, link, table);
    Path(m, root, own, i4, i3, i2);
    forall j4: Idx, j3: Idx, j2: Idx, j1: Idx
      ensures Walk4(m', root, j4, j3, j2, j1) ==
                if j4 == i4 && j3 == i3 && j2 == i2 then EntryLeaf(table[j1]) else Walk4(m, root, j4, j3, j2, j1)
    {
      Path(m, root, own, j4, j3, j2);
      assert Next(m, root, j4) == Next(m, root, i4) ==> j4 == i4;
    }
  }

  // A table of np that no other space holds.
  ghost predicate Private(spaces: Spaces, np: nat, t: nat) {
    np in spaces && t in spaces[np] && forall s :: s in spaces && t in spaces[s] ==> s == np
  }

  lemma PrivateGrows(spaces: Spaces, np: nat, t: nat, i: Idx, nt: nat, f: nat)
    requires Private(spaces, np, t) && !spaces[np][t].P1? && f != nt && forall s :: s in spaces ==> nt !in spaces[s]
    ensures Private(Grow(spaces, t, i, nt), np, nt)
    ensures Private(spaces, np, f) ==>
              Private(Grow(spaces, t, i, nt), np, f) && Grow(spaces, t, i, nt)[np][f] == spaces[np][f]
    ensures forall s :: s in spaces && s != np ==> Grow(spaces, t, i, nt)[s] == spaces[s]
  {
  }

  lemma SoleHere(m: Memory, roots: set<nat>, np: nat, i4: Idx, i3: Idx, t: nat)
    requires np in roots && Sole(m, roots, np, i4) && Arrives(m, np, i4, i3, t)
    ensures forall k: Idx :: Next(m, np, k) == Next(m, np, i4) ==> k == i4
  {
    forall k: Idx | Next(m, np, k) == Next(m, np, i4) ensures k == i4 { assert SameThird(m, np, i4, np, k); }
  }

  lemma LinkLoadedAll(m: Memory, m': Memory, spaces: Spaces, free: set<nat>, n: nat, np: nat, t: nat, i3: Idx, i2: Idx,
                      nt: nat, link: Word, table: seq<Word>)
    requires System(m, spaces, free, n) && nt in free && Private(spaces, np, t) && spaces[np][t].P2?
    requires Arrives(m, np, 0, i3, t) && IsTable(m, t) && !m[t][i2].present && Sole(m, spaces.Keys, np, 0)
    requires link.frame == nt && link.present && !link.huge && |table| == 512
    requires m' == m[nt := table][t := m[t][i2 := link]]
    ensures System(m', Grow(spaces, t, i2, nt), free - {nt}, n)
    ensures Loaded(m, m', np, 0, i3, i2, table)
    ensures forall s :: s in spaces && s != np ==> SameLeaves(m, m', s) && Grow(spaces, t, i2, nt)[s] == spaces[s]
  {
    hide WellFormed, SameLeaves, Separate, Loaded, Arrives;
    TablesAreUsed(m, spaces, free, n);
    SharedAt(m, spaces, free, n, np, t);
    SoleHere(m, spaces.Keys, np, 0, i3, t);
    forall s | s in spaces
      ensures WellFormed(m', s, Grow(spaces, t, i2, nt)[s])
      ensures if s == np then Loaded(m, m', np, 0, i3, i2, table) else SameLeaves(m, m', s)
    {
      if s == np {
        LinkLoaded(m, m', np, spaces[np], t, 0, i3, i2, nt, link, table);
      } else {
        Untouched(m, m', s, spaces[s]);
      }
    }
    GrowKeepsSeparate(spaces, free, t, i2, nt);
  }

  // ---------------------------------------------------------------- one second-level entry

  // What the copied last-level table holds for the source entry w.
  function CopiedTable(m: Memory, w: Word): (t: seq<Word>)
    requires w.present && (!w.huge ==> IsTable(m, w.frame))
    ensures |t| == 512
  {
    if w.huge then SplitTable(w.(avail := 0)) else m[w.frame]
  }

  lemma CopiedLeaves(m: Memory, root: nat, own: Owner, t: nat, i3: Idx, i2: Idx)
    requires WellFormed(m, root, own) && Arrives(m, root, 0, i3, t) && IsTable(m, t) && m[t][i2].present
    ensures !m[t][i2].huge ==> IsTable(m, m[t][i2].frame)
    ensures forall i1: Idx :: CopyOf(Walk4(m, root, 0, i3, i2, i1), EntryLeaf(CopiedTable(m, m[t][i2])[i1]))
  {
    Path(m, root, own, 0, i3, i2);
    if m[t][i2].huge {
      SplitAgreesIffAligned(m[t][i2].frame);
      forall i1: Idx ensures CopyOf(Walk4(m, root, 0, i3, i2, i1), EntryLeaf(CopiedTable(m, m[t][i2])[i1])) {
        assert Or(m[t][i2].frame, i1) == m[t][i2].frame + i1;
      }
    }
  }

  lemma ClonedStep(m0: Memory, m: Memory, m': Memory, root: nat, np: nat, i3: Idx, i2: Idx, complete: bool,
                   table: seq<Word>)
    requires Cloned(m0, m, root, np, i3 * 512 + i2, complete) && |table| == 512
    requires Loaded(m, m', np, 0, i3, i2, table)
    requires forall i1: Idx :: CopyOf(Walk4(m0, root, 0, i3, i2, i1), EntryLeaf(table[i1]))
    ensures Cloned(m0, m', root, np, i3 * 512 + i2 + 1, complete)
  {
    forall j4: Idx, j3: Idx, j2: Idx, j1: Idx
      ensures ClonedLeaf(Walk4(m0, root, j4, j3, j2, j1), Walk4(m', np, j4, j3, j2, j1), j4,
                         j3 * 512 + j2 < i3 * 512 + i2 + 1, complete)
    {
      assert ClonedLeaf(Walk4(m0, root, j4, j3, j2, j1), Walk4(m, np, j4, j3, j2, j1), j4,
                        j3 * 512 + j2 < i3 * 512 + i2, complete);
    }
  }

  // Source entries that hold no leaf, or that a failed allocation drops, need no copy.
  lemma ClonedSkip(m0: Memory, m: Memory, root: nat, np: nat, b: nat, b': nat, complete: bool, complete': bool)
    requires Cloned(m0, m, root, np, b, complete) && b <= b' && (complete' ==> complete)
    requires !complete' ||
             forall i3: Idx, i2: Idx, i1: Idx :: b <= i3 * 512 + i2 < b' ==> Walk4(m0, root, 0, i3, i2, i1) == None
    ensures Cloned(m0, m, root, np, b', complete')
  {
    forall j4: Idx, j3: Idx, j2: Idx, j1: Idx
      ensures ClonedLeaf(Walk4(m0, root, j4, j3, j2, j1), Walk4(m, np, j4, j3, j2, j1), j4,
                         j3 * 512 + j2 < b', complete')
    {
      assert ClonedLeaf(Walk4(m0, root, j4, j3, j2, j1), Walk4(m, np, j4, j3, j2, j1), j4, j3 * 512 + j2 < b, complete);
    }
  }

  // ---------------------------------------------------------------- the state of a clone in progress

  ghost predicate CloneState(m0: Memory, s0: Spaces, m: Memory, sp: Spaces, root: nat, np: nat, bound: nat,
                             complete: bool)
  {
    && root in s0 && np !in s0 && sp.Keys == s0.Keys + {np} && sp[root] == s0[root] && WellFormed(m0, root, s0[root])
    && (forall f :: f in s0[root] ==> f in m && m[f] == m0[f])
    && (forall s :: s in s0 ==> SameLeaves(m0, m, s))
    && Cloned(m0, m, root, np, bound, complete) && Flat(m, np) && CloneRoots(m0, m, sp.Keys, root, np)
  }

  /** The entries of the other roots are as they were. The clone shares the source's entries from 256 up; those below
      name tables that no other entry names. */
  ghost predicate CloneRoots(m0: Memory, m: Memory, roots: set<nat>, root: nat, np: nat) {
    && (forall s, j: Idx :: s in roots && s != np ==> Next(m, s, j) == Next(m0, s, j))
    && (forall k: Idx :: k >= 256 ==> Next(m, np, k) == Next(m0, root, k))
    && (forall i: Idx :: i < 256 ==> Sole(m, roots, np, i))
  }

  lemma RootsStart(m: Memory, m': Memory, roots: set<nat>, root: nat, np: nat)
    requires np !in roots && IsTable(m, root) && m' == m[np := UpperHalf(m[root])]
    ensures CloneRoots(m, m', roots + {np}, root, np)
  {
  }

  lemma RootsGo(m0: Memory, m: Memory, m': Memory, roots: set<nat>, root: nat, np: nat)
    requires CloneRoots(m0, m, roots, root, np) && np in roots && RootsKept(m, m', roots, np, 0)
    ensures CloneRoots(m0, m', roots, root, np)
  {
    hide Next, SameThird, Sole;
    forall i: Idx | i < 256 ensures Sole(m', roots, np, i) { SoleKept(m, m', roots, np, 0, np, i); }
  }

  // Entries of other roots that name a table alone still do when the clone is done.
  lemma SoleThrough(m0: Memory, m: Memory, roots: set<nat>, root: nat, np: nat, s: nat, i: Idx)
    requires CloneRoots(m0, m, roots + {np}, root, np) && np !in roots && root in roots && s in roots && i < 256
    requires Sole(m0, roots, s, i)
    ensures Sole(m, roots + {np}, s, i)
  {
    hide Next;
    forall k: Idx | k < 256 ensures !SameThird(m, np, k, s, i) {
      assert Sole(m, roots + {np}, np, k);
    }
    assert forall k: Idx :: k < 256 && SameThird(m, s, i, np, k) ==> SameThird(m, np, k, s, i);
    assert forall k: Idx :: k >= 256 ==> !SameThird(m0, s, i, root, k);
    assert forall k: Idx :: k >= 256 && SameThird(m, s, i, np, k) ==> SameThird(m0, s, i, root, k);
    forall q, k: Idx | q in roots + {np} && SameThird(m, s, i, q, k) ensures q == s && k == i {
      assert q != np;
      assert SameThird(m0, s, i, q, k);
    }
  }

  // No second-level table under slot 0 holds a 2 MB entry.
  ghost predicate Flat(m: Memory, np: nat) {
    forall i3: Idx, i2: Idx, t :: Arrives(m, np, 0, i3, t) && IsTable(m, t) ==> !m[t][i2].huge
  }

  lemma FlatLinked(m: Memory, m': Memory, np: nat, own: Owner, t: nat, i: Idx, nt: nat, link: Word, table: seq<Word>)
    requires WellFormed(m, np, own) && Flat(m, np) && t in own && nt !in own && !own[t].P1? && |table| == 512
    requires m' == m[nt := table][t := m[t][i := link]] && link.frame == nt
    requires own[t].P2? ==> !link.huge
    requires own[t].P2? || forall k: Idx :: !table[k].present && !table[k].huge
    ensures Flat(m', np)
  {
    forall i3: Idx, i2: Idx, x | Arrives(m', np, 0, i3, x) && IsTable(m', x) ensures !m'[x][i2].huge {
      Path(m, np, own, 0, i3, i2);
      assert x != nt ==> Arrives(m, np, 0, i3, x);
    }
  }

  // ---------------------------------------------------------------- the frames a clone takes

  // A last-level table for every present entry among the first k of second-level table t.
  function EntryFrames(m: Memory, t: nat, k: nat): nat {
    if k == 0 || k > 512 || !IsTable(m, t) then 0 else EntryFrames(m, t, k - 1) + if m[t][k - 1].present then 1 else 0
  }

  function DirectoryNeed(m: Memory, w: Word): nat {
    if !w.present || w.huge then 0 else 1 + EntryFrames(m, w.frame, 512)
  }

  function DirectoryFrames(m: Memory, t: nat, k: nat): nat {
    if k == 0 || k > 512 || !IsTable(m, t) then 0 else DirectoryFrames(m, t, k - 1) + DirectoryNeed(m, m[t][k - 1])
  }

  // A root, and for slot 0 a table for each of the source's tables and each of its 2 MB entries.
  function CloneFrames(m: Memory, root: nat): nat {
    if !IsTable(m, root) || !m[root][0].present then 1 else 2 + DirectoryFrames(m, m[root][0].frame, 512)
  }

  // Between two points of a clone all `need` frames were had, or the last one was taken before that.
  predicate Took(before: nat, after: nat, need: nat, c: bool, c': bool) {
    if c' then c && before == after + need else after == 0 && (c ==> before < need)
  }

  // The source table at some position reads the same as when the clone began.
  lemma SourceUnchanged(m0: Memory, s0: Spaces, m: Memory, sp: Spaces, root: nat, np: nat, bound: nat, complete: bool,
                        t: nat)
    requires CloneState(m0, s0, m, sp, root, np, bound, complete) && t in s0[root]
    ensures IsTable(m0, t) && IsTable(m, t) && m[t] == m0[t]
  {
  }

  lemma EntryCloned(m0: Memory, s0: Spaces, m: Memory, m': Memory, sp: Spaces, free: set<nat>, n: nat, root: nat,
                    np: nat, src: nat, dst: nat, i3: Idx, i2: Idx, nt: nat, link: Word, complete: bool)
    requires CloneState(m0, s0, m, sp, root, np, i3 * 512 + i2, complete) && System(m, sp, free, n)
    requires Arrives(m0, root, 0, i3, src) && IsTable(m0, src) && m0[src][i2].present
    requires !m0[src][i2].huge ==> IsTable(m0, m0[src][i2].frame)
    requires Private(sp, np, dst) && sp[np][dst].P2? && Arrives(m, np, 0, i3, dst) && IsTable(m, dst)
    requires !m[dst][i2].present
    requires nt in free && link.frame == nt && link.present && !link.huge
    requires m' == m[nt := CopiedTable(m0, m0[src][i2])][dst := m[dst][i2 := link]]
    ensures System(m', Grow(sp, dst, i2, nt), free - {nt}, n)
    ensures CloneState(m0, s0, m', Grow(sp, dst, i2, nt), root, np, i3 * 512 + i2 + 1, complete)
    ensures Arrives(m', np, 0, i3, dst) && Preserved(m, m', dst, free) && OwnGrew(sp, Grow(sp, dst, i2, nt), np)
    ensures Private(Grow(sp, dst, i2, nt), np, dst) && Grow(sp, dst, i2, nt)[np][dst] == sp[np][dst]
  {
    hide System, Cloned, SameLeaves, WellFormed, Loaded, Arrives, Flat, CloneRoots, Private, OwnGrew;
    var table := CopiedTable(m0, m0[src][i2]);
    PrivateAt(m, sp, free, n, root, np, dst);
    RootsStand(m0, m, sp.Keys, root, np);
    LinkLoadedAll(m, m', sp, free, n, np, dst, i3, i2, nt, link, table);
    CopiedLeaves(m0, root, s0[root], src, i3, i2);
    ClonedStep(m0, m, m', root, np, i3, i2, complete, table);
    TablesAreUsed(m, sp, free, n);
    FormedAt(m, sp, free, n, np);
    FlatLinked(m, m', np, sp[np], dst, i2, nt, link, table);
    RootsLinked(m, m', sp, free, n, np, 0, dst, i2, nt, table, link);
    RootsGo(m0, m, m', sp.Keys, root, np);
    StillArrives(m, m', sp, free, n, np, i3, dst, nt);
    PrivateGrows(sp, np, dst, i2, nt, dst);
    OwnGrows(sp, np, dst, i2, nt);
    assert Grow(sp, dst, i2, nt).Keys == sp.Keys;
    forall s | s in s0 ensures SameLeaves(m0, m', s) { SameTrans(m0, m, m', s); }
  }

  lemma FormedAt(m: Memory, sp: Spaces, free: set<nat>, n: nat, np: nat)
    requires System(m, sp, free, n) && np in sp
    ensures WellFormed(m, np, sp[np]) && np in sp[np] && sp[np][np] == P4
    ensures forall f, s :: f in free && s in sp ==> f !in sp[s]
  {
  }

  lemma RootsStand(m0: Memory, m: Memory, roots: set<nat>, root: nat, np: nat)
    requires CloneRoots(m0, m, roots, root, np)
    ensures Sole(m, roots, np, 0)
  {
  }

  // A private table is no table of the source, and no free frame.
  lemma PrivateAt(m: Memory, sp: Spaces, free: set<nat>, n: nat, root: nat, np: nat, t: nat)
    requires System(m, sp, free, n) && root in sp && root != np && Private(sp, np, t)
    ensures np in sp && t in sp[np] && t !in sp[root] && t !in free && IsTable(m, t)
    ensures forall s :: s in sp && t in sp[s] ==> s == np
    ensures t == np <==> sp[np][t] == P4
  {
  }

  lemma SameTrans(a: Memory, b: Memory, c: Memory, root: nat)
    requires SameLeaves(a, b, root) && SameLeaves(b, c, root)
    ensures SameLeaves(a, c, root)
  {
  }

  lemma TableHung(m0: Memory, s0: Spaces, m: Memory, m': Memory, sp: Spaces, free: set<nat>, n: nat, root: nat, np: nat,
                  t: nat, i: Idx, nt: nat, link: Word, bound: nat, complete: bool)
    requires CloneState(m0, s0, m, sp, root, np, bound, complete) && System(m, sp, free, n)
    requires Private(sp, np, t) && !sp[np][t].P1? && IsTable(m, t) && !m[t][i].present && (t == np ==> i == 0)
    requires nt in free && link.frame == nt && link.present && (sp[np][t].P4? || !link.huge)
    requires m' == m[nt := ZERO_TABLE][t := m[t][i := link]]
    ensures System(m', Grow(sp, t, i, nt), free - {nt}, n)
    ensures CloneState(m0, s0, m', Grow(sp, t, i, nt), root, np, bound, complete)
    ensures Private(Grow(sp, t, i, nt), np, nt) && Grow(sp, t, i, nt)[np][nt] == Child(t, sp[np][t], i)
    ensures Private(Grow(sp, t, i, nt), np, t) && Grow(sp, t, i, nt)[np][t] == sp[np][t]
  {
    hide System, Cloned, SameLeaves, WellFormed, Flat, CloneRoots, Private;
    PrivateAt(m, sp, free, n, root, np, t);
    TablesAreUsed(m, sp, free, n);
    FormedAt(m, sp, free, n, np);
    LinkFreshAll(m, m', sp, free, n, t, i, nt, link);
    FlatLinked(m, m', np, sp[np], t, i, nt, link, ZERO_TABLE);
    RootsLinked(m, m', sp, free, n, np, 0, t, i, nt, ZERO_TABLE, link);
    RootsGo(m0, m, m', sp.Keys, root, np);
    PrivateGrows(sp, np, t, i, nt, t);
    ClonedSame(m0, m, m', root, np, bound, complete);
    forall s | s in s0 ensures SameLeaves(m0, m', s) { SameTrans(m0, m, m', s); }
  }

  lemma Skipped(m0: Memory, s0: Spaces, m: Memory, sp: Spaces, root: nat, np: nat, b: nat, b': nat, complete: bool,
                complete': bool)
    requires CloneState(m0, s0, m, sp, root, np, b, complete) && b <= b' && (complete' ==> complete)
    requires !complete' ||
             forall i3: Idx, i2: Idx, i1: Idx :: b <= i3 * 512 + i2 < b' ==> Walk4(m0, root, 0, i3, i2, i1) == None
    ensures CloneState(m0, s0, m, sp, root, np, b', complete')
  {
    hide Cloned, SameLeaves, WellFormed;
    ClonedSkip(m0, m, root, np, b, b', complete, complete');
  }

  lemma AbsentEntry(m: Memory, root: nat, t: nat, i3: Idx, i2: Idx)
    requires Arrives(m, root, 0, i3, t) && IsTable(m, t) && !m[t][i2].present
    ensures forall j3: Idx, j2: Idx, i1: Idx :: j3 * 512 + j2 == i3 * 512 + i2 ==> Walk4(m, root, 0, j3, j2, i1) == None
  {
  }

  // What a turn of the inner loop reads of the source, and why writing the clone does not disturb it.
  lemma EntrySource(m0: Memory, s0: Spaces, m: Memory, sp: Spaces, free: set<nat>, n: nat, root: nat, np: nat,
                    bound: nat, complete: bool, src: nat, dst: nat, i3: Idx, i2: Idx)
    requires CloneState(m0, s0, m, sp, root, np, bound, complete) && System(m, sp, free, n)
    requires src in s0[root] && Arrives(m0, root, 0, i3, src) && IsTable(m0, src) && m0[src][i2].present
    requires Private(sp, np, dst)
    ensures dst !in free
    ensures !m0[src][i2].huge ==>
              var f := m0[src][i2].frame;
              IsTable(m0, f) && IsTable(m, f) && m[f] == m0[f] && f !in free && f != dst
  {
    hide System, Cloned, SameLeaves, CloneRoots, Flat, Private;
    PrivateAt(m, sp, free, n, root, np, dst);
    Path(m0, root, s0[root], 0, i3, i2);
    TablesAreUsed(m, sp, free, n);
  }

  lemma StillArrives(m: Memory, m': Memory, sp: Spaces, free: set<nat>, n: nat, np: nat, i3: Idx, t: nat, nt: nat)
    requires System(m, sp, free, n) && np in sp && nt in free && t in sp[np] && sp[np][t].P2?
    requires Arrives(m, np, 0, i3, t)
    requires forall f :: f in m && f != nt && f != t ==> f in m' && m'[f] == m[f]
    ensures Arrives(m', np, 0, i3, t)
  {
    Path(m, np, sp[np], 0, i3, 0);
  }

  // Apart from table t and frames that were free, memory is as it was.
  ghost predicate Preserved(m: Memory, m': Memory, t: nat, free: set<nat>) {
    forall f :: f in m && f != t && f !in free ==> f in m' && m'[f] == m[f]
  }

  // The tables that were private to np still are, at their places.
  ghost predicate OwnGrew(sp: Spaces, sp': Spaces, np: nat) {
    forall f :: Private(sp, np, f) ==> Private(sp', np, f) && sp'[np][f] == sp[np][f]
  }

  lemma OwnGrows(sp: Spaces, np: nat, t: nat, i: Idx, nt: nat)
    requires Private(sp, np, t) && !sp[np][t].P1? && forall s :: s in sp ==> nt !in sp[s]
    ensures OwnGrew(sp, Grow(sp, t, i, nt), np)
  {
    forall f | Private(sp, np, f)
      ensures Private(Grow(sp, t, i, nt), np, f) && Grow(sp, t, i, nt)[np][f] == sp[np][f] {
      PrivateGrows(sp, np, t, i, nt, f);
    }
  }

  lemma Stay(m: Memory, t: nat, free: set<nat>, sp: Spaces, np: nat)
    ensures Preserved(m, m, t, free) && OwnGrew(sp, sp, np)
  {
  }

  lemma AbsentDirectory(m: Memory, root: nat, own: Owner, t: nat, i3: Idx)
    requires WellFormed(m, root, own) && PdpArrives(m, root, 0, t) && IsTable(m, t)
    requires !m[t][i3].present || m[t][i3].huge
    ensures !m[t][i3].present
    ensures forall j3: Idx, j2: Idx, i1: Idx ::
      i3 * 512 <= j3 * 512 + j2 < (i3 + 1) * 512 ==> Walk4(m, root, 0, j3, j2, i1) == None
  {
    Path(m, root, own, 0, i3, 0);
    assert EntryOk(own, t, own[t], i3, m[t][i3]);
  }

  lemma DirectorySource(m0: Memory, s0: Spaces, m: Memory, sp: Spaces, free: set<nat>, n: nat, root: nat, np: nat,
                        bound: nat, complete: bool, src: nat, dst: nat, i3: Idx)
    requires CloneState(m0, s0, m, sp, root, np, bound, complete) && System(m, sp, free, n)
    requires src in s0[root] && PdpArrives(m0, root, 0, src) && IsTable(m0, src) && m0[src][i3].present
    requires Private(sp, np, dst) && sp[np][dst] == P3
    ensures dst !in free && np !in free && dst != np
    ensures m0[src][i3].frame in s0[root] && Arrives(m0, root, 0, i3, m0[src][i3].frame) && !m0[src][i3].huge
  {
    hide System, Cloned, SameLeaves, CloneRoots, Flat, Private;
    PrivateAt(m, sp, free, n, root, np, dst);
    RootsAt(m, sp, free, n, np);
    Path(m0, root, s0[root], 0, i3, 0);
    assert EntryOk(s0[root], src, s0[root][src], i3, m0[src][i3]);
  }

  lemma RootsAt(m: Memory, sp: Spaces, free: set<nat>, n: nat, r: nat)
    requires System(m, sp, free, n) && r in sp
    ensures r in sp[r] && sp[r][r] == P4 && r !in free && IsTable(m, r)
  {
  }

  lemma SkipDirectory(m0: Memory, s0: Spaces, m: Memory, sp: Spaces, root: nat, np: nat, t: nat, i3: Idx,
                      complete: bool)
    requires CloneState(m0, s0, m, sp, root, np, i3 * 512, complete)
    requires PdpArrives(m0, root, 0, t) && IsTable(m0, t) && (!m0[t][i3].present || m0[t][i3].huge)
    ensures CloneState(m0, s0, m, sp, root, np, (i3 + 1) * 512, complete)
  {
    hide Cloned, SameLeaves, WellFormed, CloneRoots, Flat;
    AbsentDirectory(m0, root, s0[root], t, i3);
    Skipped(m0, s0, m, sp, root, np, i3 * 512, (i3 + 1) * 512, complete, complete);
  }

  // The new root with its upper half is a clone of nothing yet.
  lemma CloneStarts(m: Memory, m': Memory, spaces: Spaces, free: set<nat>, n: nat, root: nat, np: nat)
    requires System(m, spaces, free, n) && root in spaces && np in free && IsTable(m, root)
    requires m' == m[np := UpperHalf(m[root])]
    ensures System(m', spaces[np := KernelPart(m, root, spaces[root])[np := P4]], free - {np}, n)
    ensures CloneState(m, spaces, m', spaces[np := KernelPart(m, root, spaces[root])[np := P4]], root, np, 0, true)
  {
    hide WellFormed, SameLeaves, Cloned, Separate, CloneRoots, KernelPart, Flat;
    NewRoot(m, m', spaces, free, n, root, np);
    TablesAreUsed(m, spaces, free, n);
    RootsStart(m, m', spaces.Keys, root, np);
    FlatStart(m', np);
    assert spaces[np := KernelPart(m, root, spaces[root])[np := P4]].Keys == spaces.Keys + {np};
  }

  lemma FlatStart(m: Memory, np: nat)
    requires IsTable(m, np) && !m[np][0].present
    ensures Flat(m, np)
  {
  }

  lemma Pml4Source(m0: Memory, s0: Spaces, m: Memory, sp: Spaces, free: set<nat>, n: nat, root: nat, np: nat)
    requires CloneState(m0, s0, m, sp, root, np, 0, true) && System(m, sp, free, n) && np in sp
    ensures IsTable(m0, root) && root in m && m[root] == m0[root] && IsTable(m, np)
    ensures Private(sp, np, np) && sp[np][np] == P4 && np !in free
    ensures m0[root][0].present ==> m0[root][0].frame in s0[root] && PdpArrives(m0, root, 0, m0[root][0].frame)
    ensures !m0[root][0].present ==> forall i3: Idx, i2: Idx, i1: Idx :: Walk4(m0, root, 0, i3, i2, i1) == None
  {
    hide System, Cloned, SameLeaves, CloneRoots, Flat;
    RootsAt(m, sp, free, n, np);
    SharedAt(m, sp, free, n, np, np);
    Path(m0, root, s0[root], 0, 0, 0);
  }

  lemma CloneFinished(m0: Memory, s0: Spaces, m: Memory, sp: Spaces, root: nat, np: nat, complete: bool)
    requires CloneState(m0, s0, m, sp, root, np, 512 * 512, complete)
    ensures np !in s0 && sp.Keys == s0.Keys + {np}
    ensures forall s, u :: s in s0 ==> Leaf(m, s, u) == Leaf(m0, s, u)
    ensures forall u :: ClonedLeaf(Leaf(m0, root, u), Leaf(m, np, u), I4(u), true, complete)
    ensures CloneRoots(m0, m, sp.Keys, root, np)
    ensures forall s, i: Idx :: s in s0 && i < 256 && Sole(m0, s0.Keys, s, i) ==> Sole(m, sp.Keys, s, i)
  {
    hide WellFormed, Flat, CloneRoots, Sole;
    forall s, i: Idx | s in s0 && i < 256 && Sole(m0, s0.Keys, s, i) ensures Sole(m, sp.Keys, s, i) {
      SoleThrough(m0, m, s0.Keys, root, np, s, i);
    }
    forall s, u | s in s0 ensures Leaf(m, s, u) == Leaf(m0, s, u) { assert SameLeaves(m0, m, s); }
  }

  lemma CloneIsFlat(m0: Memory, s0: Spaces, m: Memory, sp: Spaces, free: set<nat>, n: nat, root: nat, np: nat,
                    bound: nat, complete: bool)
    requires CloneState(m0, s0, m, sp, root, np, bound, complete) && System(m, sp, free, n) && np in sp
    ensures forall u :: I4(u) == 0 && Leaf(m, np, u).Some? ==> LastTable(m, np, u).Some?
  {
    hide System, Cloned, SameLeaves, WellFormed, Flat, CloneRoots, Leaf, LastTable, I4;
    FormedAt(m, sp, free, n, np);
    forall u | I4(u) == 0 && Leaf(m, np, u).Some? ensures LastTable(m, np, u).Some? {
      FlatLast(m, np, sp[np], u);
    }
  }

  lemma FlatLast(m: Memory, np: nat, own: Owner, u: nat)
    requires WellFormed(m, np, own) && Flat(m, np) && I4(u) == 0 && Leaf(m, np, u).Some?
    ensures LastTable(m, np, u).Some?
  {
    hide I4, I3, I2, I1;
    Path(m, np, own, 0, I3(u), I2(u));
    assert Dir4(m, np, 0, I3(u)).Some? ==> Arrives(m, np, 0, I3(u), Dir4(m, np, 0, I3(u)).value);
  }
}
