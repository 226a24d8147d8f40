/** x86-64 four-level page tables kept as raw words in physical frames (kernel/src/mm/paging.rs).

    A 64-bit table word is written out field by field: bits 51..12 are `frame` (what PTE_MASK selects), bits
    0, 1, 2, 3, 7, 9, 10 and 63 have a field each because the code tests or masks them one by one, bits
    4, 5, 6, 8, 11 are `attrs` and bits 62..52 are `avail`. FLAGS_MASK drops `frame` and `avail` and keeps the
    rest; the ors in the code always join words whose set fields do not collide. */
module Paging {
  import opened Wrappers

  datatype Word = Word(frame: nat, present: bool, write: bool, user: bool, through: bool, huge: bool,
                       cow: bool, swapped: bool, nx: bool, attrs: bv5, avail: bv11)

  const ZERO: Word := Word(0, false, false, false, false, false, false, false, false, 0, 0)

  // `(frame << 12) | 3`: how a new table is linked.
  function TableLink(frame: nat): Word { ZERO.(frame := frame, present := true, write := true) }

  // `(phys & PTE_MASK) | (flags & FLAGS_MASK) | 1`
  function LeafWord(phys: Word, flags: Word): Word {
    flags.(frame := phys.frame, present := true, avail := 0)
  }

  type Idx = i: nat | i < 512

  // pml4_i, pdp_i, pd_i, pt_i
  function I4(v: nat): Idx { v / 0x80_0000_0000 % 512 }
  function I3(v: nat): Idx { v / 0x4000_0000 % 512 }
  function I2(v: nat): Idx { v / 0x20_0000 % 512 }
  function I1(v: nat): Idx { v / 0x1000 % 512 }

  predicate SamePage(v: nat, u: nat) {
    I4(v) == I4(u) && I3(v) == I3(u) && I2(v) == I2(u) && I1(v) == I1(u)
  }

  // Bitwise or of two frame numbers, as `(entry & PTE_MASK) | (virt & 0x1FFFFF)` applies it.
  function Or(a: nat, b: nat): nat
    decreases a + b
  {
    if a == 0 then b else if b == 0 then a
    else 2 * Or(a / 2, b / 2) + (if a % 2 == 1 || b % 2 == 1 then 1 else 0)
  }

  function Pow2(k: nat): (p: nat)
    ensures p >= 1
  {
    if k == 0 then 1 else 2 * Pow2(k - 1)
  }

  lemma {:induction false} OrAligned(k: nat, q: nat, j: nat)
    requires j < Pow2(k)
    ensures Or(Pow2(k) * q, j) == Pow2(k) * q + j
  {
    if k > 0 && q > 0 && j > 0 {
      assert Pow2(k) * q == 2 * (Pow2(k - 1) * q);
      OrAligned(k - 1, q, j / 2);
    }
  }

  lemma {:induction false} OrSelf(k: nat, q: nat, j: nat)
    requires j < Pow2(k)
    ensures Or(Pow2(k) * q + j, j) == Pow2(k) * q + j
  {
    if k > 0 && j > 0 {
      assert Pow2(k) * q + j == 2 * (Pow2(k - 1) * q + j / 2) + j % 2;
      OrSelf(k - 1, q, j / 2);
    }
  }

  /** Splitting a 2 MB entry writes `base + j` where a lookup through the unsplit entry computes `base | j`.
      The two agree on all 512 pages exactly when the base is 2 MB aligned. */
  lemma SplitAgreesIffAligned(base: nat)
    ensures (forall j: nat :: j < 512 ==> Or(base, j) == base + j) <==> base % 512 == 0
  {
    assert Pow2(9) == 512;
    var q, r := base / 512, base % 512;
    if r == 0 {
      forall j: nat | j < 512 ensures Or(base, j) == base + j { OrAligned(9, q, j); }
    } else {
      OrSelf(9, q, r);
      assert Or(base, r) != base + r;
    }
  }

  // ---------------------------------------------------------------- lookups

  type Memory = map<nat, seq<Word>>

  const ZERO_TABLE: seq<Word> := seq(512, _ => ZERO)

  predicate IsTable(m: Memory, f: nat) { f in m && |m[f]| == 512 }

  // The first n frames are there to be used as tables.
  ghost predicate Ram(m: Memory, n: nat) { forall f: nat :: f < n ==> f in m && |m[f]| == 512 }

  // The leaf word an address resolves to. Inside a 2 MB entry it is the word a split would give that page.
  function Walk1(m: Memory, t: nat, i1: Idx): Option<Word> {
    if IsTable(m, t) && m[t][i1].present then Some(m[t][i1]) else None
  }

  function Walk2(m: Memory, t: nat, i2: Idx, i1: Idx): Option<Word> {
    if !IsTable(m, t) || !m[t][i2].present then None
    else if m[t][i2].huge then
      Some(m[t][i2].(frame := Or(m[t][i2].frame, i1), huge := false))
    else Walk1(m, m[t][i2].frame, i1)
  }

  function Walk3(m: Memory, t: nat, i3: Idx, i2: Idx, i1: Idx): Option<Word> {
    if !IsTable(m, t) || !m[t][i3].present then None else Walk2(m, m[t][i3].frame, i2, i1)
  }

  function Walk4(m: Memory, t: nat, i4: Idx, i3: Idx, i2: Idx, i1: Idx): Option<Word> {
    if !IsTable(m, t) || !m[t][i4].present then None else Walk3(m, m[t][i4].frame, i3, i2, i1)
  }

  // The abstract translation map of one address space.
  function Leaf(m: Memory, root: nat, v: nat): Option<Word> {
    Walk4(m, root, I4(v), I3(v), I2(v), I1(v))
  }

  ghost predicate SameLeaves(m: Memory, m': Memory, root: nat) {
    forall i4: Idx, i3: Idx, i2: Idx, i1: Idx ::
      Walk4(m', root, i4, i3, i2, i1) == Walk4(m, root, i4, i3, i2, i1)
  }

  // PML4 slots 0..255, each 512 * 512 * 512 pages.
  const USER_PAGES: nat := 0x8_0000_0000

  // A user page of an address space, and what it holds.
  datatype Loc = Loc(space: nat, page: nat)
  type Page = seq<bv8>

  // The table that entry i of table t names.
  function Next(m: Memory, t: nat, i: Idx): Option<nat> {
    if IsTable(m, t) && m[t][i].present then Some(m[t][i].frame) else None
  }

  // The second-level and the last-level table of a walk, if it gets that far.
  function Dir4(m: Memory, root: nat, i4: Idx, i3: Idx): Option<nat> {
    match Next(m, root, i4)
    case None => None
    case Some(t3) => Next(m, t3, i3)
  }

  function Last4(m: Memory, root: nat, i4: Idx, i3: Idx, i2: Idx): Option<nat> {
    match Dir4(m, root, i4, i3)
    case None => None
    case Some(t2) => if IsTable(m, t2) && m[t2][i2].huge then None else Next(m, t2, i2)
  }

  function Directory(m: Memory, root: nat, v: nat): Option<nat> { Dir4(m, root, I4(v), I3(v)) }

  function LastTable(m: Memory, root: nat, v: nat): Option<nat> { Last4(m, root, I4(v), I3(v), I2(v)) }

  // ---------------------------------------------------------------- separation

  /** Where a table sits: the root, a third-level table, or below one. A third-level table may be named by several root
      entries, and the boot code does so: slots 0 and 256 name one table. */
  datatype Pos = P4 | P3 | P2(t3: nat, i3: Idx) | P1(t3: nat, i3: Idx, i2: Idx)

  // The position of what entry i of table t names.
  function Child(t: nat, p: Pos, i: Idx): Pos
    requires !p.P1?
  {
    match p
    case P4 => P3
    case P3 => P2(t, i)
    case P2(a, b) => P1(a, b, i)
  }

  type Owner = map<nat, Pos>

  ghost predicate EntryOk(own: Owner, t: nat, p: Pos, i: Idx, w: Word) {
    w.present ==>
      if p.P1? then true
      else if p.P2? && w.huge then w.frame % 512 == 0
      else (p.P3? ==> !w.huge) && w.frame in own && own[w.frame] == Child(t, p, i)
  }

  /** `own` gives every table of the space one position, so that below the root no table is reached along two paths. No
      1 GB entries; 2 MB entries are aligned. */
  ghost predicate WellFormed(m: Memory, root: nat, own: Owner) {
    && root in own
    && (forall f :: f in own ==> IsTable(m, f) && (own[f] == P4 <==> f == root))
    && (forall f, i: Idx :: f in own ==> EntryOk(own, f, own[f], i, m[f][i]))
  }

  // A cleared root is an address space that maps nothing.
  lemma EmptyRoot(m: Memory, root: nat)
    requires root in m && m[root] == ZERO_TABLE
    ensures WellFormed(m, root, map[root := P4]) && forall v :: Leaf(m, root, v) == None
  {
    assert forall i: Idx :: !m[root][i].present;
  }

  lemma Untouched(m: Memory, m': Memory, root: nat, own: Owner)
    requires WellFormed(m, root, own)
    requires forall f :: f in own ==> f in m' && m'[f] == m[f]
    ensures WellFormed(m', root, own) && SameLeaves(m, m', root)
  {
  }

  // A fresh table whose own entries are in order may be linked at an unowned frame.
  lemma LinkKeepsShape(m: Memory, m': Memory, root: nat, own: Owner, t: nat, i: Idx, nt: nat, w: Word, table: seq<Word>)
    requires WellFormed(m, root, own)
    requires t in own && !own[t].P1? && nt !in own
    requires w.frame == nt && w.present && (own[t].P4? || !w.huge) && |table| == 512
    requires own[t].P2? || forall k :: 0 <= k < 512 ==> !table[k].present
    requires m' == m[nt := table][t := m[t][i := w]]
    ensures WellFormed(m', root, own[nt := Child(t, own[t], i)])
  {
    var own' := own[nt := Child(t, own[t], i)];
    forall f, k: Idx | f in own'
      ensures EntryOk(own', f, own'[f], k, m'[f][k])
    {
      if f != nt {
        assert EntryOk(own, f, own[f], k, m[f][k]);
      }
    }
  }

  // The tables on the way down sit where the indices say.
  lemma Path(m: Memory, root: nat, own: Owner, i4: Idx, i3: Idx, i2: Idx)
    requires WellFormed(m, root, own)
    ensures m[root][i4].present ==>
              var t3 := m[root][i4].frame;
              && t3 in own && own[t3] == P3 && IsTable(m, t3)
              && (m[t3][i3].present ==>
                    var t2 := m[t3][i3].frame;
                    && t2 in own && own[t2] == P2(t3, i3) && IsTable(m, t2)
                    && (m[t2][i2].present && m[t2][i2].huge ==> m[t2][i2].frame % 512 == 0)
                    && (m[t2][i2].present && !m[t2][i2].huge ==>
                          var t1 := m[t2][i2].frame;
                          t1 in own && own[t1] == P1(t3, i3, i2) && IsTable(m, t1)))
  {
    if m[root][i4].present {
      assert EntryOk(own, root, own[root], i4, m[root][i4]);
      var t3 := m[root][i4].frame;
      if m[t3][i3].present {
        assert EntryOk(own, t3, own[t3], i3, m[t3][i3]);
        var t2 := m[t3][i3].frame;
        assert EntryOk(own, t2, own[t2], i2, m[t2][i2]);
      }
    }
  }

  // Linking a zeroed fresh table into an absent slot changes no leaf.
  lemma LinkFresh(m: Memory, m': Memory, root: nat, own: Owner, t: nat, i: Idx, nt: nat, link: Word)
    requires WellFormed(m, root, own)
    requires t in own && !own[t].P1? && !m[t][i].present && nt !in own
    requires link.frame == nt && link.present && (own[t].P4? || !link.huge)
    requires m' == m[nt := ZERO_TABLE][t := m[t][i := link]]
    ensures WellFormed(m', root, own[nt := Child(t, own[t], i)]) && SameLeaves(m, m', root)
  {
    LinkKeepsShape(m, m', root, own, t, i, nt, link, ZERO_TABLE);
    forall i4: Idx, i3: Idx, i2: Idx, i1: Idx
      ensures Walk4(m', root, i4, i3, i2, i1) == Walk4(m, root, i4, i3, i2, i1)
    {
      Path(m, root, own, i4, i3, i2);
    }
  }

  // The 512 words a 2 MB entry is split into: same flags without the size bit, consecutive frames.
  function SplitTable(w: Word): (t: seq<Word>)
    ensures |t| == 512
  {
    seq(512, j requires 0 <= j < 512 => w.(frame := w.frame + j, present := true, huge := false))
  }

  // Replacing an aligned 2 MB entry by its split changes no leaf.
  lemma LinkSplit(m: Memory, m': Memory, root: nat, own: Owner, t: nat, i: Idx, nt: nat, link: Word)
    requires WellFormed(m, root, own)
    requires t in own && own[t].P2? && m[t][i].present && m[t][i].huge && nt !in own
    requires link.frame == nt && link.present && !link.huge
    requires m' == m[nt := SplitTable(m[t][i])][t := m[t][i := link]]
    ensures WellFormed(m', root, own[nt := Child(t, own[t], i)]) && SameLeaves(m, m', root)
  {
    LinkKeepsShape(m, m', root, own, t, i, nt, link, SplitTable(m[t][i]));
    assert EntryOk(own, t, own[t], i, m[t][i]);
    SplitAgreesIffAligned(m[t][i].frame);
    forall i4: Idx, i3: Idx, i2: Idx, i1: Idx
      ensures Walk4(m', root, i4, i3, i2, i1) == Walk4(m, root, i4, i3, i2, i1)
    {
      Path(m, root, own, i4, i3, i2);
      assert Or(m[t][i].frame, i1) == m[t][i].frame + i1;
    }
  }

  function EntryLeaf(w: Word): Option<Word> { if w.present then Some(w) else None }

  // Between m and m' the leaves looked up at entry i of last-level table t have become w; no other leaf differs.
  ghost predicate Stored(m: Memory, m': Memory, root: nat, t: nat, i: Idx, w: Word) {
    forall i4: Idx, i3: Idx, i2: Idx, i1: Idx ::
      Walk4(m', root, i4, i3, i2, i1) ==
        if Last4(m, root, i4, i3, i2) == Some(t) && i1 == i then EntryLeaf(w) else Walk4(m, root, i4, i3, i2, i1)
  }

  lemma WriteLeaf(m: Memory, m': Memory, root: nat, own: Owner, t: nat, i: Idx, w: Word)
    requires WellFormed(m, root, own) && (t in own ==> own[t].P1?)
    requires IsTable(m, t) && m' == m[t := m[t][i := w]]
    ensures WellFormed(m', root, own) && Stored(m, m', root, t, i, w)
  {
    forall f, k: Idx | f in own ensures EntryOk(own, f, own[f], k, m'[f][k]) {
      assert EntryOk(own, f, own[f], k, m[f][k]);
    }
    forall i4: Idx, i3: Idx, i2: Idx, i1: Idx
      ensures Walk4(m', root, i4, i3, i2, i1) ==
                if Last4(m, root, i4, i3, i2) == Some(t) && i1 == i then EntryLeaf(w)
                else Walk4(m, root, i4, i3, i2, i1)
    {
      Path(m, root, own, i4, i3, i2);
    }
  }

  // Between m and m' the leaves looked up through entry i of second-level table t are gone; no other leaf differs.
  ghost predicate Cleared(m: Memory, m': Memory, root: nat, t: nat, i: Idx) {
    forall i4: Idx, i3: Idx, i2: Idx, i1: Idx ::
      Walk4(m', root, i4, i3, i2, i1) ==
        if Dir4(m, root, i4, i3) == Some(t) && i2 == i then None else Walk4(m, root, i4, i3, i2, i1)
  }

  lemma ClearHuge(m: Memory, m': Memory, root: nat, own: Owner, t: nat, i: Idx)
    requires WellFormed(m, root, own) && (t in own ==> own[t].P2?)
    requires IsTable(m, t) && m' == m[t := m[t][i := ZERO]]
    ensures WellFormed(m', root, own) && Cleared(m, m', root, t, i)
  {
    forall f, k: Idx | f in own ensures EntryOk(own, f, own[f], k, m'[f][k]) {
      assert EntryOk(own, f, own[f], k, m[f][k]);
    }
    forall i4: Idx, i3: Idx, i2: Idx, i1: Idx
      ensures Walk4(m', root, i4, i3, i2, i1) ==
                if Dir4(m, root, i4, i3) == Some(t) && i2 == i then None else Walk4(m, root, i4, i3, i2, i1)
    {
      Path(m, root, own, i4, i3, i2);
    }
  }

  // ---------------------------------------------------------------- several address spaces

  type Spaces = map<nat, Owner>

  // Tables lie on used frames, and spaces that share one agree where it sits.
  ghost predicate Separate(spaces: Spaces, free: set<nat>) {
    && (forall r, f :: r in spaces && f in spaces[r] ==> f !in free)
    && (forall r, s, f :: r in spaces && s in spaces && f in spaces[r] && f in spaces[s] ==>
          spaces[r][f] == spaces[s][f])
  }

  // n is the number of frames the allocator manages.
  ghost predicate System(m: Memory, spaces: Spaces, free: set<nat>, n: nat) {
    && Ram(m, n) && (forall f :: f in free ==> f < n)
    && (forall r :: r in spaces ==> WellFormed(m, r, spaces[r]))
    && Separate(spaces, free)
  }

  lemma TablesAreUsed(m: Memory, spaces: Spaces, free: set<nat>, n: nat)
    requires System(m, spaces, free, n)
    ensures forall r, f :: r in spaces && f in spaces[r] ==> f in m && f !in free
  {
  }

  // A table of one space is a table of memory, and every space that holds it agrees where it sits.
  lemma SharedAt(m: Memory, spaces: Spaces, free: set<nat>, n: nat, r: nat, t: nat)
    requires System(m, spaces, free, n) && r in spaces && t in spaces[r]
    ensures IsTable(m, t) && t !in free
    ensures forall s :: s in spaces && t in spaces[s] ==> spaces[s][t] == spaces[r][t]
    ensures spaces[r][t] == P4 ==> forall s :: s in spaces && t in spaces[s] ==> s == r
  {
  }

  /** What a step that only adds tables does: positions stay, and no space sees a leaf change. */
  ghost predicate Grew(m: Memory, spaces: Spaces, m': Memory, spaces': Spaces) {
    && spaces'.Keys == spaces.Keys
    && (forall r, f :: r in spaces && f in spaces[r] ==> f in spaces'[r] && spaces'[r][f] == spaces[r][f])
    && (forall r :: r in spaces ==> SameLeaves(m, m', r))
  }

  lemma GrewRefl(m: Memory, spaces: Spaces)
    ensures Grew(m, spaces, m, spaces)
  {
  }

  lemma GrewTrans(a: Memory, sa: Spaces, b: Memory, sb: Spaces, c: Memory, sc: Spaces)
    requires Grew(a, sa, b, sb) && Grew(b, sb, c, sc)
    ensures Grew(a, sa, c, sc)
  {
  }

  lemma PathIn(m: Memory, spaces: Spaces, free: set<nat>, n: nat, root: nat, v: nat)
    requires System(m, spaces, free, n) && root in spaces
    ensures root in spaces[root] && spaces[root][root] == P4 && IsTable(m, root)
    ensures m[root][I4(v)].present ==>
              var t3 := m[root][I4(v)].frame;
              t3 in spaces[root] && spaces[root][t3] == P3 && IsTable(m, t3)
    ensures Directory(m, root, v).Some? ==>
              var t2 := Directory(m, root, v).value;
              && t2 in spaces[root] && IsTable(m, t2)
              && m[root][I4(v)].present && spaces[root][t2] == P2(m[root][I4(v)].frame, I3(v))
    ensures LastTable(m, root, v).Some? ==>
              var t1 := LastTable(m, root, v).value;
              && t1 in spaces[root] && IsTable(m, t1)
              && m[root][I4(v)].present && spaces[root][t1] == P1(m[root][I4(v)].frame, I3(v), I2(v))
  {
    Path(m, root, spaces[root], I4(v), I3(v), I2(v));
  }

  // The new table joins every space that holds the table it hangs from.
  ghost function Grow(spaces: Spaces, t: nat, i: Idx, nt: nat): Spaces
    requires forall r :: r in spaces && t in spaces[r] ==> !spaces[r][t].P1?
  {
    map r | r in spaces :: if t in spaces[r] then spaces[r][nt := Child(t, spaces[r][t], i)] else spaces[r]
  }

  lemma GrowKeepsSeparate(spaces: Spaces, free: set<nat>, t: nat, i: Idx, nt: nat)
    requires Separate(spaces, free) && nt in free
    requires forall r :: r in spaces && t in spaces[r] ==> !spaces[r][t].P1?
    ensures Separate(Grow(spaces, t, i, nt), free - {nt})
  {
    var g := Grow(spaces, t, i, nt);
    forall r, s, f | r in g && s in g && f in g[r] && f in g[s]
      ensures g[r][f] == g[s][f]
    {
      if f == nt {
        assert t in spaces[r] && t in spaces[s];
      } else {
        assert f in spaces[r] && f in spaces[s];
      }
    }
  }

  lemma FormedIn(m: Memory, spaces: Spaces, free: set<nat>, n: nat)
    requires System(m, spaces, free, n)
    ensures forall r :: r in spaces ==> WellFormed(m, r, spaces[r])
  {
    hide WellFormed;
  }

  // One table more, in every space that holds the table it hangs from.
  lemma GrownSystem(m: Memory, m': Memory, spaces: Spaces, free: set<nat>, n: nat, t: nat, i: Idx, nt: nat)
    requires System(m, spaces, free, n) && nt in free
    requires forall r :: r in spaces && t in spaces[r] ==> !spaces[r][t].P1?
    requires forall f :: f in m ==> f in m' && (|m[f]| == 512 ==> |m'[f]| == 512)
    requires forall r :: r in spaces ==> WellFormed(m', r, Grow(spaces, t, i, nt)[r]) && SameLeaves(m, m', r)
    ensures System(m', Grow(spaces, t, i, nt), free - {nt}, n)
    ensures Grew(m, spaces, m', Grow(spaces, t, i, nt))
  {
    hide WellFormed, SameLeaves, Separate;
    TablesAreUsed(m, spaces, free, n);
    GrowKeepsSeparate(spaces, free, t, i, nt);
  }

  lemma LinkFreshAll(m: Memory, m': Memory, spaces: Spaces, free: set<nat>, n: nat, t: nat, i: Idx, nt: nat, link: Word)
    requires System(m, spaces, free, n) && nt in free
    requires exists r :: r in spaces && t in spaces[r]
    requires forall r :: r in spaces && t in spaces[r] ==> !spaces[r][t].P1?
    requires IsTable(m, t) && !m[t][i].present
    requires link.frame == nt && link.present
    requires forall r :: r in spaces && t in spaces[r] ==> spaces[r][t].P4? || !link.huge
    requires m' == m[nt := ZERO_TABLE][t := m[t][i := link]]
    ensures System(m', Grow(spaces, t, i, nt), free - {nt}, n)
    ensures Grew(m, spaces, m', Grow(spaces, t, i, nt))
  {
    hide System, Grew, WellFormed, SameLeaves, Separate;
    TablesAreUsed(m, spaces, free, n);
    FormedIn(m, spaces, free, n);
    forall r | r in spaces
      ensures WellFormed(m', r, Grow(spaces, t, i, nt)[r]) && SameLeaves(m, m', r)
    {
      if t in spaces[r] {
        LinkFresh(m, m', r, spaces[r], t, i, nt, link);
      } else {
        Untouched(m, m', r, spaces[r]);
      }
    }
    GrownSystem(m, m', spaces, free, n, t, i, nt);
  }

  lemma LinkSplitAll(m: Memory, m': Memory, spaces: Spaces, free: set<nat>, n: nat, t: nat, i: Idx, nt: nat, link: Word)
    requires System(m, spaces, free, n) && nt in free
    requires exists r :: r in spaces && t in spaces[r]
    requires forall r :: r in spaces && t in spaces[r] ==> spaces[r][t].P2?
    requires IsTable(m, t) && m[t][i].present && m[t][i].huge
    requires link.frame == nt && link.present && !link.huge
    requires m' == m[nt := SplitTable(m[t][i])][t := m[t][i := link]]
    ensures System(m', Grow(spaces, t, i, nt), free - {nt}, n)
    ensures Grew(m, spaces, m', Grow(spaces, t, i, nt))
  {
    hide System, Grew, WellFormed, SameLeaves, Separate;
    TablesAreUsed(m, spaces, free, n);
    FormedIn(m, spaces, free, n);
    forall r | r in spaces
      ensures WellFormed(m', r, Grow(spaces, t, i, nt)[r]) && SameLeaves(m, m', r)
    {
      if t in spaces[r] {
        LinkSplit(m, m', r, spaces[r], t, i, nt, link);
      } else {
        Untouched(m, m', r, spaces[r]);
      }
    }
    GrownSystem(m, m', spaces, free, n, t, i, nt);
  }

  // A last-level store is seen in every space by exactly the addresses that are looked up at it.
  lemma WriteLeafAll(m: Memory, m': Memory, spaces: Spaces, free: set<nat>, n: nat, r: nat, t: nat, i: Idx, w: Word)
    requires System(m, spaces, free, n) && r in spaces && t in spaces[r] && spaces[r][t].P1?
    requires IsTable(m, t) && m' == m[t := m[t][i := w]]
    ensures System(m', spaces, free, n) && forall s :: s in spaces ==> Stored(m, m', s, t, i, w)
  {
    hide WellFormed, Separate, Stored;
    SharedAt(m, spaces, free, n, r, t);
    forall s | s in spaces ensures WellFormed(m', s, spaces[s]) && Stored(m, m', s, t, i, w) {
      WriteLeaf(m, m', s, spaces[s], t, i, w);
    }
  }

  lemma ClearHugeAll(m: Memory, m': Memory, spaces: Spaces, free: set<nat>, n: nat, r: nat, t: nat, i: Idx)
    requires System(m, spaces, free, n) && r in spaces && t in spaces[r] && spaces[r][t].P2?
    requires IsTable(m, t) && m' == m[t := m[t][i := ZERO]]
    ensures System(m', spaces, free, n) && forall s :: s in spaces ==> Cleared(m, m', s, t, i)
  {
    hide WellFormed, Separate, Cleared;
    SharedAt(m, spaces, free, n, r, t);
    forall s | s in spaces ensures WellFormed(m', s, spaces[s]) && Cleared(m, m', s, t, i) {
      ClearHuge(m, m', s, spaces[s], t, i);
    }
  }

  // ---------------------------------------------------------------- who sees a store

  // The address u of space s is looked up in the same last-level entry as v of space r, or in the same 2 MB entry.
  predicate Alias(m: Memory, r: nat, v: nat, s: nat, u: nat) { SameDirEntry(m, r, v, s, u) && I1(u) == I1(v) }

  predicate SameDirEntry(m: Memory, r: nat, v: nat, s: nat, u: nat) {
    I3(u) == I3(v) && I2(u) == I2(v) && SameThird(m, r, I4(v), s, I4(u))
  }

  // Entry i of root r and entry j of root s are one entry or name one third-level table.
  predicate SameThird(m: Memory, r: nat, i: Idx, s: nat, j: Idx) {
    (s == r && j == i) || (Next(m, r, i).Some? && Next(m, s, j) == Next(m, r, i))
  }

  lemma LastTableAlias(m: Memory, spaces: Spaces, free: set<nat>, n: nat, r: nat, v: nat, s: nat, u: nat)
    requires System(m, spaces, free, n) && r in spaces && s in spaces && LastTable(m, r, v).Some?
    ensures LastTable(m, s, u) == LastTable(m, r, v) && I1(u) == I1(v) <==> Alias(m, r, v, s, u)
  {
    hide WellFormed, I4, I3, I2, I1;
    PathIn(m, spaces, free, n, r, v);
    PathIn(m, spaces, free, n, s, u);
  }

  lemma DirectoryAlias(m: Memory, spaces: Spaces, free: set<nat>, n: nat, r: nat, v: nat, s: nat, u: nat)
    requires System(m, spaces, free, n) && r in spaces && s in spaces && Directory(m, r, v).Some?
    ensures Directory(m, s, u) == Directory(m, r, v) && I2(u) == I2(v) <==> SameDirEntry(m, r, v, s, u)
  {
    hide WellFormed, I4, I3, I2, I1;
    PathIn(m, spaces, free, n, r, v);
    PathIn(m, spaces, free, n, s, u);
  }

  // Addresses that are looked up in one entry read one leaf.
  lemma AliasReads(m: Memory, r: nat, v: nat, s: nat, u: nat)
    requires Alias(m, r, v, s, u)
    ensures Leaf(m, s, u) == Leaf(m, r, v)
  {
    hide I4, I3, I2, I1;
  }

  // No other root entry, in this space or another, names the table that entry i of r names.
  ghost predicate Sole(m: Memory, roots: set<nat>, r: nat, i: Idx) {
    forall s, j: Idx :: s in roots && SameThird(m, r, i, s, j) ==> s == r && j == i
  }

  lemma RootsAre(m: Memory, spaces: Spaces, free: set<nat>, n: nat)
    requires System(m, spaces, free, n)
    ensures forall s :: s in spaces ==> s in spaces[s] && spaces[s][s] == P4 && s !in free
    ensures forall s, j: Idx :: s in spaces && Next(m, s, j).Some? ==>
              Next(m, s, j).value in spaces[s] && Next(m, s, j).value !in free
  {
    forall s, j: Idx | s in spaces && Next(m, s, j).Some? ensures Next(m, s, j).value in spaces[s] {
      assert EntryOk(spaces[s], s, spaces[s][s], j, m[s][j]);
    }
  }

  // ---------------------------------------------------------------- root entries

  /** While the tables for v are made, the root entries are as they were, but that entry i of r may have come to name a
      table that no other entry names. */
  ghost predicate RootsKept(m: Memory, m': Memory, roots: set<nat>, r: nat, i: Idx) {
    && (forall s, j: Idx :: s in roots && !(s == r && j == i) ==> Next(m', s, j) == Next(m, s, j))
    && (forall s, j: Idx :: s in roots ==> (SameThird(m', r, i, s, j) <==> SameThird(m, r, i, s, j)))
  }

  lemma RootsTrans(a: Memory, b: Memory, c: Memory, roots: set<nat>, r: nat, i: Idx)
    requires RootsKept(a, b, roots, r, i) && RootsKept(b, c, roots, r, i)
    ensures RootsKept(a, c, roots, r, i)
  {
    hide Next, SameThird;
  }

  lemma RootsSame(m: Memory, m': Memory, roots: set<nat>, r: nat, i: Idx)
    requires r in roots && forall s, j: Idx :: s in roots ==> Next(m', s, j) == Next(m, s, j)
    ensures RootsKept(m, m', roots, r, i)
  {
    hide Next;
  }

  lemma RootsLinked(m: Memory, m': Memory, spaces: Spaces, free: set<nat>, n: nat, r: nat, i4: Idx, t: nat, i: Idx,
                    nt: nat, table: seq<Word>, link: Word)
    requires System(m, spaces, free, n) && r in spaces && t in spaces[r] && nt in free && IsTable(m, t)
    requires t == r ==> i == i4 && !m[t][i].present
    requires m' == m[nt := table][t := m[t][i := link]] && link.present && link.frame == nt
    ensures RootsKept(m, m', spaces.Keys, r, i4)
  {
    hide WellFormed;
    RootsAre(m, spaces, free, n);
    SharedAt(m, spaces, free, n, r, t);
    if t != r {
      NotRoot(m, spaces, free, n, r, t);
      assert forall s, j: Idx :: s in spaces ==> Next(m', s, j) == Next(m, s, j);
    } else {
      assert forall s, j: Idx :: s in spaces && !(s == r && j == i4) ==> Next(m', s, j) == Next(m, s, j);
      assert Next(m', r, i4) == Some(nt) && Next(m, r, i4) == None;
    }
  }

  lemma NotRoot(m: Memory, spaces: Spaces, free: set<nat>, n: nat, r: nat, t: nat)
    requires System(m, spaces, free, n) && r in spaces && t in spaces[r] && t != r
    ensures t !in spaces
  {
    RootsAre(m, spaces, free, n);
    assert forall s :: s in spaces && t in spaces[s] ==> spaces[s][t] == spaces[r][t];
  }

  lemma AliasKept(m: Memory, m': Memory, roots: set<nat>, r: nat, v: nat, s: nat, u: nat)
    requires RootsKept(m, m', roots, r, I4(v)) && s in roots
    ensures Alias(m', r, v, s, u) <==> Alias(m, r, v, s, u)
  {
    hide I4, I3, I2, I1, SameThird;
  }

  // Entries that name a table alone go on doing so.
  lemma SoleKept(m: Memory, m': Memory, roots: set<nat>, r: nat, i: Idx, s: nat, j: Idx)
    requires RootsKept(m, m', roots, r, i) && r in roots && s in roots && Sole(m, roots, s, j)
    ensures Sole(m', roots, s, j)
  {
    hide Next;
    forall q, k: Idx | q in roots && SameThird(m', s, j, q, k) ensures q == s && k == j {
      assert SameThird(m', q, k, s, j) && SameThird(m, q, k, s, j) == SameThird(m, s, j, q, k);
      assert q == r && k == i ==> SameThird(m, q, k, s, j);
      assert SameThird(m, s, j, q, k);
    }
  }

  lemma SolesKept(m: Memory, m': Memory, roots: set<nat>, r: nat, i: Idx)
    requires RootsKept(m, m', roots, r, i) && r in roots
    ensures forall s, j: Idx :: s in roots && Sole(m, roots, s, j) ==> Sole(m', roots, s, j)
  {
    hide RootsKept, Sole;
    forall s, j: Idx | s in roots && Sole(m, roots, s, j) ensures Sole(m', roots, s, j) {
      SoleKept(m, m', roots, r, i, s, j);
    }
  }
}
