/** Copy-on-write sharing of user pages (kernel/src/mm/cow.rs and the fork, fault and teardown code of
    kernel/src/mm/paging.rs), at the level of leaf words: the page tables are a map from (space, page) to word. A space
    holds the user pages of its process and, from the clone it began as, supervisor pages of the kernel. */
module Cow {
  import opened Wrappers
  import opened Paging

  /** `rc` is the AtomicU16 table, `free` the frames the allocator would hand out, `reserved` the frames that
      are neither free nor user pages (kernel image, page tables, the table of counts itself). */
  datatype State = State(leaves: map<Loc, Word>, rc: map<nat, nat>, free: set<nat>, ram: map<nat, Page>,
                         reserved: set<nat>)

  // krust_cow_refinc: sticks at 0xFFFF.
  function Inc(prev: nat): nat { if prev >= 0xFFFE then 0xFFFF else prev + 1 }

  // krust_cow_refdec: never below 0; the caller is given the count before.
  function Dec(prev: nat): nat { if prev > 0 then prev - 1 else 0 }

  function RefInc(s: State, f: nat): State { if f in s.rc then s.(rc := s.rc[f := Inc(s.rc[f])]) else s }
  function RefDec(s: State, f: nat): State { if f in s.rc then s.(rc := s.rc[f := Dec(s.rc[f])]) else s }
  function Refs(s: State, f: nat): nat { if f in s.rc then s.rc[f] else 0 }

  // ---------------------------------------------------------------- steps

  // vma_lazy_alloc: a zeroed private page, writable and executable as its range says.
  function NewPage(s: State, l: Loc, f: nat, zero: Page, write: bool, nx: bool): State {
    s.(leaves := s.leaves[l := ZERO.(frame := f, present := true, write := write, user := true, nx := nx)],
       free := s.free - {f}, ram := s.ram[f := zero])
  }

  function CowWord(w: Word): Word { w.(write := false, cow := true, present := true, avail := 0) }

  // One leaf of the loop of krust_paging_copy_user_pages.
  function CopyLeaf(s: State, src: Loc, dst: Loc): State {
    if src !in s.leaves || !s.leaves[src].present then s
    else
      var w := s.leaves[src];
      if w.write && w.user then
        RefInc(s, w.frame).(leaves := s.leaves[src := CowWord(w)][dst := CowWord(w)])
      else
        s.(leaves := s.leaves[dst := w])
  }

  // cow_resolve on a COW leaf; f is the frame the allocator returns, None if it has none.
  function Fault(s: State, l: Loc, f: Option<nat>): State
    requires l in s.leaves && s.leaves[l].frame in s.ram
  {
    var w := s.leaves[l];
    var refs := Refs(s, w.frame);
    var s1 := RefDec(s, w.frame);
    if refs == 0 then
      s1.(leaves := s.leaves[l := w.(cow := false, write := true, present := true, avail := 0)])
    else if f.None? then s1
    else
      s1.(leaves := s.leaves[l := ZERO.(frame := f.value, present := true, write := true, user := true)],
          free := s.free - {f.value}, ram := s.ram[f.value := s.ram[w.frame]])
  }

  // A store through a writable leaf.
  function Store(s: State, l: Loc, page: Page): State
    requires l in s.leaves
  {
    s.(ram := s.ram[s.leaves[l].frame := page])
  }

  // One leaf of the loop of krust_paging_free_user_pages.
  function DropLeaf(s: State, l: Loc): State {
    if l !in s.leaves || !s.leaves[l].present then s
    else
      var w := s.leaves[l];
      var s1 := s.(leaves := s.leaves - {l});
      if w.cow then
        if Refs(s, w.frame) == 0 then Release(RefDec(s1, w.frame), w.frame) else RefDec(s1, w.frame)
      else Release(s1, w.frame)
  }

  // krust_pmm_free_frame: a number the allocator has no frame for is ignored.
  function Release(s: State, f: nat): State { if f in s.rc then s.(free := s.free + {f}) else s }

  // ---------------------------------------------------------------- invariant

  predicate IsUser(s: State, l: Loc) { l in s.leaves && s.leaves[l].user }

  // The user pages that map a frame.
  ghost function Mappers(m: map<Loc, Word>, f: nat): set<Loc> { set l | l in m && m[l].user && m[l].frame == f }

  ghost function Count(s: State, f: nat): nat { |Mappers(s.leaves, f)| }

  // Supervisor pages map any frame: the kernel's own, free ones, and those of user pages.
  ghost predicate LeafOk(s: State, l: Loc)
    requires l in s.leaves
  {
    var w := s.leaves[l];
    && l.page < USER_PAGES
    && w.present && (w.cow ==> w.user)
    && (w.user ==> && (w.write ==> !w.cow) && w.frame in s.ram && w.frame in s.rc
                   && (!w.cow ==> Count(s, w.frame) == 1))
  }

  // One less reference than user pages, and a frame is exactly one of free, reserved and mapped by user pages.
  ghost predicate FrameOk(s: State, f: nat)
    requires f in s.rc
  {
    && s.rc[f] == (if Count(s, f) == 0 then 0 else Count(s, f) - 1)
    && (f in s.free <==> f !in s.reserved && Count(s, f) == 0)
    && (f in s.reserved ==> Count(s, f) == 0)
  }

  ghost predicate Inv(s: State) {
    && (forall l :: l in s.leaves ==> LeafOk(s, l))
    && (forall f :: f in s.rc ==> FrameOk(s, f))
    && s.free <= s.rc.Keys
  }

  // What each process reads at each of its pages.
  ghost function View(s: State): map<Loc, Page>
    requires Inv(s)
  {
    map l | l in s.leaves && s.leaves[l].user :: assert LeafOk(s, l); s.ram[s.leaves[l].frame]
  }

  // ---------------------------------------------------------------- counting

  function One(b: bool): nat { if b then 1 else 0 }

  lemma CountPut(s: State, s': State, l: Loc, w: Word, f: nat)
    requires s'.leaves == s.leaves[l := w]
    ensures Count(s', f) == Count(s, f) - One(IsUser(s, l) && s.leaves[l].frame == f) + One(w.user && w.frame == f)
    ensures IsUser(s, l) && s.leaves[l].frame == f ==> Count(s, f) >= 1
  {
    MappersPut(s.leaves, l, w, f);
    SetPut(Mappers(s.leaves, f), l);
  }

  lemma SetPut(a: set<Loc>, l: Loc)
    ensures |a + {l}| == |a| + One(l !in a) && |a - {l}| == |a| - One(l in a)
    ensures l in a ==> |a| >= 1
  {
    assert l in a ==> a + {l} == a && a == (a - {l}) + {l};
    assert l !in a ==> a - {l} == a;
  }

  lemma MappersPut(m: map<Loc, Word>, l: Loc, w: Word, f: nat)
    ensures Mappers(m[l := w], f) == if w.user && w.frame == f then Mappers(m, f) + {l} else Mappers(m, f) - {l}
    ensures l in Mappers(m, f) <==> l in m && m[l].user && m[l].frame == f
  {
  }

  lemma CountDrop(s: State, s': State, l: Loc, f: nat)
    requires s'.leaves == s.leaves - {l}
    ensures Count(s', f) == Count(s, f) - One(IsUser(s, l) && s.leaves[l].frame == f)
    ensures IsUser(s, l) && s.leaves[l].frame == f ==> Count(s, f) >= 1
  {
    assert Mappers(s'.leaves, f) == Mappers(s.leaves, f) - {l};
    SetPut(Mappers(s.leaves, f), l);
  }

  lemma TwoLeaves(s: State, k: Loc, l: Loc)
    requires IsUser(s, k) && IsUser(s, l)
    ensures Count(s, s.leaves[l].frame) >= 1
    ensures k != l && s.leaves[k].frame == s.leaves[l].frame ==> Count(s, s.leaves[l].frame) >= 2
  {
    var a := Mappers(s.leaves, s.leaves[l].frame);
    assert l in a && |a - {l}| == |a| - 1;
    if k != l && s.leaves[k].frame == s.leaves[l].frame { assert k in a - {l}; }
  }

  lemma Mapped(s: State, l: Loc)
    requires Inv(s) && l in s.leaves
    ensures s.leaves[l].present && (s.leaves[l].cow ==> s.leaves[l].user)
    ensures s.leaves[l].user ==> s.leaves[l].frame in s.ram && s.leaves[l].frame in s.rc
  {
    assert LeafOk(s, l);
  }

  // ---------------------------------------------------------------- steps keep the invariant

  lemma NewPageKeeps(s: State, l: Loc, f: nat, zero: Page, write: bool, nx: bool)
    requires Inv(s) && !IsUser(s, l) && f in s.free && l.page < USER_PAGES
    ensures Inv(NewPage(s, l, f, zero, write, nx))
    ensures View(NewPage(s, l, f, zero, write, nx)) == View(s)[l := zero]
  {
    hide Count;
    var s' := NewPage(s, l, f, zero, write, nx);
    forall k | k in s'.leaves ensures LeafOk(s', k) && (k != l && IsUser(s, k) ==> s'.leaves[k].frame != f) {
      CountPut(s, s', l, s'.leaves[l], s'.leaves[k].frame);
      if k != l {
        assert LeafOk(s, k);
        if IsUser(s, k) { TwoLeaves(s, k, k); }
      }
    }
    forall g | g in s'.rc ensures FrameOk(s', g) {
      CountPut(s, s', l, s'.leaves[l], g);
    }
  }

  // A writable page has its frame to itself; after the copy both leaves are COW and one reference is counted.
  lemma CopyLeafKeeps(s: State, src: Loc, dst: Loc)
    requires Inv(s) && IsUser(s, src) && s.leaves[src].write && !IsUser(s, dst) && src != dst && dst.page < USER_PAGES
    ensures Inv(CopyLeaf(s, src, dst))
  {
    hide Count;
    var s' := CopyLeaf(s, src, dst);
    assert LeafOk(s, src);
    var w := CowWord(s.leaves[src]);
    var mid := s.(leaves := s.leaves[src := w]);
    forall k | k in s'.leaves ensures LeafOk(s', k) {
      CountPut(s, mid, src, w, s'.leaves[k].frame);
      CountPut(mid, s', dst, w, s'.leaves[k].frame);
      if k != dst {
        assert LeafOk(s, k);
        if IsUser(s, k) { TwoLeaves(s, k, src); }
      }
    }
    forall g | g in s'.rc ensures FrameOk(s', g) {
      CountPut(s, mid, src, w, g);
      CountPut(mid, s', dst, w, g);
    }
  }

  // A supervisor page is copied as it is, and no process sees it.
  lemma CopyKernelKeeps(s: State, src: Loc, dst: Loc)
    requires Inv(s) && src in s.leaves && !s.leaves[src].user && !IsUser(s, dst) && dst.page < USER_PAGES
    ensures Inv(CopyLeaf(s, src, dst)) && View(CopyLeaf(s, src, dst)) == View(s)
  {
    hide Count;
    var s', w := CopyLeaf(s, src, dst), s.leaves[src];
    assert LeafOk(s, src);
    forall k | k in s'.leaves ensures LeafOk(s', k) {
      CountPut(s, s', dst, w, s'.leaves[k].frame);
      if k != dst { assert LeafOk(s, k); }
    }
    forall g | g in s'.rc ensures FrameOk(s', g) { CountPut(s, s', dst, w, g); }
  }

  lemma CopyLeafView(s: State, src: Loc, dst: Loc)
    requires Inv(s) && IsUser(s, src) && s.leaves[src].write && !IsUser(s, dst) && src != dst
    requires Inv(CopyLeaf(s, src, dst))
    ensures View(CopyLeaf(s, src, dst)) == View(s)[dst := View(s)[src]]
  {
    hide Count;
    assert LeafOk(s, src);
  }

  lemma FaultKeeps(s: State, l: Loc, f: Option<nat>)
    requires Inv(s) && l in s.leaves && s.leaves[l].cow
    requires Refs(s, s.leaves[l].frame) == 0 || (f.Some? && f.value in s.free)
    ensures s.leaves[l].frame in s.ram && Inv(Fault(s, l, f))
  {
    hide Count;
    assert LeafOk(s, l);
    var s' := Fault(s, l, f);
    forall k | k in s'.leaves ensures LeafOk(s', k) {
      CountPut(s, s', l, s'.leaves[l], s'.leaves[k].frame);
      assert LeafOk(s, k);
      if IsUser(s, k) {
        TwoLeaves(s, k, l);
        TwoLeaves(s, k, k);
      }
    }
    forall g | g in s'.rc ensures FrameOk(s', g) {
      CountPut(s, s', l, s'.leaves[l], g);
      TwoLeaves(s, l, l);
    }
  }

  lemma FaultView(s: State, l: Loc, f: Option<nat>)
    requires Inv(s) && l in s.leaves && s.leaves[l].cow && s.leaves[l].frame in s.ram && Inv(Fault(s, l, f))
    requires Refs(s, s.leaves[l].frame) == 0 || (f.Some? && f.value in s.free)
    ensures View(Fault(s, l, f)) == View(s)
  {
    hide Count;
    forall k | IsUser(s, k)
      ensures LeafOk(s, k) && (f.Some? && f.value in s.free ==> s.leaves[k].frame != f.value) {
      TwoLeaves(s, k, k);
    }
  }

  lemma StoreKeeps(s: State, l: Loc, page: Page)
    requires Inv(s) && IsUser(s, l) && s.leaves[l].write
    ensures Inv(Store(s, l, page)) && View(Store(s, l, page)) == View(s)[l := page]
  {
    hide Count;
    var s' := Store(s, l, page);
    assert LeafOk(s, l);
    forall k | k in s.leaves
      ensures LeafOk(s', k) && (k != l && IsUser(s, k) ==> s.leaves[k].frame != s.leaves[l].frame)
    {
      CountSame(s, s', s.leaves[k].frame);
      assert LeafOk(s, k);
      if IsUser(s, k) { TwoLeaves(s, k, l); }
    }
    forall g | g in s'.rc ensures FrameOk(s', g) { CountSame(s, s', g); }
  }

  lemma CountSame(s: State, s': State, f: nat)
    requires s.leaves == s'.leaves
    ensures Count(s, f) == Count(s', f)
  {
  }

  // The frame of a user page is freed with its last leaf, and only then; it was not free before.
  lemma DropLeafKeeps(s: State, l: Loc)
    requires Inv(s) && (l in s.leaves ==> s.leaves[l].user)
    ensures Inv(DropLeaf(s, l)) && View(DropLeaf(s, l)) == View(s) - {l}
    ensures forall f :: f in DropLeaf(s, l).free && f !in s.free ==> Count(s, f) == 1 && Count(DropLeaf(s, l), f) == 0
  {
    hide Count;
    var s' := DropLeaf(s, l);
    if l in s.leaves {
      assert LeafOk(s, l);
      forall k | k in s'.leaves ensures LeafOk(s', k) {
        CountDrop(s, s', l, s.leaves[k].frame);
        assert LeafOk(s, k);
        if IsUser(s, k) {
          TwoLeaves(s, k, l);
          TwoLeaves(s, k, k);
        }
      }
      CountDrop(s, s', l, s.leaves[l].frame);
      forall g | g in s'.rc ensures FrameOk(s', g) { CountDrop(s, s', l, g); }
    }
  }

  // ---------------------------------------------------------------- whole operations

  // krust_paging_copy_user_pages over the first k user pages, in the order of its four nested loops.
  function CopyUpTo(s: State, src: nat, dst: nat, k: nat): State {
    if k == 0 then s else CopyLeaf(CopyUpTo(s, src, dst, k - 1), Loc(src, k - 1), Loc(dst, k - 1))
  }

  // krust_paging_free_user_pages over the first k user pages.
  function DropUpTo(s: State, space: nat, k: nat): State {
    if k == 0 then s else DropLeaf(DropUpTo(s, space, k - 1), Loc(space, k - 1))
  }

  // Every user page of the space may be written: none is COW already, none read-only.
  predicate AllWritable(s: State, space: nat) {
    forall l :: l in s.leaves && s.leaves[l].user && l.space == space ==> s.leaves[l].write
  }

  // The space holds no user page yet: it may be a clone with the kernel's pages.
  predicate Unused(s: State, space: nat) { forall l :: l in s.leaves && s.leaves[l].user ==> l.space != space }

  // After k pages: the child reads what the parent read on those pages, and everyone else what they read.
  ghost predicate ForkedView(v: map<Loc, Page>, v': map<Loc, Page>, src: nat, dst: nat, k: nat) {
    forall l: Loc ::
      && (l in v' <==> if l.space == dst then l.page < k && Loc(src, l.page) in v else l in v)
      && (l in v' ==> v'[l] == if l.space == dst then v[Loc(src, l.page)] else v[l])
  }

  lemma ForkedViewStep(v: map<Loc, Page>, vm: map<Loc, Page>, v': map<Loc, Page>, src: nat, dst: nat, k: nat)
    requires ForkedView(v, vm, src, dst, k) && src != dst
    requires v' == if Loc(src, k) in vm then vm[Loc(dst, k) := vm[Loc(src, k)]] else vm
    ensures ForkedView(v, v', src, dst, k + 1)
  {
  }

  // The leaves the loop has not come to yet are as they were.
  ghost predicate Ahead(s: State, s': State, src: nat, dst: nat, k: nat) {
    && (forall l :: l in s'.leaves && s'.leaves[l].user && l.space == dst ==> l.page < k)
    && (forall l: Loc :: l.space == src && l.page >= k ==> (l in s'.leaves <==> l in s.leaves))
    && (forall l :: l in s.leaves && l.space == src && l.page >= k ==> s'.leaves[l] == s.leaves[l])
  }

  lemma AheadStep(s: State, s': State, src: nat, dst: nat, k: nat)
    requires Ahead(s, s', src, dst, k) && src != dst
    ensures Ahead(s, CopyLeaf(s', Loc(src, k), Loc(dst, k)), src, dst, k + 1)
  {
    hide RefInc;
  }

  lemma ForkStep(s: State, mid: State, src: nat, dst: nat, k: nat)
    requires Inv(mid) && src != dst && AllWritable(s, src) && Ahead(s, mid, src, dst, k) && k < USER_PAGES
    ensures var s' := CopyLeaf(mid, Loc(src, k), Loc(dst, k));
            && Inv(s')
            && View(s') == if Loc(src, k) !in View(mid) then View(mid)
                           else View(mid)[Loc(dst, k) := View(mid)[Loc(src, k)]]
  {
    var a, b := Loc(src, k), Loc(dst, k);
    if a in s.leaves && s.leaves[a].user {
      hide Inv;
      CopyLeafKeeps(mid, a, b);
      CopyLeafView(mid, a, b);
    } else if a in s.leaves {
      hide Inv;
      CopyKernelKeeps(mid, a, b);
    }
  }

  lemma {:induction false} ForkKeeps(s: State, src: nat, dst: nat, k: nat)
    requires Inv(s) && src != dst && Unused(s, dst) && AllWritable(s, src) && k <= USER_PAGES
    ensures Inv(CopyUpTo(s, src, dst, k)) && Ahead(s, CopyUpTo(s, src, dst, k), src, dst, k)
    ensures ForkedView(View(s), View(CopyUpTo(s, src, dst, k)), src, dst, k)
  {
    hide Inv, ForkedView, View, CopyLeaf, Ahead, AllWritable, Unused;
    if k == 0 {
      ForkStarts(s, src, dst);
    } else {
      ForkKeeps(s, src, dst, k - 1);
      var mid := CopyUpTo(s, src, dst, k - 1);
      AheadStep(s, mid, src, dst, k - 1);
      ForkStep(s, mid, src, dst, k - 1);
      ForkedViewStep(View(s), View(mid), View(CopyUpTo(s, src, dst, k)), src, dst, k - 1);
    }
  }

  lemma ForkStarts(s: State, src: nat, dst: nat)
    requires Inv(s) && Unused(s, dst)
    ensures ForkedView(View(s), View(s), src, dst, 0) && Ahead(s, s, src, dst, 0)
  {
  }

  lemma CopyLeafCount(s: State, src: Loc, dst: Loc, f: nat)
    requires !IsUser(s, dst) && src != dst
    requires src in s.leaves ==>
      s.leaves[src].present && (s.leaves[src].user && s.leaves[src].frame == f ==> !s.leaves[src].write)
    ensures Count(CopyLeaf(s, src, dst), f) == Count(s, f) + One(IsUser(s, src) && s.leaves[src].frame == f)
    ensures Refs(CopyLeaf(s, src, dst), f) == Refs(s, f)
  {
    hide Count;
    if src in s.leaves {
      var s' := CopyLeaf(s, src, dst);
      var w := s'.leaves[dst];
      var mid := s.(leaves := s.leaves[src := s'.leaves[src]]);
      CountPut(s, mid, src, s'.leaves[src], f);
      CountPut(mid, s', dst, w, f);
    } else {
      CountSame(s, CopyLeaf(s, src, dst), f);
    }
  }

  // Forking a space copies the leaves of a COW frame without counting them.
  lemma {:induction false} UncountedCopies(s: State, src: nat, dst: nat, k: nat, f: nat, p: nat)
    requires src != dst && Unused(s, dst) && IsUser(s, Loc(src, p)) && s.leaves[Loc(src, p)].frame == f
    requires forall l :: l in s.leaves ==>
      s.leaves[l].present && (s.leaves[l].user && s.leaves[l].frame == f ==> !s.leaves[l].write)
    ensures Ahead(s, CopyUpTo(s, src, dst, k), src, dst, k)
    ensures Refs(CopyUpTo(s, src, dst, k), f) == Refs(s, f)
    ensures Count(CopyUpTo(s, src, dst, k), f) >= Count(s, f) + One(p < k)
  {
    hide Count, Refs, CopyLeaf, Ahead, Unused;
    if k == 0 {
      AheadStarts(s, src, dst);
    } else {
      UncountedCopies(s, src, dst, k - 1, f, p);
      var mid := CopyUpTo(s, src, dst, k - 1);
      AheadStep(s, mid, src, dst, k - 1);
      AheadAt(s, mid, src, dst, k - 1);
      CopyLeafCount(mid, Loc(src, k - 1), Loc(dst, k - 1), f);
    }
  }

  lemma AheadStarts(s: State, src: nat, dst: nat)
    requires Unused(s, dst)
    ensures Ahead(s, s, src, dst, 0)
  {
  }

  lemma AheadAt(s: State, s': State, src: nat, dst: nat, k: nat)
    requires Ahead(s, s', src, dst, k)
    ensures var a := Loc(src, k);
            (a in s'.leaves <==> a in s.leaves) && (a in s.leaves ==> s'.leaves[a] == s.leaves[a])
    ensures !IsUser(s', Loc(dst, k))
  {
  }

  /** Fork is correct exactly when every user page of the parent is writable: a COW page and a read-only one are copied
      verbatim and the new reference is never counted. */
  lemma ForkKeepsIff(s: State, src: nat, dst: nat)
    requires Inv(s) && src != dst && Unused(s, dst)
    ensures Inv(CopyUpTo(s, src, dst, USER_PAGES)) <==> AllWritable(s, src)
  {
    if AllWritable(s, src) {
      ForkKeeps(s, src, dst, USER_PAGES);
    } else {
      var l :| l in s.leaves && s.leaves[l].user && l.space == src && !s.leaves[l].write;
      SharedFrameBreaks(s, src, dst, l);
    }
  }

  lemma SharedFrameBreaks(s: State, src: nat, dst: nat, l: Loc)
    requires Inv(s) && src != dst && Unused(s, dst) && IsUser(s, l) && l.space == src && !s.leaves[l].write
    ensures !Inv(CopyUpTo(s, src, dst, USER_PAGES))
  {
    hide Count, CopyLeaf;
    var f, s' := s.leaves[l].frame, CopyUpTo(s, src, dst, USER_PAGES);
    forall k | k in s.leaves
      ensures s.leaves[k].present && (s.leaves[k].user && s.leaves[k].frame == f ==> !s.leaves[k].write)
    {
      assert LeafOk(s, k);
      if IsUser(s, k) { TwoLeaves(s, k, l); }
    }
    assert LeafOk(s, l) && FrameOk(s, f) && l == Loc(src, l.page);
    UncountedCopies(s, src, dst, USER_PAGES, f, l.page);
    TwoLeaves(s, l, l);
    CopyFrames(s, src, dst, USER_PAGES);
    assert !FrameOk(s', f);
  }

  /** A write fault on a shared page is resolved correctly exactly when a frame is left: without one the count
      has already been lowered although the leaf still maps the frame. */
  lemma FaultKeepsIff(s: State, l: Loc, f: Option<nat>)
    requires Inv(s) && l in s.leaves && s.leaves[l].cow && (f.Some? ==> f.value in s.free)
    ensures s.leaves[l].frame in s.ram
    ensures Inv(Fault(s, l, f)) <==> Refs(s, s.leaves[l].frame) == 0 || f.Some?
  {
    assert LeafOk(s, l);
    if Refs(s, s.leaves[l].frame) == 0 || f.Some? {
      FaultKeeps(s, l, f);
    } else {
      var s', g := Fault(s, l, f), s.leaves[l].frame;
      CountSame(s, s', g);
      assert FrameOk(s, g);
      assert !FrameOk(s', g);
    }
  }

  /** What goes wrong then, in any state. A read-only page copied to a child is freed with the child, though the parent
      still maps it. */
  lemma ReadOnlyForkFreesMappedFrame(s: State, a: Loc, b: Loc)
    requires Inv(s) && IsUser(s, a) && !s.leaves[a].write && !s.leaves[a].cow && !IsUser(s, b)
    ensures var s' := DropLeaf(CopyLeaf(s, a, b), b);
            a in s'.leaves && s'.leaves[a].frame in s'.free
  {
    assert LeafOk(s, a);
  }

  /** And fork one page twice, let the first two spaces take their write fault,
      and the second may write the very frame the third still reads. */
  lemma ForkTwiceBreaksIsolation(s: State, a: Loc, b: Loc, c: Loc, f: nat)
    requires Inv(s) && IsUser(s, a) && s.leaves[a].write && !IsUser(s, b) && !IsUser(s, c) && a != b && a != c
    requires b != c
    requires f in s.free
    ensures var s2 := CopyLeaf(CopyLeaf(s, a, b), a, c);
            var s4 := Fault(Fault(s2, a, Some(f)), b, None);
            && s4.leaves[b].write
            && forall page: Page :: Store(s4, b, page).ram[s4.leaves[c].frame] == page
  {
    assert LeafOk(s, a) && FrameOk(s, s.leaves[a].frame);
  }

  /** swap_evict_page on a COW page first resolves the sharing and then frees the frame the page had before
      (old_pte). That frame is still mapped elsewhere exactly when the page was shared. */
  lemma EvictionFreesMappedFrameIff(s: State, l: Loc, f: nat)
    requires Inv(s) && l in s.leaves && s.leaves[l].cow && f in s.free
    ensures s.leaves[l].frame in s.ram
    ensures (exists k :: MapsAfter(Fault(s, l, Some(f)), l, k, s.leaves[l].frame)) <==> Refs(s, s.leaves[l].frame) > 0
  {
    assert LeafOk(s, l) && FrameOk(s, s.leaves[l].frame);
    var g, s' := s.leaves[l].frame, Fault(s, l, Some(f));
    var others := Mappers(s.leaves, g) - {l};
    assert l in Mappers(s.leaves, g) && |others| == Count(s, g) - 1;
    if Refs(s, g) > 0 {
      var k :| k in others;
      assert MapsAfter(s', l, k, g);
    } else {
      assert forall k :: MapsAfter(s', l, k, g) ==> k in others;
    }
  }

  predicate MapsAfter(s: State, l: Loc, k: Loc, f: nat) { IsUser(s, k) && k != l && s.leaves[k].frame == f }

  // ---------------------------------------------------------------- new protection

  // mprotect on a present page: the frame is mapped again as a user page, without the COW bit.
  function Remapped(s: State, l: Loc, write: bool, nx: bool): State
    requires l in s.leaves
  {
    s.(leaves := s.leaves[l := ZERO.(frame := s.leaves[l].frame, present := true, user := true, write := write,
                                     nx := nx)])
  }

  /** Changing the protection of a page keeps the invariant exactly if it is a user page whose frame is not shared,
      whatever the new protection is. */
  lemma RemapKeepsIff(s: State, l: Loc, write: bool, nx: bool)
    requires Inv(s) && l in s.leaves
    ensures Inv(Remapped(s, l, write, nx)) <==> s.leaves[l].user && Refs(s, s.leaves[l].frame) == 0
  {
    hide Count;
    var s', f := Remapped(s, l, write, nx), s.leaves[l].frame;
    assert LeafOk(s, l);
    CountPut(s, s', l, s'.leaves[l], f);
    if s.leaves[l].user && Refs(s, f) == 0 {
      TwoLeaves(s, l, l);
      forall k | k in s'.leaves ensures LeafOk(s', k) {
        assert LeafOk(s, k) && (IsUser(s, k) ==> FrameOk(s, s.leaves[k].frame));
        CountPut(s, s', l, s'.leaves[l], s'.leaves[k].frame);
        if IsUser(s, k) { TwoLeaves(s, k, l); }
      }
      forall g | g in s'.rc ensures FrameOk(s', g) {
        assert FrameOk(s, g);
        CountPut(s, s', l, s'.leaves[l], g);
      }
    } else {
      assert f in s.rc ==> FrameOk(s, f);
      assert !(LeafOk(s', l) && FrameOk(s', f));
    }
  }

  // ---------------------------------------------------------------- teardown

  // The space without its supervisor pages.
  function Stripped(s: State, space: nat): State {
    s.(leaves := map l | l in s.leaves && (l.space != space || s.leaves[l].user) :: s.leaves[l])
  }

  lemma StrippedKeeps(s: State, space: nat)
    requires Inv(s)
    ensures Inv(Stripped(s, space)) && View(Stripped(s, space)) == View(s)
    ensures forall f :: Count(Stripped(s, space), f) == Count(s, f)
  {
    var s' := Stripped(s, space);
    forall f ensures Count(s', f) == Count(s, f) { assert Mappers(s'.leaves, f) == Mappers(s.leaves, f); }
    forall l | l in s'.leaves ensures LeafOk(s', l) { assert LeafOk(s, l); }
    forall f | f in s'.rc ensures FrameOk(s', f) { assert FrameOk(s, f); }
  }

  lemma {:induction false} DropKeeps(s: State, space: nat, k: nat)
    requires Inv(s) && forall l :: l in s.leaves && l.space == space ==> s.leaves[l].user
    ensures Inv(DropUpTo(s, space, k))
    ensures View(DropUpTo(s, space, k)) == map l | l in View(s) && !(l.space == space && l.page < k) :: View(s)[l]
    ensures forall l :: l in DropUpTo(s, space, k).leaves ==>
              l in s.leaves && DropUpTo(s, space, k).leaves[l] == s.leaves[l]
  {
    hide Inv, View;
    if k == 0 {
    } else {
      DropKeeps(s, space, k - 1);
      DropLeafKeeps(DropUpTo(s, space, k - 1), Loc(space, k - 1));
    }
  }

  // The frames under the supervisor pages of the space, up to a page.
  ghost function KernelFrames(s: State, space: nat, k: nat): set<nat> {
    set l | l in s.leaves && l.space == space && !s.leaves[l].user && l.page < k && s.leaves[l].frame in s.rc
          :: s.leaves[l].frame
  }

  // a is b with the supervisor pages of s from k on, and with the frames of those before k given back.
  ghost predicate WithKernel(s: State, a: State, b: State, space: nat, k: nat) {
    && a.rc == b.rc && a.ram == b.ram && a.reserved == b.reserved && a.rc.Keys == s.rc.Keys
    && a.free == b.free + KernelFrames(s, space, k)
    && (forall l: Loc :: l in a.leaves <==> l in b.leaves || (Supervisor(s, space, l) && l.page >= k))
    && (forall l :: l in b.leaves ==> !Supervisor(s, space, l) && a.leaves[l] == b.leaves[l])
    && (forall l: Loc :: Supervisor(s, space, l) && l.page >= k ==> a.leaves[l] == s.leaves[l])
  }

  predicate Supervisor(s: State, space: nat, l: Loc) { l in s.leaves && l.space == space && !s.leaves[l].user }

  // The step of the loop at a supervisor page, and at any other.
  lemma KernelPageStep(s: State, a: State, b: State, space: nat, k: nat)
    requires WithKernel(s, a, b, space, k) && Supervisor(s, space, Loc(space, k)) && KernelWord(s.leaves[Loc(space, k)])
    ensures WithKernel(s, DropLeaf(a, Loc(space, k)), DropLeaf(b, Loc(space, k)), space, k + 1)
  {
    var l := Loc(space, k);
    var w := s.leaves[l];
    assert KernelFrames(s, space, k + 1) == KernelFrames(s, space, k) + if w.frame in s.rc then {w.frame} else {};
    assert DropLeaf(b, l) == b && DropLeaf(a, l) == Release(a.(leaves := a.leaves - {l}), w.frame);
  }

  lemma OtherPageStep(s: State, a: State, b: State, space: nat, k: nat)
    requires WithKernel(s, a, b, space, k) && !Supervisor(s, space, Loc(space, k))
    ensures WithKernel(s, DropLeaf(a, Loc(space, k)), DropLeaf(b, Loc(space, k)), space, k + 1)
  {
    var l := Loc(space, k);
    assert KernelFrames(s, space, k + 1) == KernelFrames(s, space, k);
    SameDrop(a, b, l, KernelFrames(s, space, k));
  }

  // Dropping a leaf does not depend on the others, nor on what is free.
  lemma SameDrop(a: State, b: State, l: Loc, more: set<nat>)
    requires a.rc == b.rc && a.ram == b.ram && a.reserved == b.reserved && a.free == b.free + more
    requires (l in a.leaves <==> l in b.leaves) && (l in a.leaves ==> a.leaves[l] == b.leaves[l])
    ensures var a', b' := DropLeaf(a, l), DropLeaf(b, l);
            && a'.rc == b'.rc && a'.ram == b'.ram && a'.reserved == b'.reserved && a'.free == b'.free + more
            && a'.rc.Keys == a.rc.Keys
            && (l in a.leaves && a.leaves[l].present ==> a'.leaves == a.leaves - {l} && b'.leaves == b.leaves - {l})
            && (l !in a.leaves || !a.leaves[l].present ==> a' == a && b' == b)
  {
    hide DropLeaf;
    DropIs(a, l);
    DropIs(b, l);
  }

  // What a dropped leaf does to the counts, and what it gives back.
  function CountsAfter(rc: map<nat, nat>, w: Word): map<nat, nat> {
    if w.cow && w.frame in rc then rc[w.frame := Dec(rc[w.frame])] else rc
  }

  function GivenBack(rc: map<nat, nat>, w: Word): set<nat> {
    if w.frame in rc && (w.cow ==> rc[w.frame] == 0) then {w.frame} else {}
  }

  lemma DropIs(s: State, l: Loc)
    ensures DropLeaf(s, l) ==
            if l !in s.leaves || !s.leaves[l].present then s
            else s.(leaves := s.leaves - {l}, rc := CountsAfter(s.rc, s.leaves[l]),
                    free := s.free + GivenBack(s.rc, s.leaves[l]))
  {
  }

  lemma {:induction false} DropStripped(s: State, space: nat, k: nat)
    requires forall l :: l in s.leaves ==> s.leaves[l].present && (s.leaves[l].cow ==> s.leaves[l].user)
    ensures WithKernel(s, DropUpTo(s, space, k), DropUpTo(Stripped(s, space), space, k), space, k)
  {
    hide WithKernel, DropLeaf;
    if k == 0 {
      StrippedStarts(s, space);
    } else {
      DropStripped(s, space, k - 1);
      var a, b := DropUpTo(s, space, k - 1), DropUpTo(Stripped(s, space), space, k - 1);
      if Supervisor(s, space, Loc(space, k - 1)) {
        KernelPageStep(s, a, b, space, k - 1);
      } else {
        OtherPageStep(s, a, b, space, k - 1);
      }
    }
  }

  lemma StrippedStarts(s: State, space: nat)
    ensures WithKernel(s, s, Stripped(s, space), space, 0)
  {
  }

  // No supervisor page of the space is on a frame that is the kernel's or of a user page elsewhere.
  ghost predicate Harmless(s: State, space: nat) {
    forall l :: Supervisor(s, space, l) && s.leaves[l].frame in s.rc ==>
      s.leaves[l].frame !in s.reserved && OnlyIn(s, space, s.leaves[l].frame)
  }

  ghost predicate OnlyIn(s: State, space: nat, f: nat) {
    forall k :: IsUser(s, k) && s.leaves[k].frame == f ==> k.space == space
  }

  // The state after the teardown, by way of the space without supervisor pages.
  lemma Torn(s: State, space: nat)
    requires Inv(s)
    ensures var b := DropUpTo(Stripped(s, space), space, USER_PAGES);
            && Inv(b) && DropUpTo(s, space, USER_PAGES) == b.(free := b.free + KernelFrames(s, space, USER_PAGES))
            && View(b) == (map l | l in View(s) && l.space != space :: View(s)[l])
            && (forall f :: f in s.rc ==> (f in b.free <==> f !in s.reserved && OnlyIn(s, space, f)))
            && b.rc.Keys == s.rc.Keys && b.reserved == s.reserved
  {
    hide Inv, View, Count, DropUpTo, OnlyIn, WithKernel, Stripped, KernelFrames;
    var s0 := Stripped(s, space);
    var a, b := DropUpTo(s, space, USER_PAGES), DropUpTo(s0, space, USER_PAGES);
    AllPresent(s);
    StrippedKeeps(s, space);
    StrippedIs(s, space);
    DropKeeps(s0, space, USER_PAGES);
    DropStripped(s, space, USER_PAGES);
    DropFrames(s0, space, USER_PAGES);
    Joined(s, a, b, space);
    ViewBelow(s, space);
    forall f | f in s.rc ensures f in b.free <==> f !in s.reserved && OnlyIn(s, space, f) {
      FrameAt(b, f);
      TornCount(s, b, space, f);
    }
  }

  lemma StrippedIs(s: State, space: nat)
    ensures forall l :: l in Stripped(s, space).leaves ==> l in s.leaves && Stripped(s, space).leaves[l] == s.leaves[l]
    ensures forall l :: l in Stripped(s, space).leaves && l.space == space ==> Stripped(s, space).leaves[l].user
    ensures Stripped(s, space).rc == s.rc && Stripped(s, space).reserved == s.reserved
  {
  }

  lemma FrameAt(s: State, f: nat)
    requires Inv(s) && f in s.rc
    ensures f in s.free <==> f !in s.reserved && Count(s, f) == 0
  {
    assert FrameOk(s, f);
  }

  lemma AllPresent(s: State)
    requires Inv(s)
    ensures forall l :: l in s.leaves ==>
              s.leaves[l].present && (s.leaves[l].cow ==> s.leaves[l].user) && l.page < USER_PAGES
  {
    hide Count;
    forall l | l in s.leaves ensures LeafOk(s, l) {}
  }

  lemma ViewBelow(s: State, space: nat)
    requires Inv(s)
    ensures (map l | l in View(s) && !(l.space == space && l.page < USER_PAGES) :: View(s)[l])
            == map l | l in View(s) && l.space != space :: View(s)[l]
  {
    hide Count;
    forall l | l in View(s) ensures l.page < USER_PAGES { assert LeafOk(s, l); }
  }

  lemma Joined(s: State, a: State, b: State, space: nat)
    requires WithKernel(s, a, b, space, USER_PAGES) && forall l :: l in s.leaves ==> l.page < USER_PAGES
    ensures a == b.(free := b.free + KernelFrames(s, space, USER_PAGES))
  {
    hide KernelFrames;
    assert a.leaves == b.leaves;
  }

  lemma TornCount(s: State, b: State, space: nat, f: nat)
    requires Inv(s) && Inv(b) && View(b).Keys == set l | l in View(s) && l.space != space
    requires forall l :: l in b.leaves ==> l in s.leaves && b.leaves[l] == s.leaves[l]
    ensures Count(b, f) == 0 <==> OnlyIn(s, space, f)
  {
    forall l ensures l in Mappers(b.leaves, f) <==> IsUser(s, l) && s.leaves[l].frame == f && l.space != space {
      assert l in View(b) <==> IsUser(b, l);
      assert l in View(s) <==> IsUser(s, l);
    }
    if OnlyIn(s, space, f) {
      assert Mappers(b.leaves, f) == {};
    } else {
      var k :| IsUser(s, k) && s.leaves[k].frame == f && k.space != space;
      assert k in Mappers(b.leaves, f);
    }
  }

  /** Tearing a space down keeps the invariant exactly if no supervisor page of it is on a frame of the kernel or of a
      user page of another space: the frames under supervisor pages are given back like those of user pages. */
  lemma ExitKeepsIff(s: State, space: nat)
    requires Inv(s)
    ensures Inv(DropUpTo(s, space, USER_PAGES)) <==> Harmless(s, space)
    ensures Harmless(s, space) ==>
              View(DropUpTo(s, space, USER_PAGES)) == map l | l in View(s) && l.space != space :: View(s)[l]
  {
    hide Inv, View, DropUpTo, OnlyIn;
    Torn(s, space);
    var a, b := DropUpTo(s, space, USER_PAGES), DropUpTo(Stripped(s, space), space, USER_PAGES);
    FreeDecides(b, a);
    AllPresent(s);
    assert KernelFrames(s, space, USER_PAGES) <= b.free <==> Harmless(s, space) by {
      forall l | Supervisor(s, space, l) && s.leaves[l].frame in s.rc
        ensures s.leaves[l].frame in KernelFrames(s, space, USER_PAGES) {}
    }
    if Harmless(s, space) { assert a == b; }
  }

  // The free frames are determined by the rest of the state.
  lemma FreeDecides(s: State, s': State)
    requires Inv(s) && s' == s.(free := s'.free) && s.free <= s'.free && s'.free - s.free <= s.rc.Keys
    ensures Inv(s') <==> s'.free <= s.free
  {
    hide Count;
    assert s'.free <= s.free ==> s' == s;
    if Inv(s') {
      forall f | f in s'.free ensures f in s.free {
        assert FrameOk(s', f) && FrameOk(s, f);
        CountSame(s, s', f);
      }
    }
  }

  /** A space with one supervisor page, on a frame of the kernel: after its teardown that frame is free. */
  lemma KernelFrameFreed(f: nat)
    ensures var w := ZERO.(frame := f, present := true, write := true);
            var s := State(map[Loc(1, 0) := w], map[f := 0], {}, map[], {f});
            Inv(s) && !Harmless(s, 1) && f in DropUpTo(s, 1, USER_PAGES).free
  {
    var w := ZERO.(frame := f, present := true, write := true);
    var s := State(map[Loc(1, 0) := w], map[f := 0], {}, map[], {f});
    assert Mappers(s.leaves, f) == {};
    assert Supervisor(s, 1, Loc(1, 0));
    Torn(s, 1);
    assert f in KernelFrames(s, 1, USER_PAGES);
  }

  // ---------------------------------------------------------------- runs

  datatype Op =
    | Clone(space: nat, words: map<nat, Word>)                      // a new space with the kernel's pages
    | New(l: Loc, f: nat, zero: Page, write: bool, nx: bool)        // first touch of a lazily mapped page
    | Fork(src: nat, dst: nat, pages: nat)
    | Resolve(l: Loc, spare: Option<nat>)    // cow_resolve_page
    | Put(l: Loc, page: Page)                // a store the hardware lets through
    | Exit(space: nat)

  ghost predicate Enabled(s: State, op: Op) {
    match op
    case Clone(space, words) => && (forall l :: l in s.leaves ==> l.space != space)
                                && forall p :: p in words ==> p < USER_PAGES && KernelWord(words[p])
    case New(l, f, _, _, _) => !IsUser(s, l) && l.page < USER_PAGES && f in s.free
    case Fork(src, dst, pages) => src != dst && Unused(s, dst) && AllWritable(s, src) && pages <= USER_PAGES
    case Resolve(l, f) =>
      && l in s.leaves && s.leaves[l].cow && s.leaves[l].frame in s.ram
      && (Refs(s, s.leaves[l].frame) == 0 || (f.Some? && f.value in s.free))
    case Put(l, _) => IsUser(s, l) && s.leaves[l].write
    case Exit(space) => Harmless(s, space)
  }

  predicate KernelWord(w: Word) { w.present && !w.user && !w.cow }

  function Cloned(s: State, space: nat, words: map<nat, Word>): State {
    s.(leaves := s.leaves + map p | p in words :: Loc(space, p) := words[p])
  }

  ghost function Step(s: State, op: Op): State
    requires Enabled(s, op)
  {
    match op
    case Clone(space, words) => Cloned(s, space, words)
    case New(l, f, zero, write, nx) => NewPage(s, l, f, zero, write, nx)
    case Fork(src, dst, pages) => CopyUpTo(s, src, dst, pages)
    case Resolve(l, f) => Fault(s, l, f)
    case Put(l, page) => Store(s, l, page)
    case Exit(space) => DropUpTo(s, space, USER_PAGES)
  }

  ghost function Copies(v: map<Loc, Page>, src: nat, dst: nat, pages: nat): set<Loc> {
    set k | k in v && k.space == src && k.page < pages :: Loc(dst, k.page)
  }

  // The same operations on a machine where every space has its own copy of every page.
  ghost function PrivateStep(v: map<Loc, Page>, op: Op): map<Loc, Page> {
    match op
    case Clone(_, _) => v
    case New(l, _, zero, _, _) => v[l := zero]
    case Fork(src, dst, pages) =>
      v + map l: Loc | l in Copies(v, src, dst, pages) && Loc(src, l.page) in v :: v[Loc(src, l.page)]
    case Resolve(_, _) => v
    case Put(l, page) => v[l := page]
    case Exit(space) => map l | l in v && l.space != space :: v[l]
  }

  lemma StepRefines(s: State, op: Op)
    requires Inv(s) && Enabled(s, op)
    ensures Inv(Step(s, op)) && View(Step(s, op)) == PrivateStep(View(s), op)
  {
    hide Count, Harmless;
    match op
    case Clone(space, words) => CloneKeeps(s, space, words);
    case New(l, f, zero, write, nx) => NewPageKeeps(s, l, f, zero, write, nx);
    case Fork(src, dst, pages) => ForkRefines(s, src, dst, pages);
    case Resolve(l, f) => FaultKeeps(s, l, f); FaultView(s, l, f);
    case Put(l, page) => StoreKeeps(s, l, page);
    case Exit(space) => ExitKeepsIff(s, space);
  }

  lemma CloneKeeps(s: State, space: nat, words: map<nat, Word>)
    requires Inv(s) && Enabled(s, Clone(space, words))
    ensures Inv(Cloned(s, space, words)) && View(Cloned(s, space, words)) == View(s)
  {
    hide Cloned, Count;
    var s' := Cloned(s, space, words);
    ClonedLeaves(s, space, words);
    forall f ensures Count(s', f) == Count(s, f) { ClonedCount(s, s', f); }
    forall l | l in s'.leaves ensures LeafOk(s', l) {
      if l in s.leaves { assert LeafOk(s, l); }
    }
    forall f | f in s'.rc ensures FrameOk(s', f) { assert FrameOk(s, f); }
  }

  lemma ClonedCount(s: State, s': State, f: nat)
    requires forall l :: l in s.leaves ==> l in s'.leaves && s'.leaves[l] == s.leaves[l]
    requires forall l :: l in s'.leaves && l !in s.leaves ==> !s'.leaves[l].user
    ensures Count(s', f) == Count(s, f)
  {
    assert Mappers(s'.leaves, f) == Mappers(s.leaves, f);
  }

  lemma ClonedLeaves(s: State, space: nat, words: map<nat, Word>)
    requires Enabled(s, Clone(space, words))
    ensures var s' := Cloned(s, space, words);
            && s' == s.(leaves := s'.leaves)
            && (forall l :: l in s.leaves ==> l in s'.leaves && s'.leaves[l] == s.leaves[l])
            && forall l :: l in s'.leaves && l !in s.leaves ==> l.page < USER_PAGES && KernelWord(s'.leaves[l])
  {
  }

  lemma ForkedIsPrivate(v: map<Loc, Page>, v': map<Loc, Page>, src: nat, dst: nat, pages: nat)
    requires ForkedView(v, v', src, dst, pages)
    requires forall l :: l in v ==> l.space != dst
    ensures v' == PrivateStep(v, Fork(src, dst, pages))
  {
    var w := PrivateStep(v, Fork(src, dst, pages));
    forall l: Loc ensures (l in v' <==> l in w) && (l in w ==> v'[l] == w[l]) {
    }
  }

  lemma ForkRefines(s: State, src: nat, dst: nat, pages: nat)
    requires Inv(s) && src != dst && Unused(s, dst) && AllWritable(s, src) && pages <= USER_PAGES
    ensures Inv(CopyUpTo(s, src, dst, pages))
    ensures View(CopyUpTo(s, src, dst, pages)) == PrivateStep(View(s), Fork(src, dst, pages))
  {
    hide ForkedView, PrivateStep, Ahead;
    ForkKeeps(s, src, dst, pages);
    ForkedIsPrivate(View(s), View(CopyUpTo(s, src, dst, pages)), src, dst, pages);
  }

  ghost function Exec(s: State, ops: seq<Op>): Option<State>
    requires Inv(s)
    decreases |ops|
  {
    if ops == [] then Some(s)
    else if !Enabled(s, ops[0]) then None
    else (StepRefines(s, ops[0]); Exec(Step(s, ops[0]), ops[1..]))
  }

  ghost function PrivateExec(v: map<Loc, Page>, ops: seq<Op>): map<Loc, Page>
    decreases |ops|
  {
    if ops == [] then v else PrivateExec(PrivateStep(v, ops[0]), ops[1..])
  }

  /** Over every run, sharing pages copy-on-write is indistinguishable from copying them: no space ever sees
      what another writes. */
  lemma {:induction false} SharingIsInvisible(s: State, ops: seq<Op>)
    requires Inv(s) && Exec(s, ops).Some?
    ensures Inv(Exec(s, ops).value) && View(Exec(s, ops).value) == PrivateExec(View(s), ops)
    decreases |ops|
  {
    if ops == [] {
    } else {
      StepRefines(s, ops[0]);
      SharingIsInvisible(Step(s, ops[0]), ops[1..]);
    }
  }

  // No operation creates or destroys a frame, or takes one from the kernel.
  ghost predicate SameFrames(s: State, s': State) { s'.rc.Keys == s.rc.Keys && s'.reserved == s.reserved }

  lemma {:induction false} CopyFrames(s: State, src: nat, dst: nat, k: nat)
    ensures SameFrames(s, CopyUpTo(s, src, dst, k))
  {
    if k == 0 {
    } else {
      CopyFrames(s, src, dst, k - 1);
    }
  }

  lemma {:induction false} DropFrames(s: State, space: nat, k: nat)
    ensures SameFrames(s, DropUpTo(s, space, k))
  {
    if k == 0 {
    } else {
      DropFrames(s, space, k - 1);
    }
  }

  lemma StepFrames(s: State, op: Op)
    requires Inv(s) && Enabled(s, op)
    ensures SameFrames(s, Step(s, op))
  {
    match op
    case Clone(space, words) =>
    case New(l, f, zero, write, nx) =>
    case Fork(src, dst, pages) => CopyFrames(s, src, dst, pages);
    case Resolve(l, f) =>
    case Put(l, page) =>
    case Exit(space) => DropFrames(s, space, USER_PAGES);
  }

  lemma {:induction false} ExecFrames(s: State, ops: seq<Op>)
    requires Inv(s) && Exec(s, ops).Some?
    ensures SameFrames(s, Exec(s, ops).value)
    decreases |ops|
  {
    if ops == [] {
    } else {
      StepRefines(s, ops[0]);
      StepFrames(s, ops[0]);
      ExecFrames(Step(s, ops[0]), ops[1..]);
    }
  }

  lemma UnmappedFree(s: State)
    requires Inv(s) && forall l :: l in s.leaves ==> !s.leaves[l].user
    ensures s.free == s.rc.Keys - s.reserved
  {
    forall f | f in s.rc ensures f in s.free <==> f !in s.reserved {
      assert FrameOk(s, f) && Mappers(s.leaves, f) == {};
    }
  }

  /** Nothing leaks: after any run that ends with no user page mapped, exactly the frames that were never the kernel's
      are free, and if none was mapped at the start, exactly those that were free then. */
  lemma AllFramesComeBack(s: State, ops: seq<Op>)
    requires Inv(s) && Exec(s, ops).Some? && NoUser(Exec(s, ops).value)
    ensures Exec(s, ops).value.free == s.rc.Keys - s.reserved
    ensures NoUser(s) ==> Exec(s, ops).value.free == s.free
  {
    hide Inv;
    SharingIsInvisible(s, ops);
    ExecFrames(s, ops);
    UnmappedFree(Exec(s, ops).value);
    if NoUser(s) { UnmappedFree(s); }
  }

  predicate NoUser(s: State) { forall l :: l in s.leaves ==> !s.leaves[l].user }
}
