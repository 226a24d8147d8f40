/** Moving pages to numbered disk slots and back (kernel/src/mm/swap.rs). As in Cow, the page tables are a map
    from (space, page) to leaf word; the swap disk is a map from slot to page. */
module Swap {
  import opened Wrappers
  import opened Paging

  /** `slots` says which page occupies each slot in use, `users` which page sits on each mapped frame; the kernel
      keeps only the key set of the one (its bitmap) and nothing of the other. */
  datatype State = State(leaves: map<Loc, Word>, slots: map<nat, Loc>, users: map<nat, Loc>, disk: map<nat, Page>,
                         ram: map<nat, Page>, free: set<nat>)

  const MAX_SWAP_SLOTS: nat := 4096

  // ---------------------------------------------------------------- the word that names a slot

  // swap_slot_to_pte(slot) | (old_pte & 0xFF0): the marker, the slot and bits 4..11; all other bits are dropped.
  function SwapWord(w: Word, slot: nat): Word {
    ZERO.(frame := slot % 0x10_0000, swapped := true, huge := w.huge, cow := w.cow, attrs := w.attrs)
  }

  predicate IsSwap(w: Word) { !w.present && w.swapped }

  function SlotOf(w: Word): nat { w.frame % 0x10_0000 }

  // `phys | ((pte & 0xFF0) & !SWAP_PTE_MARKER) | 1`
  function BackWord(w: Word, frame: nat): Word {
    ZERO.(frame := frame, present := true, huge := w.huge, cow := w.cow, attrs := w.attrs)
  }

  /** A page comes back with the entry it left with, its new frame apart, exactly if that entry had none of the write,
      user, write-through, no-execute and software bits: only bits 4 to 11 make the trip, and bit 10 is the marker. */
  lemma EntryRestoredIff(w: Word, slot: nat, frame: nat)
    requires w.present
    ensures BackWord(SwapWord(w, slot), frame) == w.(frame := frame)
            <==> !w.write && !w.user && !w.through && !w.swapped && !w.nx && w.avail == 0
  {
    var b, want := BackWord(SwapWord(w, slot), frame), w.(frame := frame);
    assert b == Word(frame, true, false, false, false, w.huge, w.cow, false, false, w.attrs, 0);
    assert want == Word(frame, true, w.write, w.user, w.through, w.huge, w.cow, w.swapped, w.nx, w.attrs, w.avail);
  }

  lemma SwapNotPresent(w: Word)
    requires IsSwap(w)
    ensures !w.present
  {
  }

  // ---------------------------------------------------------------- steps

  function Evict(s: State, l: Loc, slot: nat): State
    requires l in s.leaves && s.leaves[l].frame in s.ram
  {
    var w := s.leaves[l];
    s.(leaves := s.leaves[l := SwapWord(w, slot)], slots := s.slots[slot := l], users := s.users - {w.frame},
       disk := s.disk[slot := s.ram[w.frame]], free := s.free + {w.frame})
  }

  function SwapIn(s: State, l: Loc, frame: nat): State
    requires l in s.leaves && SlotOf(s.leaves[l]) in s.disk
  {
    var w := s.leaves[l];
    s.(leaves := s.leaves[l := BackWord(w, frame)], slots := s.slots - {SlotOf(w)}, users := s.users[frame := l],
       ram := s.ram[frame := s.disk[SlotOf(w)]], free := s.free - {frame})
  }

  function Store(s: State, l: Loc, page: Page): State
    requires l in s.leaves
  {
    s.(ram := s.ram[s.leaves[l].frame := page])
  }

  // ---------------------------------------------------------------- invariant

  /** A page is in memory, alone on a frame that is not free, or on disk, alone in a slot in use; and every slot
      in use is named by the one page it holds. */
  ghost predicate Inv(s: State) {
    && (forall l :: l in s.leaves ==> LeafOk(s, l))
    && (forall slot :: slot in s.slots ==> SlotOk(s, slot))
    && (forall f :: f in s.users ==> UserOk(s, f))
  }

  ghost predicate LeafOk(s: State, l: Loc)
    requires l in s.leaves
  {
    var w := s.leaves[l];
    if w.present then w.frame in s.ram && w.frame in s.users && s.users[w.frame] == l
    else IsSwap(w) && SlotOf(w) in s.disk && SlotOf(w) in s.slots && s.slots[SlotOf(w)] == l
  }

  ghost predicate SlotOk(s: State, slot: nat)
    requires slot in s.slots
  {
    var l := s.slots[slot];
    slot < MAX_SWAP_SLOTS && l in s.leaves && !s.leaves[l].present && SlotOf(s.leaves[l]) == slot
  }

  ghost predicate UserOk(s: State, f: nat)
    requires f in s.users
  {
    var l := s.users[f];
    f !in s.free && l in s.leaves && s.leaves[l].present && s.leaves[l].frame == f
  }

  // The bytes of a page, wherever they are.
  function PageAt(s: State, w: Word): Page {
    if w.present then (if w.frame in s.ram then s.ram[w.frame] else [])
    else if SlotOf(w) in s.disk then s.disk[SlotOf(w)] else []
  }

  function View(s: State): map<Loc, Page> { map l | l in s.leaves :: PageAt(s, s.leaves[l]) }

  lemma SameView(s: State, s': State)
    requires s'.leaves.Keys == s.leaves.Keys
    requires forall l :: l in s.leaves ==> PageAt(s', s'.leaves[l]) == PageAt(s, s.leaves[l])
    ensures View(s') == View(s)
  {
    hide PageAt;
  }

  lemma EvictLeaf(s: State, l: Loc, slot: nat, k: Loc)
    requires l in s.leaves && s.leaves[l].present && LeafOk(s, l) && slot !in s.slots && slot < MAX_SWAP_SLOTS
    requires k in s.leaves && LeafOk(s, k)
    ensures var s' := Evict(s, l, slot); LeafOk(s', k) && PageAt(s', s'.leaves[k]) == PageAt(s, s.leaves[k])
  {
  }

  lemma EvictKeeps(s: State, l: Loc, slot: nat)
    requires Inv(s) && l in s.leaves && s.leaves[l].present && slot !in s.slots && slot < MAX_SWAP_SLOTS
    ensures s.leaves[l].frame in s.ram && Inv(Evict(s, l, slot)) && View(Evict(s, l, slot)) == View(s)
  {
    hide PageAt, View;
    assert LeafOk(s, l);
    var s' := Evict(s, l, slot);
    forall k | k in s'.leaves ensures LeafOk(s', k) && PageAt(s', s'.leaves[k]) == PageAt(s, s.leaves[k]) {
      EvictLeaf(s, l, slot, k);
    }
    forall t | t in s'.slots ensures SlotOk(s', t) { assert t != slot ==> SlotOk(s, t); }
    forall f | f in s'.users ensures UserOk(s', f) { assert UserOk(s, f); }
    SameView(s, s');
  }

  lemma SwapInLeaf(s: State, l: Loc, frame: nat, k: Loc)
    requires l in s.leaves && IsSwap(s.leaves[l]) && LeafOk(s, l) && frame !in s.users
    requires k in s.leaves && LeafOk(s, k)
    ensures var s' := SwapIn(s, l, frame); LeafOk(s', k) && PageAt(s', s'.leaves[k]) == PageAt(s, s.leaves[k])
  {
    hide SlotOf;
  }

  lemma SwapInKeeps(s: State, l: Loc, frame: nat)
    requires Inv(s) && l in s.leaves && IsSwap(s.leaves[l]) && frame in s.free
    ensures SlotOf(s.leaves[l]) in s.disk && Inv(SwapIn(s, l, frame)) && View(SwapIn(s, l, frame)) == View(s)
  {
    hide PageAt, View, SlotOf;
    assert LeafOk(s, l);
    assert frame in s.users ==> UserOk(s, frame);
    var s' := SwapIn(s, l, frame);
    forall k | k in s'.leaves ensures LeafOk(s', k) && PageAt(s', s'.leaves[k]) == PageAt(s, s.leaves[k]) {
      SwapInLeaf(s, l, frame, k);
    }
    forall t | t in s'.slots ensures SlotOk(s', t) { assert SlotOk(s, t); }
    forall f | f in s'.users ensures UserOk(s', f) { assert f != frame ==> UserOk(s, f); }
    SameView(s, s');
  }

  lemma StoreKeeps(s: State, l: Loc, page: Page)
    requires Inv(s) && l in s.leaves && s.leaves[l].present
    ensures Inv(Store(s, l, page)) && View(Store(s, l, page)) == View(s)[l := page]
  {
    hide SlotOf;
    var s' := Store(s, l, page);
    assert LeafOk(s, l);
    forall k | k in s'.leaves ensures LeafOk(s', k) { assert LeafOk(s, k); }
    forall t | t in s'.slots ensures SlotOk(s', t) { assert SlotOk(s, t); }
    forall f | f in s'.users ensures UserOk(s', f) { assert UserOk(s, f); }
  }

  // What the invariant says about one page.
  lemma Held(s: State, l: Loc)
    requires Inv(s) && l in s.leaves
    ensures var w := s.leaves[l];
            if w.present then w.frame in s.ram && w.frame in s.users
            else IsSwap(w) && SlotOf(w) in s.disk && SlotOf(w) in s.slots
  {
    assert LeafOk(s, l);
  }

  // What a free frame holds is nobody's page.
  lemma ScratchFrame(s: State, frame: nat, page: Page)
    requires Inv(s) && frame in s.free
    ensures var s' := s.(ram := s.ram[frame := page]); Inv(s') && View(s') == View(s)
  {
    hide SlotOf;
    var s' := s.(ram := s.ram[frame := page]);
    assert frame in s.users ==> UserOk(s, frame);
    forall k | k in s'.leaves
      ensures LeafOk(s', k) && PageAt(s', s'.leaves[k]) == PageAt(s, s.leaves[k]) { assert LeafOk(s, k); }
    forall t | t in s'.slots ensures SlotOk(s', t) { assert SlotOk(s, t); }
    forall f | f in s'.users ensures UserOk(s', f) { assert UserOk(s, f); }
    SameView(s, s');
  }

  // ---------------------------------------------------------------- runs

  datatype Op = PageOut(l: Loc, slot: nat) | PageIn(l: Loc, frame: nat) | Put(l: Loc, page: Page)

  predicate Enabled(s: State, op: Op) {
    match op
    case PageOut(l, slot) => l in s.leaves && s.leaves[l].present && slot !in s.slots && slot < MAX_SWAP_SLOTS
    case PageIn(l, frame) => l in s.leaves && IsSwap(s.leaves[l]) && frame in s.free
    case Put(l, _) => l in s.leaves && s.leaves[l].present
  }

  ghost function Step(s: State, op: Op): State
    requires Inv(s) && Enabled(s, op)
  {
    match op
    case PageOut(l, slot) => EvictKeeps(s, l, slot); Evict(s, l, slot)
    case PageIn(l, frame) => SwapInKeeps(s, l, frame); SwapIn(s, l, frame)
    case Put(l, page) => Store(s, l, page)
  }

  // Only stores change what a page holds.
  function Stored(v: map<Loc, Page>, op: Op): map<Loc, Page> { if op.Put? then v[op.l := op.page] else v }

  lemma StepKeeps(s: State, op: Op)
    requires Inv(s) && Enabled(s, op)
    ensures Inv(Step(s, op)) && View(Step(s, op)) == Stored(View(s), op)
  {
    hide Inv, View;
    match op
    case PageOut(l, slot) => EvictKeeps(s, l, slot);
    case PageIn(l, frame) => SwapInKeeps(s, l, frame);
    case Put(l, page) => StoreKeeps(s, l, page);
  }

  ghost function Exec(s: State, ops: seq<Op>): Option<State>
    requires Inv(s)
    decreases |ops|
  {
    if ops == [] then Some(s)
    else if !Enabled(s, ops[0]) then None
    else (StepKeeps(s, ops[0]); Exec(Step(s, ops[0]), ops[1..]))
  }

  function StoresOnly(v: map<Loc, Page>, ops: seq<Op>): map<Loc, Page>
    decreases |ops|
  {
    if ops == [] then v else StoresOnly(Stored(v, ops[0]), ops[1..])
  }

  /** Over every interleaving of evictions, swap-in faults and stores, each page reads as if it had never left
      memory. */
  lemma {:induction false} SwappingIsInvisible(s: State, ops: seq<Op>)
    requires Inv(s) && Exec(s, ops).Some?
    ensures Inv(Exec(s, ops).value) && View(Exec(s, ops).value) == StoresOnly(View(s), ops)
    decreases |ops|
  {
    hide Inv, View, Step, Enabled, Stored;
    if ops == [] {
    } else {
      StepKeeps(s, ops[0]);
      SwappingIsInvisible(Step(s, ops[0]), ops[1..]);
    }
  }

  ghost predicate NamesSlot(s: State, l: Loc, slot: nat) {
    l in s.leaves && !s.leaves[l].present && SlotOf(s.leaves[l]) == slot
  }

  // A slot is in use exactly if a swap word names it, and then only one does.
  lemma SlotsAreNamedOnce(s: State, slot: nat)
    requires Inv(s)
    ensures slot in s.slots <==> exists l :: NamesSlot(s, l, slot)
    ensures forall k, l :: NamesSlot(s, k, slot) && NamesSlot(s, l, slot) ==> k == l
  {
    hide SlotOf;
    if slot in s.slots { assert SlotOk(s, slot); assert NamesSlot(s, s.slots[slot], slot); }
    forall l | NamesSlot(s, l, slot) ensures slot in s.slots && s.slots[slot] == l { assert LeafOk(s, l); }
  }
}
