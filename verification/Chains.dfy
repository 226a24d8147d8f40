/** Singly linked lists in raw memory: cells at addresses, 0 the null pointer. The kernel's range list, its
    scheduler queues and its heap's block list are all lists of this kind. */
module Chains {
  datatype Cell<T> = Cell(val: T, next: nat)

  // Following `next` from p visits exactly the cells ps, all different, and arrives at q.
  predicate Seg<T>(h: map<nat, Cell<T>>, p: nat, ps: seq<nat>, q: nat)
    decreases |ps|
  {
    if ps == [] then p == q
    else p == ps[0] && p != 0 && p in h && p !in ps[1..] && Seg(h, h[p].next, ps[1..], q)
  }

  predicate In<T>(h: map<nat, Cell<T>>, ps: seq<nat>) { forall i :: 0 <= i < |ps| ==> ps[i] in h }

  function Vals<T>(h: map<nat, Cell<T>>, ps: seq<nat>): (vs: seq<T>)
    requires In(h, ps)
    ensures |vs| == |ps| && forall i :: 0 <= i < |ps| ==> vs[i] == h[ps[i]].val
  {
    seq(|ps|, i requires 0 <= i < |ps| => h[ps[i]].val)
  }

  lemma {:induction false} SegIn<T>(h: map<nat, Cell<T>>, p: nat, ps: seq<nat>, q: nat)
    requires Seg(h, p, ps, q)
    ensures In(h, ps) && 0 !in ps
    ensures forall i, j :: 0 <= i < j < |ps| ==> ps[i] != ps[j]
    decreases |ps|
  {
    if ps == [] {
    } else {
      SegIn(h, h[p].next, ps[1..], q);
    }
  }

  // Memory elsewhere does not matter.
  lemma {:induction false} SegFrame<T>(h: map<nat, Cell<T>>, h': map<nat, Cell<T>>, p: nat, ps: seq<nat>, q: nat)
    requires Seg(h, p, ps, q) && forall x :: x in ps ==> x in h ==> x in h' && h'[x].next == h[x].next
    ensures Seg(h', p, ps, q)
    decreases |ps|
  {
    if ps == [] {
    } else {
      SegFrame(h, h', h[p].next, ps[1..], q);
    }
  }

  lemma {:induction false} SegJoin<T>(h: map<nat, Cell<T>>, p: nat, ps: seq<nat>, q: nat, qs: seq<nat>, r: nat)
    requires Seg(h, p, ps, q) && Seg(h, q, qs, r) && forall x :: x in ps ==> x !in qs
    ensures Seg(h, p, ps + qs, r)
    decreases |ps|
  {
    if ps == [] {
      assert ps + qs == qs;
    } else {
      SegJoin(h, h[p].next, ps[1..], q, qs, r);
      assert (ps + qs)[1..] == ps[1..] + qs;
    }
  }

  lemma SegSnoc<T>(h: map<nat, Cell<T>>, p: nat, ps: seq<nat>, q: nat)
    requires Seg(h, p, ps, q) && q != 0 && q in h && q !in ps
    ensures Seg(h, p, ps + [q], h[q].next)
  {
    assert Seg(h, q, [q], h[q].next);
    SegJoin(h, p, ps, q, [q], h[q].next);
  }

  // Pointing the last cell elsewhere redirects the segment.
  lemma {:induction false} SegRelink<T>(h: map<nat, Cell<T>>, h': map<nat, Cell<T>>, p: nat, ps: seq<nat>, q: nat,
                                        q': nat)
    requires Seg(h, p, ps, q) && ps != []
    requires forall x :: x in ps && x != ps[|ps| - 1] && x in h ==> x in h' && h'[x].next == h[x].next
    requires ps[|ps| - 1] in h' && h'[ps[|ps| - 1]].next == q'
    ensures Seg(h', p, ps, q')
    decreases |ps|
  {
    if |ps| > 1 {
      SegIn(h, p, ps, q);
      assert ps[1..][|ps[1..]| - 1] == ps[|ps| - 1];
      SegRelink(h, h', h[p].next, ps[1..], q, q');
    }
  }

  lemma {:induction false} SegSplit<T>(h: map<nat, Cell<T>>, p: nat, ps: seq<nat>, qs: seq<nat>, r: nat)
    returns (q: nat)
    requires Seg(h, p, ps + qs, r)
    ensures Seg(h, p, ps, q) && Seg(h, q, qs, r) && (forall x :: x in ps ==> x !in qs)
    decreases |ps|
  {
    if ps == [] {
      assert ps + qs == qs;
      q := p;
    } else {
      assert (ps + qs)[1..] == ps[1..] + qs;
      q := SegSplit(h, h[p].next, ps[1..], qs, r);
    }
  }

  lemma {:induction false} SegNext<T>(h: map<nat, Cell<T>>, p: nat, ps: seq<nat>, q: nat, j: nat)
    requires Seg(h, p, ps, q) && j < |ps|
    ensures ps[j] in h && h[ps[j]].next == if j + 1 < |ps| then ps[j + 1] else q
    decreases |ps|
  {
    if j == 0 {
    } else {
      SegNext(h, h[p].next, ps[1..], q, j - 1);
    }
  }

  lemma SegStart<T>(h: map<nat, Cell<T>>, p: nat, ps: seq<nat>, q: nat)
    requires Seg(h, p, ps, q)
    ensures p == if ps == [] then q else ps[0]
  {
  }

  // ---------------------------------------------------------------- walking a list

  // A list cut before cell q: the cells done, then the cells to come, in memory h.
  ghost predicate Cut<T>(h: map<nat, Cell<T>>, head: nat, done: seq<nat>, q: nat, rest: seq<nat>) {
    && Seg(h, head, done, q) && Seg(h, q, rest, 0) && In(h, done) && In(h, rest)
    && (forall x :: x in done ==> x !in rest)
  }

  function Last(done: seq<nat>): nat { if done == [] then 0 else done[|done| - 1] }

  lemma CutStart<T>(h: map<nat, Cell<T>>, head: nat, cells: seq<nat>)
    requires Seg(h, head, cells, 0)
    ensures Cut(h, head, [], head, cells)
  {
    SegIn(h, head, cells, 0);
  }

  lemma CutDone<T>(h: map<nat, Cell<T>>, head: nat, done: seq<nat>, q: nat, rest: seq<nat>)
    requires Cut(h, head, done, q, rest)
    ensures Seg(h, head, done + rest, 0) && In(h, done + rest) && Vals(h, done + rest) == Vals(h, done) + Vals(h, rest)
    ensures In(h, done) && In(h, rest) && (q == 0 <==> rest == [])
    ensures rest != [] ==> rest[0] == q && q in h && Vals(h, rest)[0] == h[q].val
  {
    SegJoin(h, head, done, q, rest, 0);
  }

  lemma LastIsNull<T>(h: map<nat, Cell<T>>, head: nat, done: seq<nat>, q: nat)
    requires Seg(h, head, done, q)
    ensures Last(done) == 0 <==> done == []
  {
    SegIn(h, head, done, q);
    assert done != [] ==> Last(done) in done;
  }

  // Stepping over a cell, whatever its value becomes.
  lemma CutAdvance<T>(h: map<nat, Cell<T>>, head: nat, done: seq<nat>, q: nat, rest: seq<nat>, v: T)
    requires Cut(h, head, done, q, rest) && q != 0 && q in h
    ensures var h' := h[q := h[q].(val := v)];
            && Cut(h', head, done + [q], h[q].next, rest[1..])
            && Vals(h', done + [q]) == Vals(h, done) + [v] && Vals(h', rest[1..]) == Vals(h, rest)[1..]
            && Last(done + [q]) == q
  {
    var h' := h[q := h[q].(val := v)];
    SegFrame(h, h', head, done, q);
    SegFrame(h, h', q, rest, 0);
    SegSnoc(h', head, done, q);
    SegIn(h', q, rest, 0);
  }

  // Unlinking and freeing a cell.
  lemma CutUnlink<T>(h: map<nat, Cell<T>>, head: nat, done: seq<nat>, q: nat, rest: seq<nat>)
    requires Cut(h, head, done, q, rest) && q != 0 && q in h
    ensures done != [] ==> Last(done) in h && Last(done) != q
    ensures var next := h[q].next;
            var h1 := if done != [] then h[Last(done) := h[Last(done)].(next := next)] else h;
            var h' := h1 - {q};
            && Cut(h', if done == [] then next else head, done, next, rest[1..])
            && Vals(h', done) == Vals(h, done) && Vals(h', rest[1..]) == Vals(h, rest)[1..]
  {
    var next := h[q].next;
    SegIn(h, head, done, q);
    SegIn(h, q, rest, 0);
    assert rest[0] == q && q in rest && (done != [] ==> Last(done) in done);
    assert forall x :: x in rest[1..] ==> x in rest && x != q;
    var h1 := if done != [] then h[Last(done) := h[Last(done)].(next := next)] else h;
    var h' := h1 - {q};
    if done != [] { SegRelink(h, h', head, done, q, next); }
    SegFrame(h, h', next, rest[1..], 0);
  }

  // Hanging a new cell between the cells done and the cells to come.
  lemma CutInsert<T>(h: map<nat, Cell<T>>, head: nat, done: seq<nat>, q: nat, rest: seq<nat>, node: nat, v: T)
    requires Cut(h, head, done, q, rest) && node != 0 && node !in done && node !in rest
    ensures done != [] ==> Last(done) in h && Last(done) != node
    ensures var h1 := h[node := Cell(v, q)];
            var h' := if done != [] then h1[Last(done) := h1[Last(done)].(next := node)] else h1;
            && Cut(h', if done == [] then node else head, done, node, [node] + rest)
            && Vals(h', done) == Vals(h, done) && Vals(h', [node] + rest) == [v] + Vals(h, rest)
  {
    SegIn(h, head, done, q);
    SegIn(h, q, rest, 0);
    assert done != [] ==> Last(done) in done;
    var h1 := h[node := Cell(v, q)];
    var h' := if done != [] then h1[Last(done) := h1[Last(done)].(next := node)] else h1;
    if done != [] { SegRelink(h, h', head, done, q, node); }
    Prepended(h, h', q, rest, node);
    CutIs(h', if done == [] then node else head, done, node, [node] + rest);
  }

  lemma Prepended<T>(h: map<nat, Cell<T>>, h': map<nat, Cell<T>>, q: nat, rest: seq<nat>, node: nat)
    requires Seg(h, q, rest, 0) && node != 0 && node !in rest && node in h' && h'[node].next == q
    requires forall x :: x in rest && x in h ==> x in h' && h'[x].next == h[x].next
    ensures Seg(h', node, [node] + rest, 0)
  {
    SegFrame(h, h', q, rest, 0);
    assert ([node] + rest)[1..] == rest;
  }

  lemma CutIs<T>(h: map<nat, Cell<T>>, head: nat, done: seq<nat>, q: nat, rest: seq<nat>)
    requires Seg(h, head, done, q) && Seg(h, q, rest, 0) && forall x :: x in done ==> x !in rest
    ensures Cut(h, head, done, q, rest)
  {
    SegIn(h, head, done, q);
    SegIn(h, q, rest, 0);
  }

  // Merging a cell with the one after it.
  lemma CutAbsorb<T>(h: map<nat, Cell<T>>, head: nat, done: seq<nat>, q: nat, rest: seq<nat>, v: T)
    requires Cut(h, head, done, q, rest) && |rest| >= 2 && q in h && h[q].next in h
    ensures var h' := h[q := Cell(v, h[h[q].next].next)];
            && Cut(h', head, done, q, [q] + rest[2..])
            && Vals(h', done) == Vals(h, done) && Vals(h', [q] + rest[2..]) == [v] + Vals(h, rest)[2..]
  {
    var h' := h[q := Cell(v, h[h[q].next].next)];
    SegIn(h, q, rest, 0);
    SegNext(h, q, rest, 0, 0);
    assert Seg(h, h[q].next, rest[1..], 0) && rest[1..][1..] == rest[2..];
    assert Seg(h, h[rest[1]].next, rest[2..], 0);
    assert forall x :: x in rest[2..] ==> x in rest && x != q;
    SegFrame(h, h', head, done, q);
    Prepended(h, h', h[rest[1]].next, rest[2..], q);
    CutIs(h', head, done, q, [q] + rest[2..]);
  }
}
