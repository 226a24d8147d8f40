/** The node tree of the virtual file system (kernel/src/fs/vfs.rs): every node holds a parent pointer, its first
    child and, through its cell, its next sibling. */
module VfsTree {
  import opened Chains

  datatype Kind = File | Dir | Device | Symlink

  datatype VNode = VNode(name: string, kind: Kind, parent: nat, children: nat, link: string)

  type Nodes = map<nat, Cell<VNode>>
  type Kids = map<nat, seq<nat>>
  type Rank = map<nat, nat>

  // Node n of the tree under `top`: its child list is kids[n], each child names it as parent and ranks higher, and
  // it is itself in its parent's list.
  ghost predicate NodeOk(h: Nodes, top: nat, kids: Kids, rank: Rank, n: nat)
    requires n in kids
  {
    && n in h && n in rank && Seg(h, h[n].val.children, kids[n], 0)
    && (forall c :: c in kids[n] ==> ChildOk(h, top, kids, rank, n, c))
    && (n != top ==> h[n].val.parent in kids && n in kids[h[n].val.parent])
  }

  ghost predicate ChildOk(h: Nodes, top: nat, kids: Kids, rank: Rank, n: nat, c: nat) {
    c in kids && c != top && c in h && h[c].val.parent == n && n in rank && c in rank && rank[c] > rank[n]
  }

  /** The nodes kids.Keys form a finite tree under `top` in which parent pointers and child lists agree; the ranks
      rule out cycles. */
  ghost predicate Tree(h: Nodes, top: nat, kids: Kids, rank: Rank) {
    top in kids && top != 0 && forall n :: n in kids ==> NodeOk(h, top, kids, rank, n)
  }

  lemma NodeAt(h: Nodes, top: nat, kids: Kids, rank: Rank, n: nat)
    requires Tree(h, top, kids, rank) && n in kids
    ensures NodeOk(h, top, kids, rank, n)
  {
  }

  lemma NonNull(h: Nodes, top: nat, kids: Kids, rank: Rank, n: nat)
    requires Tree(h, top, kids, rank) && n in kids
    ensures n != 0 && n in h && (n != top ==> h[n].val.parent in kids)
  {
    assert NodeOk(h, top, kids, rank, n);
    if n != top {
      var p := h[n].val.parent;
      assert NodeOk(h, top, kids, rank, p);
      SegIn(h, h[p].val.children, kids[p], 0);
    }
  }

  // Memory elsewhere, and the top's own sibling and parent pointers, do not matter.
  lemma TreeFrame(h: Nodes, h': Nodes, top: nat, kids: Kids, rank: Rank)
    requires Tree(h, top, kids, rank)
    requires forall n :: n in kids && n in h ==> n in h' && h'[n].val.children == h[n].val.children
    requires forall n ::
      n in kids && n in h && n != top ==> n in h' && h'[n].next == h[n].next && h'[n].val.parent == h[n].val.parent
    ensures Tree(h', top, kids, rank)
  {
    forall n | n in kids ensures NodeOk(h', top, kids, rank, n) {
      assert NodeOk(h, top, kids, rank, n);
      assert forall c :: c in kids[n] ==> ChildOk(h, top, kids, rank, n, c);
      SegFrame(h, h', h[n].val.children, kids[n], 0);
      forall c | c in kids[n] ensures ChildOk(h', top, kids, rank, n, c) { assert ChildOk(h, top, kids, rank, n, c); }
    }
  }

  // Every node is reached from the top: following parents from n arrives there.
  ghost predicate Under(h: Nodes, top: nat, kids: Kids, rank: Rank, x: nat, n: nat)
    requires Tree(h, top, kids, rank) && n in kids
    decreases if n in rank then rank[n] else 0
  {
    assert NodeOk(h, top, kids, rank, n);
    n == x || (n != top && var p := h[n].val.parent;
                           assert NodeOk(h, top, kids, rank, p) && ChildOk(h, top, kids, rank, p, n);
                           Under(h, top, kids, rank, x, p))
  }

  lemma {:induction false} AllUnderTop(h: Nodes, top: nat, kids: Kids, rank: Rank, n: nat)
    requires Tree(h, top, kids, rank) && n in kids
    ensures Under(h, top, kids, rank, top, n)
    decreases if n in rank then rank[n] else 0
  {
    assert NodeOk(h, top, kids, rank, n);
    if n != top {
      var p := h[n].val.parent;
      assert NodeOk(h, top, kids, rank, p) && ChildOk(h, top, kids, rank, p, n);
      AllUnderTop(h, top, kids, rank, p);
    }
  }

  lemma {:induction false} UnderRank(h: Nodes, top: nat, kids: Kids, rank: Rank, x: nat, n: nat)
    requires Tree(h, top, kids, rank) && n in kids && x in kids && Under(h, top, kids, rank, x, n)
    ensures n in rank && x in rank && rank[x] <= rank[n] && (rank[x] == rank[n] ==> x == n)
    decreases if n in rank then rank[n] else 0
  {
    assert NodeOk(h, top, kids, rank, n);
    if n != x {
      var p := h[n].val.parent;
      assert NodeOk(h, top, kids, rank, p) && ChildOk(h, top, kids, rank, p, n);
      UnderRank(h, top, kids, rank, x, p);
    }
  }

  lemma UnderChild(h: Nodes, top: nat, kids: Kids, rank: Rank, x: nat, n: nat, c: nat)
    requires Tree(h, top, kids, rank) && n in kids && c in kids[n]
    ensures c in kids && (Under(h, top, kids, rank, x, c) <==> c == x || Under(h, top, kids, rank, x, n))
  {
    assert NodeOk(h, top, kids, rank, n);
    assert ChildOk(h, top, kids, rank, n, c);
  }

  lemma NotTop(h: Nodes, top: nat, kids: Kids, rank: Rank, x: nat, n: nat)
    requires Tree(h, top, kids, rank) && n in kids && x != top && Under(h, top, kids, rank, x, n)
    ensures n != top
  {
  }

  // Below x but neither x nor a child of it: some child of x has children.
  lemma {:induction false} Deeper(h: Nodes, top: nat, kids: Kids, rank: Rank, x: nat, n: nat) returns (c: nat)
    requires Tree(h, top, kids, rank) && n in kids && x in kids && Under(h, top, kids, rank, x, n)
    requires n != x && n !in kids[x]
    ensures c in kids[x] && c in kids && kids[c] != []
    decreases if n in rank then rank[n] else 0
  {
    assert NodeOk(h, top, kids, rank, n);
    var p := h[n].val.parent;
    assert NodeOk(h, top, kids, rank, p) && ChildOk(h, top, kids, rank, p, n);
    if p in kids[x] {
      c := p;
    } else {
      c := Deeper(h, top, kids, rank, x, p);
    }
  }

  /** Everything under x is x itself or a child of it exactly if no child of x has children. */
  lemma ShallowIff(h: Nodes, top: nat, kids: Kids, rank: Rank, x: nat)
    requires Tree(h, top, kids, rank) && x in kids
    ensures (forall n :: n in kids && Under(h, top, kids, rank, x, n) ==> n == x || n in kids[x])
            <==> forall c :: c in kids[x] && c in kids ==> kids[c] == []
  {
    hide Tree, Under;
    if c :| c in kids[x] && c in kids && kids[c] != [] {
      var g := kids[c][0];
      UnderChild(h, top, kids, rank, x, x, c);
      UnderSelf(h, top, kids, rank, x);
      UnderChild(h, top, kids, rank, x, c, g);
      NotItself(h, top, kids, rank, x, c, g);
    } else if n :| n in kids && Under(h, top, kids, rank, x, n) && n != x && n !in kids[x] {
      var c := Deeper(h, top, kids, rank, x, n);
    }
  }

  lemma UnderSelf(h: Nodes, top: nat, kids: Kids, rank: Rank, x: nat)
    requires Tree(h, top, kids, rank) && x in kids
    ensures Under(h, top, kids, rank, x, x)
  {
  }

  lemma NotItself(h: Nodes, top: nat, kids: Kids, rank: Rank, x: nat, c: nat, g: nat)
    requires Tree(h, top, kids, rank) && x in kids && c in kids[x] && c in kids && g in kids[c]
    ensures g != x && g !in kids[x]
  {
    assert NodeOk(h, top, kids, rank, x) && NodeOk(h, top, kids, rank, c);
    assert ChildOk(h, top, kids, rank, x, c) && ChildOk(h, top, kids, rank, c, g);
    ListsDisjoint(h, top, kids, rank, x, c);
  }

  // Child lists of different nodes have nothing in common.
  lemma ListsDisjoint(h: Nodes, top: nat, kids: Kids, rank: Rank, m: nat, n: nat)
    requires Tree(h, top, kids, rank) && m in kids && n in kids && m != n
    ensures forall c :: c in kids[m] ==> c !in kids[n]
  {
    assert NodeOk(h, top, kids, rank, m) && NodeOk(h, top, kids, rank, n);
    forall c | c in kids[m] ensures c !in kids[n] {
      assert ChildOk(h, top, kids, rank, m, c);
      assert c in kids[n] ==> ChildOk(h, top, kids, rank, n, c);
    }
  }

  // ---------------------------------------------------------------- detaching a node

  // Node x, in its parent's list between `done` and `rest`, is skipped.
  function Unlinked(h: Nodes, p: nat, done: seq<nat>, x: nat): Nodes
    requires p in h && x in h && (done != [] ==> Last(done) in h)
  {
    if done == [] then h[p := h[p].(val := h[p].val.(children := h[x].next))]
    else h[Last(done) := h[Last(done)].(next := h[x].next)]
  }

  // What stays when the tree under x is taken away, and that tree.
  ghost function Stays(h: Nodes, top: nat, kids: Kids, rank: Rank, x: nat, p: nat, list: seq<nat>): Kids
    requires Tree(h, top, kids, rank)
  {
    map n | n in kids && !Under(h, top, kids, rank, x, n) :: if n == p then list else kids[n]
  }

  ghost function Goes(h: Nodes, top: nat, kids: Kids, rank: Rank, x: nat): Kids
    requires Tree(h, top, kids, rank)
  {
    map n | n in kids && Under(h, top, kids, rank, x, n) :: kids[n]
  }

  // The child list of x's parent without x.
  lemma UnlinkedList(h: Nodes, top: nat, kids: Kids, rank: Rank, x: nat, p: nat, done: seq<nat>, rest: seq<nat>)
    requires Tree(h, top, kids, rank) && p in kids && kids[p] == done + [x] + rest
    ensures p in h && x in h && (done != [] ==> Last(done) in h && Last(done) in kids[p]) && x !in done + rest
    ensures var h' := Unlinked(h, p, done, x);
            p in h' && Seg(h', h'[p].val.children, done + rest, 0)
    ensures p !in kids[p]
  {
    assert NodeOk(h, top, kids, rank, p);
    assert done + [x] + rest == done + ([x] + rest) && x in kids[p];
    assert ChildOk(h, top, kids, rank, p, x);
    var first := h[p].val.children;
    var q := SegSplit(h, first, done, [x] + rest, 0);
    SegIn(h, first, kids[p], 0);
    assert done != [] ==> Last(done) == kids[p][|done| - 1];
    CutUnlinkOnly(h, first, done, x, rest);
    assert p in kids[p] ==> ChildOk(h, top, kids, rank, p, p);
    var h' := Unlinked(h, p, done, x);
    if done == [] {
      assert done + rest == rest;
      SegFrame(h, h', h[x].next, rest, 0);
    }
  }

  lemma CutUnlinkOnly(h: Nodes, first: nat, done: seq<nat>, x: nat, rest: seq<nat>)
    requires Seg(h, first, done, x) && Seg(h, x, [x] + rest, 0) && forall c :: c in done ==> c !in [x] + rest
    ensures x in h && Seg(h, h[x].next, rest, 0) && x !in rest
    ensures done != [] ==>
      Last(done) in h && Seg(h[Last(done) := h[Last(done)].(next := h[x].next)], first, done + rest, 0)
  {
    assert ([x] + rest)[1..] == rest;
    SegIn(h, first, done, x);
    if done != [] {
      var h' := h[Last(done) := h[Last(done)].(next := h[x].next)];
      SegRelink(h, h', first, done, x, h[x].next);
      assert Last(done) in done && forall c :: c in rest ==> c in [x] + rest;
      SegFrame(h, h', h[x].next, rest, 0);
      SegJoin(h', first, done, h[x].next, rest, 0);
    }
  }

  lemma StaysOk(h: Nodes, top: nat, kids: Kids, rank: Rank, x: nat, p: nat, done: seq<nat>, rest: seq<nat>, n: nat)
    requires Tree(h, top, kids, rank) && p in kids && kids[p] == done + [x] + rest && x != top
    requires n in kids && !Under(h, top, kids, rank, x, n)
    requires p in h && x in h && (done != [] ==> Last(done) in h)
    ensures n in Stays(h, top, kids, rank, x, p, done + rest)
    ensures NodeOk(Unlinked(h, p, done, x), top, Stays(h, top, kids, rank, x, p, done + rest), rank, n)
  {
    hide Tree, Under, Seg;
    var h', kids' := Unlinked(h, p, done, x), Stays(h, top, kids, rank, x, p, done + rest);
    UnlinkedList(h, top, kids, rank, x, p, done, rest);
    NodeAt(h, top, kids, rank, n);
    if n != p {
      ListsDisjoint(h, top, kids, rank, p, n);
      SegFrame(h, h', h[n].val.children, kids[n], 0);
    }
    forall c | c in kids'[n] ensures ChildOk(h', top, kids', rank, n, c) {
      assert c in kids[n] && c != x by { assert n != p ==> x in kids[p]; }
      UnderChild(h, top, kids, rank, x, n, c);
      assert ChildOk(h, top, kids, rank, n, c);
    }
    if n != top {
      var m := h[n].val.parent;
      UnderChild(h, top, kids, rank, x, m, n);
      assert n in kids[m] && n != x && m in kids';
    }
  }

  lemma GoesOk(h: Nodes, top: nat, kids: Kids, rank: Rank, x: nat, p: nat, done: seq<nat>, rest: seq<nat>, n: nat)
    requires Tree(h, top, kids, rank) && p in kids && kids[p] == done + [x] + rest && x != top
    requires n in kids && Under(h, top, kids, rank, x, n)
    requires p in h && x in h && (done != [] ==> Last(done) in h) && !Under(h, top, kids, rank, x, p)
    ensures n in Goes(h, top, kids, rank, x)
    ensures NodeOk(Unlinked(h, p, done, x), x, Goes(h, top, kids, rank, x), rank, n)
  {
    hide Tree, Under, Seg;
    var h', kids' := Unlinked(h, p, done, x), Goes(h, top, kids, rank, x);
    UnlinkedList(h, top, kids, rank, x, p, done, rest);
    NodeAt(h, top, kids, rank, n);
    NodeAt(h, top, kids, rank, p);
    assert x in kids[p] && ChildOk(h, top, kids, rank, p, x);
    NotTop(h, top, kids, rank, x, n);
    ListsDisjoint(h, top, kids, rank, p, n);
    SegFrame(h, h', h[n].val.children, kids[n], 0);
    forall c | c in kids'[n] ensures ChildOk(h', x, kids', rank, n, c) {
      UnderChild(h, top, kids, rank, x, n, c);
      assert ChildOk(h, top, kids, rank, n, c);
      assert c != x by { UnderRank(h, top, kids, rank, x, n); }
    }
    if n != x {
      var m := h[n].val.parent;
      UnderChild(h, top, kids, rank, x, m, n);
      assert m in kids';
    }
  }

  /** Detaching x splits the tree in two: what is left under `top`, and the tree under x. */
  lemma Detached(h: Nodes, top: nat, kids: Kids, rank: Rank, x: nat, p: nat, done: seq<nat>, rest: seq<nat>)
    requires Tree(h, top, kids, rank) && p in kids && kids[p] == done + [x] + rest
    ensures p in h && x in h && (done != [] ==> Last(done) in h) && x in kids && x != top
    ensures var h', b := Unlinked(h, p, done, x), Goes(h, top, kids, rank, x);
            var a := Stays(h, top, kids, rank, x, p, done + rest);
            && Tree(h', top, a, rank) && Tree(h', x, b, rank)
            && a.Keys !! b.Keys && a.Keys + b.Keys == kids.Keys && p in a
  {
    UnlinkedList(h, top, kids, rank, x, p, done, rest);
    assert NodeOk(h, top, kids, rank, p);
    assert x in kids[p] && ChildOk(h, top, kids, rank, p, x);
    assert !Under(h, top, kids, rank, x, p) by {
      if Under(h, top, kids, rank, x, p) { UnderRank(h, top, kids, rank, x, p); }
    }
    assert !Under(h, top, kids, rank, x, top);
    NonNull(h, top, kids, rank, x);
    var h', a, b := Unlinked(h, p, done, x), Stays(h, top, kids, rank, x, p, done + rest), Goes(h, top, kids, rank, x);
    forall n | n in a ensures NodeOk(h', top, a, rank, n) { StaysOk(h, top, kids, rank, x, p, done, rest, n); }
    forall n | n in b ensures NodeOk(h', x, b, rank, n) { GoesOk(h, top, kids, rank, x, p, done, rest, n); }
  }

  // ---------------------------------------------------------------- attaching a node

  // add_child: x becomes the first child of p, under a name of its own.
  function Linked(h: Nodes, p: nat, x: nat, name: string): Nodes
    requires p in h && x in h
  {
    var h1 := h[x := Cell(h[x].val.(parent := p, name := name), h[p].val.children)];
    h1[p := h1[p].(val := h1[p].val.(children := x))]
  }

  function Joined(a: Kids, b: Kids, p: nat, x: nat): Kids
    requires p in a
  {
    a[p := [x] + a[p]] + b
  }

  ghost function Raised(a: Kids, b: Kids, rank: Rank, p: nat): Rank
    requires p in rank
  {
    map n | n in rank && (n in a || n in b) :: if n in b then rank[n] + rank[p] + 1 else rank[n]
  }

  /** Attaching a separate tree makes one tree of the two. */
  lemma Attached(h: Nodes, top: nat, a: Kids, b: Kids, rank: Rank, p: nat, x: nat, name: string)
    requires Tree(h, top, a, rank) && Tree(h, x, b, rank) && a.Keys !! b.Keys && p in a
    ensures p in h && x in h && p in rank
    ensures Tree(Linked(h, p, x, name), top, Joined(a, b, p, x), Raised(a, b, rank, p))
  {
    NonNull(h, top, a, rank, p);
    NonNull(h, x, b, rank, x);
    assert NodeOk(h, top, a, rank, p);
    var h', kids, rank' := Linked(h, p, x, name), Joined(a, b, p, x), Raised(a, b, rank, p);
    forall n | n in kids ensures NodeOk(h', top, kids, rank', n) {
      if n in b {
        AttachedBelow(h, top, a, b, rank, p, x, name, n);
      } else {
        AttachedAbove(h, top, a, b, rank, p, x, name, n);
      }
    }
  }

  lemma AttachedBelow(h: Nodes, top: nat, a: Kids, b: Kids, rank: Rank, p: nat, x: nat, name: string, n: nat)
    requires Tree(h, top, a, rank) && Tree(h, x, b, rank) && a.Keys !! b.Keys && p in a && n in b
    requires p in h && x in h && p in rank && p != 0 && x != 0
    ensures NodeOk(Linked(h, p, x, name), top, Joined(a, b, p, x), Raised(a, b, rank, p), n)
  {
    var h', kids, rank' := Linked(h, p, x, name), Joined(a, b, p, x), Raised(a, b, rank, p);
    assert NodeOk(h, x, b, rank, n);
    forall c | c in b[n] ensures c in b && c != x && c in h && c in rank { assert ChildOk(h, x, b, rank, n, c); }
    SegFrame(h, h', h[n].val.children, b[n], 0);
    forall c | c in kids[n] ensures ChildOk(h', top, kids, rank', n, c) { assert ChildOk(h, x, b, rank, n, c); }
  }

  lemma AttachedAbove(h: Nodes, top: nat, a: Kids, b: Kids, rank: Rank, p: nat, x: nat, name: string, n: nat)
    requires Tree(h, top, a, rank) && Tree(h, x, b, rank) && a.Keys !! b.Keys && p in a && n in a
    requires p in h && x in h && p in rank && p != 0 && x != 0 && x in b && top in a
    ensures NodeOk(Linked(h, p, x, name), top, Joined(a, b, p, x), Raised(a, b, rank, p), n)
  {
    hide Tree;
    var h', kids, rank' := Linked(h, p, x, name), Joined(a, b, p, x), Raised(a, b, rank, p);
    NodeAt(h, top, a, rank, n);
    NodeAt(h, x, b, rank, x);
    forall c | c in a[n] ensures c in a && c in h && c in rank && c != top { assert ChildOk(h, top, a, rank, n, c); }
    SegFrame(h, h', h[n].val.children, a[n], 0);
    if n == p { assert ([x] + a[p])[1..] == a[p]; }
    forall c | c in kids[n] ensures ChildOk(h', top, kids, rank', n, c) {
      assert c != x ==> ChildOk(h, top, a, rank, n, c);
    }
  }
}
