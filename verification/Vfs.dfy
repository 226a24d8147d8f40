/** The operations of kernel/src/fs/vfs.rs that read and edit the node tree. Whether the caller may use a directory
    is an arbitrary predicate; the node allocator hands out an unused address or 0. */
module Vfs {
  import opened Chains
  import opened Paths
  import opened VfsTree
  import opened Resolve

  const NAME_MAX: nat := 63
  const PARENT_BUFFER: nat := 255

  // What an edit elsewhere leaves alone.
  predicate SameInfo(h: Nodes, h': Nodes, n: nat) {
    && n in h && n in h' && h'[n].val.name == h[n].val.name && h'[n].val.kind == h[n].val.kind
    && h'[n].val.parent == h[n].val.parent && h'[n].val.link == h[n].val.link
  }

  // A node without children is a tree of its own beside the others.
  lemma Born(h: Nodes, root: nat, kids: Kids, rank: Rank, x: nat, v: VNode)
    requires Rooted(h, root, kids, rank) && x !in h && x != 0 && v.children == 0
    ensures var h', rank' := h[x := Cell(v, 0)], rank[x := 0];
            && Rooted(h', root, kids, rank') && Tree(h', x, map[x := []], rank') && x !in kids
  {
    var h', rank' := h[x := Cell(v, 0)], rank[x := 0];
    assert x !in kids by { if x in kids { NodeAt(h, root, kids, rank, x); } }
    TreeFrame(h, h', root, kids, rank);
    forall n | n in kids ensures NodeOk(h', root, kids, rank', n) {
      NodeAt(h', root, kids, rank, n);
      forall c | c in kids[n]
        ensures ChildOk(h', root, kids, rank', n, c) { assert ChildOk(h', root, kids, rank, n, c); }
    }
    var one: Kids := map[x := []];
    assert NodeOk(h', x, one, rank', x);
  }

  lemma {:induction false} SegSame<T>(h: map<nat, Cell<T>>, h': map<nat, Cell<T>>, p: nat, ps: seq<nat>, qs: seq<nat>)
    requires Seg(h, p, ps, 0) && Seg(h', p, qs, 0) && forall n :: n in h' ==> n in h && h'[n] == h[n]
    ensures ps == qs
    decreases |ps|
  {
    if ps == [] {
    } else {
      SegSame(h, h', h[p].next, ps[1..], qs[1..]);
    }
  }

  lemma {:induction false} StillReached(h: Nodes, root: nat, kids: Kids, rank: Rank, x: nat, kids': Kids, rank': Rank,
                                        n: nat)
    requires Tree(h, root, kids, rank) && Tree(h - {x}, root, kids', rank') && n in kids
    requires !Under(h, root, kids, rank, x, n)
    ensures n in kids' && kids'[n] == kids[n]
    decreases if n in rank then rank[n] else 0
  {
    NodeAt(h, root, kids, rank, n);
    if n != root {
      var m := h[n].val.parent;
      NodeAt(h, root, kids, rank, m);
      assert ChildOk(h, root, kids, rank, m, n);
      StillReached(h, root, kids, rank, x, kids', rank', m);
      NodeAt(h - {x}, root, kids', rank', m);
      assert ChildOk(h - {x}, root, kids', rank', m, n);
    }
    NodeAt(h - {x}, root, kids', rank', n);
    SegSame(h, h - {x}, h[n].val.children, kids[n], kids'[n]);
  }

  /** Freeing a node that is still in its parent's list leaves no tree behind: some list under the root runs into
      the freed node. */
  lemma FreedButLinked(h: Nodes, root: nat, kids: Kids, rank: Rank, x: nat, kids': Kids, rank': Rank)
    requires Tree(h, root, kids, rank) && x in kids && x != root
    ensures !Tree(h - {x}, root, kids', rank')
  {
    if Tree(h - {x}, root, kids', rank') {
      NodeAt(h, root, kids, rank, x);
      var p := h[x].val.parent;
      NodeAt(h, root, kids, rank, p);
      assert ChildOk(h, root, kids, rank, p, x);
      assert !Under(h, root, kids, rank, x, p) by {
        if Under(h, root, kids, rank, x, p) { UnderRank(h, root, kids, rank, x, p); }
      }
      StillReached(h, root, kids, rank, x, kids', rank', p);
      NodeAt(h - {x}, root, kids', rank', p);
      assert false;
    }
  }

  // A new node, parent pointer set, put in front of its parent's list.
  function HungNodes(h: Nodes, x: nat, v: VNode): Nodes
    requires v.parent in h && x !in h
  {
    var h1 := h[x := Cell(v, h[v.parent].val.children)];
    h1[v.parent := h1[v.parent].(val := h1[v.parent].val.(children := x))]
  }

  ghost function HungRank(kids: Kids, rank: Rank, x: nat, p: nat): Rank
    requires p in rank && p != x
  {
    Raised(kids, map[x := []], rank[x := 0], p)
  }

  lemma Hung(h: Nodes, root: nat, kids: Kids, rank: Rank, x: nat, v: VNode)
    requires Rooted(h, root, kids, rank) && x !in h && x != 0 && v.children == 0 && v.parent in kids
    ensures v.parent in h && v.parent in rank && x !in kids && forall n :: n in kids ==> n in h
    ensures Rooted(HungNodes(h, x, v), root, kids[v.parent := [x] + kids[v.parent]][x := []],
                   HungRank(kids, rank, x, v.parent))
    ensures x in HungNodes(h, x, v) && HungNodes(h, x, v)[x].val == v
    ensures SameInfo(map[x := Cell(v, 0)], HungNodes(h, x, v), x)
    ensures forall n :: n in kids ==> SameInfo(h, HungNodes(h, x, v), n)
  {
    hide Tree;
    var p, one: Kids := v.parent, map[x := []];
    Born(h, root, kids, rank, x, v);
    NodeAt(h, root, kids, rank, p);
    forall n | n in kids ensures n in h && n != x { Parent(h, root, kids, rank, n); }
    Attached(h[x := Cell(v, 0)], root, kids, one, rank[x := 0], p, x, v.name);
    assert Linked(h[x := Cell(v, 0)], p, x, v.name) == HungNodes(h, x, v);
    assert Joined(kids, one, p, x) == kids[p := [x] + kids[p]][x := []];
  }

  // A node was created: everything that was there stays, and the new one heads its parent's list.
  ghost predicate Made(h: Nodes, k: Kids, h': Nodes, k': Kids, v: VNode, slot: nat) {
    && v.parent in k && slot !in k && k' == k[v.parent := [slot] + k[v.parent]][slot := []]
    && slot in h' && SameInfo(map[slot := Cell(v, 0)], h', slot) && forall n :: n in k ==> SameInfo(h, h', n)
  }

  ghost predicate CanMake(h: Nodes, root: nat, k: Kids, r: Rank, path: string, exclusive: bool)
    requires Rooted(h, root, k, r)
  {
    var p := ParentNode(h, root, k, r, path);
    && path != "" && p != 0 && p in h && h[p].val.kind == Dir && BaseName(path) != ""
    && (exclusive ==> Found(h, root, k, r, p, BaseName(path)) == 0)
  }

  predicate Plain(name: string) { name != "." && name != ".." }

  // A name that fits is found again.
  lemma FoundNew(h: Nodes, root: nat, k: Kids, r: Rank, p: nat, name: string, slot: nat)
    requires Rooted(h, root, k, r) && p in k && k[p] != [] && k[p][0] == slot && slot in h && h[slot].val.name == name
    requires Plain(name)
    ensures Found(h, root, k, r, p, name) == slot
  {
  }

  function Before(s: seq<nat>, x: nat): (d: seq<nat>)
    ensures x !in d && d <= s && (x in s ==> |d| < |s| && s[|d|] == x)
  {
    if s == [] || s[0] == x then [] else [s[0]] + Before(s[1..], x)
  }

  function After(s: seq<nat>, x: nat): seq<nat>
    requires x in s
  {
    s[|Before(s, x)| + 1..]
  }

  lemma AroundIs(s: seq<nat>, x: nat)
    requires x in s
    ensures s == Before(s, x) + [x] + After(s, x)
  {
  }

  lemma {:induction false} BeforeIs(done: seq<nat>, x: nat, rest: seq<nat>)
    requires x !in done
    ensures Before(done + [x] + rest, x) == done && After(done + [x] + rest, x) == rest
  {
    var s := done + [x] + rest;
    if done == [] {
    } else {
      BeforeIs(done[1..], x, rest);
      assert s[1..] == done[1..] + [x] + rest && s[0] == done[0] && s[0] in done;
    }
    assert Before(s, x) == done;
    assert s[|done| + 1..] == rest;
  }

  lemma FoundHere(s: seq<nat>, n: nat, x: nat)
    requires n < |s| && s[n] == x && x !in s[..n]
    ensures x in s && Before(s, x) == s[..n] && Last(Before(s, x)) == if n == 0 then 0 else s[n - 1]
  {
    assert s == s[..n] + [x] + s[n + 1..];
    BeforeIs(s[..n], x, s[n + 1..]);
  }

  // Every node but the root is in its parent's list.
  lemma Listed(h: Nodes, root: nat, k: Kids, r: Rank, x: nat)
    requires Rooted(h, root, k, r) && x in k && x != root
    ensures x in h && h[x].val.parent in k && x in k[h[x].val.parent]
  {
    NodeAt(h, root, k, r, x);
  }

  // The tree without x and what hangs under it.
  ghost function Pruned(h: Nodes, root: nat, k: Kids, r: Rank, x: nat): Kids
    requires Rooted(h, root, k, r) && x in k && x != root
  {
    Listed(h, root, k, r, x);
    var p := h[x].val.parent;
    Stays(h, root, k, r, x, p, Before(k[p], x) + After(k[p], x))
  }

  // Memory after x was taken out of its parent's list.
  ghost function Cutout(h: Nodes, root: nat, k: Kids, r: Rank, x: nat): Nodes
    requires Rooted(h, root, k, r) && x in k && x != root
  {
    Listed(h, root, k, r, x);
    var p := h[x].val.parent;
    AroundIs(k[p], x);
    Detached(h, root, k, r, x, p, Before(k[p], x), After(k[p], x));
    Unlinked(h, p, Before(k[p], x), x)
  }

  lemma ChildList(h: Nodes, root: nat, k: Kids, r: Rank, p: nat, x: nat)
    requires Rooted(h, root, k, r) && p in k
    ensures p in h && Seg(h, h[p].val.children, k[p], 0)
    ensures x in k[p] ==> x in k && x != root && x in h && h[x].val.parent == p
  {
    NodeAt(h, root, k, r, p);
    assert x in k[p] ==> ChildOk(h, root, k, r, p, x);
  }

  lemma CutoutIs(h: Nodes, root: nat, k: Kids, r: Rank, x: nat)
    requires Rooted(h, root, k, r) && x in k && x != root
    ensures x in h && h[x].val.parent in k && h[x].val.parent in h
    ensures var p := h[x].val.parent;
            var prev := Last(Before(k[p], x));
            && (prev != 0 ==> prev in h)
            && Cutout(h, root, k, r, x) == if prev == 0 then h[p := h[p].(val := h[p].val.(children := h[x].next))]
                                           else h[prev := h[prev].(next := h[x].next)]
  {
    Listed(h, root, k, r, x);
    var p := h[x].val.parent;
    NodeAt(h, root, k, r, p);
    SegIn(h, h[p].val.children, k[p], 0);
    assert Before(k[p], x) != [] ==> Last(Before(k[p], x)) in k[p];
  }

  lemma CutoutTrees(h: Nodes, root: nat, k: Kids, r: Rank, x: nat)
    requires Rooted(h, root, k, r) && x in k && x != root
    ensures var h', a, b := Cutout(h, root, k, r, x), Pruned(h, root, k, r, x), Goes(h, root, k, r, x);
            && x in h && Rooted(h', root, a, r) && Tree(h', x, b, r) && a.Keys !! b.Keys && a.Keys + b.Keys == k.Keys
            && h[x].val.parent in a && x in b && k[x] == b[x] && (forall n :: n in k ==> SameInfo(h, h', n))
            && forall n :: n in k ==> (n in b <==> Under(h, root, k, r, x, n))
  {
    hide Tree;
    Listed(h, root, k, r, x);
    var p := h[x].val.parent;
    AroundIs(k[p], x);
    Detached(h, root, k, r, x, p, Before(k[p], x), After(k[p], x));
    forall n | n in k ensures SameInfo(h, Cutout(h, root, k, r, x), n) { Parent(h, root, k, r, n); }
    RootIn(h, root, k, r);
  }

  // Freeing memory the tree does not use.
  lemma FreedApart(h: Nodes, root: nat, k: Kids, r: Rank, gone: set<nat>)
    requires Rooted(h, root, k, r) && gone !! k.Keys
    ensures Rooted(h - gone, root, k, r)
  {
    RootIn(h, root, k, r);
    TreeFrame(h, h - gone, root, k, r);
  }

  lemma LeafAlone(h: Nodes, root: nat, k: Kids, r: Rank, x: nat)
    requires Rooted(h, root, k, r) && x in k && k[x] == []
    ensures forall n :: n in k && Under(h, root, k, r, x, n) ==> n == x
  {
    forall n | n in k && Under(h, root, k, r, x, n) ensures n == x { LeafOnly(h, root, k, r, x, n); }
  }

  lemma {:induction false} LeafOnly(h: Nodes, root: nat, k: Kids, r: Rank, x: nat, n: nat)
    requires Rooted(h, root, k, r) && x in k && k[x] == [] && n in k && Under(h, root, k, r, x, n)
    ensures n == x
    decreases if n in r then r[n] else 0
  {
    if n != x {
      NodeAt(h, root, k, r, n);
      var p := h[n].val.parent;
      NodeAt(h, root, k, r, p);
      assert ChildOk(h, root, k, r, p, n);
      LeafOnly(h, root, k, r, x, p);
      assert false;
    }
  }

  // "." and ".." name no child.
  lemma DotsAreNoChildren(h: Nodes, root: nat, k: Kids, r: Rank, p: nat, name: string)
    requires Rooted(h, root, k, r) && p in k && Found(h, root, k, r, p, name) != 0
    ensures Found(h, root, k, r, p, name) in k[p] <==> Plain(name)
  {
    NodeAt(h, root, k, r, p);
    var x := Found(h, root, k, r, p, name);
    if p != root {
      NodeAt(h, root, k, r, h[p].val.parent);
      assert ChildOk(h, root, k, r, h[p].val.parent, p);
    }
    if !Plain(name) && x in k[p] { assert false; }
  }

  lemma AsTree(h: Nodes, root: nat, k: Kids, r: Rank)
    requires Rooted(h, root, k, r)
    ensures Tree(h, root, k, r)
  {
  }

  lemma RootIsDir(h: Nodes, root: nat, k: Kids, r: Rank)
    requires Rooted(h, root, k, r)
    ensures root in h && h[root].val.kind == Dir
  {
  }

  lemma LinkedInfo(h: Nodes, root: nat, k: Kids, h1: Nodes, np: nat, x: nat, name: string)
    requires (forall n :: n in k ==> SameInfo(h, h1, n)) && np in h1 && x in h1 && np != x && root in k && root != x
    requires root in h && h[root].val.parent == root && h[root].val.kind == Dir
    ensures var h2 := Linked(h1, np, x, name);
            && root in h2 && h2[root].val.parent == root && h2[root].val.kind == Dir
            && (forall n :: n in k && n != x ==> SameInfo(h, h2, n)) && x in h2 && h2[x].val.name == name
            && h2[x].val.parent == np
            && h2[x].val.kind == h1[x].val.kind && h2[x].val.link == h1[x].val.link
  {
    assert SameInfo(h, h1, root);
    forall n | n in k && n != x ensures SameInfo(h, Linked(h1, np, x, name), n) { assert SameInfo(h, h1, n); }
  }

  // Hanging the cut-out tree under np: the nodes are those that were there before.
  lemma Rehung(h: Nodes, root: nat, k: Kids, r: Rank, x: nat, np: nat, name: string)
    requires Rooted(h, root, k, r) && x in k && x != root && np in Pruned(h, root, k, r, x)
    ensures var h1, a, b := Cutout(h, root, k, r, x), Pruned(h, root, k, r, x), Goes(h, root, k, r, x);
            && np in h1 && x in h1 && np in r && np != x && x != 0
            && Rooted(Linked(h1, np, x, name), root, Joined(a, b, np, x), Raised(a, b, r, np))
            && Joined(a, b, np, x).Keys == k.Keys && !Under(h, root, k, r, x, np)
            && Moved(h, k, Linked(h1, np, x, name), x, np, name)
  {
    hide Tree, Cutout, Pruned, Goes, Under, Linked, Raised, SameInfo;
    CutoutTrees(h, root, k, r, x);
    var h1, a, b := Cutout(h, root, k, r, x), Pruned(h, root, k, r, x), Goes(h, root, k, r, x);
    NodeAt(h1, root, a, r, np);
    NonNull(h1, x, b, r, x);
    Attached(h1, root, a, b, r, np, x, name);
    RootIn(h1, root, a, r);
    RootIn(h, root, k, r);
    LinkedInfo(h, root, k, h1, np, x, name);
    SameKind(h, h1, x);
    assert Joined(a, b, np, x).Keys == a.Keys + b.Keys;
  }

  lemma SameName(h: Nodes, h': Nodes, n: nat)
    requires SameInfo(h, h', n)
    ensures n in h && n in h' && h'[n].val.name == h[n].val.name
  {
  }

  lemma SameKind(h: Nodes, h': Nodes, n: nat)
    requires SameInfo(h, h', n)
    ensures n in h && n in h' && h'[n].val.kind == h[n].val.kind && h'[n].val.link == h[n].val.link
  {
  }

  // x has a new parent and name; nothing else about any node changed.
  ghost predicate Moved(h: Nodes, k: Kids, h': Nodes, x: nat, np: nat, name: string) {
    && x in h && x in h' && h'[x].val.name == name && h'[x].val.parent == np
    && h'[x].val.kind == h[x].val.kind && h'[x].val.link == h[x].val.link
    && forall n :: n in k && n != x ==> SameInfo(h, h', n)
  }

  lemma StillListed(h: Nodes, root: nat, k: Kids, r: Rank, x: nat, k': Kids, r': Rank)
    requires Rooted(h, root, k, r) && x in k && x != root
    ensures !Rooted(h - {x}, root, k', r')
  {
    FreedButLinked(h, root, k, r, x, k', r');
  }

  // Freeing nodes of the tree that was cut out.
  lemma PrunedFreed(h: Nodes, root: nat, k: Kids, r: Rank, x: nat, gone: set<nat>)
    requires Rooted(h, root, k, r) && x in k && x != root && gone <= Goes(h, root, k, r, x).Keys
    ensures Rooted(Cutout(h, root, k, r, x) - gone, root, Pruned(h, root, k, r, x), r)
    ensures forall n :: n in Pruned(h, root, k, r, x) ==> SameInfo(h, Cutout(h, root, k, r, x) - gone, n)
  {
    hide Rooted, Cutout, Pruned, Goes;
    CutoutTrees(h, root, k, r, x);
    FreedApart(Cutout(h, root, k, r, x), root, Pruned(h, root, k, r, x), r, gone);
  }

  // The node's own children go with it.
  lemma KidsGo(h: Nodes, root: nat, k: Kids, r: Rank, x: nat)
    requires Rooted(h, root, k, r) && x in k && x != root
    ensures var h' := Cutout(h, root, k, r, x);
            && x in h' && Seg(h', h'[x].val.children, k[x], 0)
            && (set c | c in k[x]) + {x} <= Goes(h, root, k, r, x).Keys
  {
    hide Rooted, Cutout, Pruned;
    AsTree(h, root, k, r);
    CutoutTrees(h, root, k, r, x);
    forall c | c in k[x] ensures c in Goes(h, root, k, r, x) { UnderChild(h, root, k, r, x, x, c); }
    NodeAt(Cutout(h, root, k, r, x), x, Goes(h, root, k, r, x), r, x);
  }

  lemma LeftBehind(h: Nodes, root: nat, k: Kids, r: Rank, x: nat, h': Nodes)
    requires Rooted(h, root, k, r) && x in k && x != root
    requires h'.Keys == Cutout(h, root, k, r, x).Keys - ((set c | c in k[x]) + {x})
    ensures h'.Keys == h.Keys - (set c | c in k[x]) - {x}
    ensures (forall n :: n in k && n in h' ==> n in Pruned(h, root, k, r, x))
            <==> forall c :: c in k[x] && c in k ==> k[c] == []
  {
    hide Rooted, Tree, Under;
    AsTree(h, root, k, r);
    SameKeys(h, root, k, r, x);
    ShallowIff(h, root, k, r, x);
    forall n | n in k ensures n in h { NonNull(h, root, k, r, n); }
    forall n | n in k && n !in Pruned(h, root, k, r, x) ensures Under(h, root, k, r, x, n) {}
  }

  lemma SameKeys(h: Nodes, root: nat, k: Kids, r: Rank, x: nat)
    requires Rooted(h, root, k, r) && x in k && x != root
    ensures Cutout(h, root, k, r, x).Keys == h.Keys
  {
    Listed(h, root, k, r, x);
    var p := h[x].val.parent;
    AroundIs(k[p], x);
    Detached(h, root, k, r, x, p, Before(k[p], x), After(k[p], x));
  }

  lemma EmptyList(h: Nodes, x: nat, list: seq<nat>)
    requires x in h && Seg(h, h[x].val.children, list, 0)
    ensures h[x].val.children == 0 <==> list == []
  {
  }

  /** Such a path exists in every tree whose root holds a file: the last name of "x/." is the file itself, so the
      conditions under which Unlink succeeds are met although its last name is ".". */
  lemma DotUnlinkSucceeds(h: Nodes, root: nat, k: Kids, r: Rank, x: nat)
    requires Rooted(h, root, k, r) && root in k
    requires x == Found(h, root, k, r, root, "x") != 0 && x in h && h[x].val.kind == File
    ensures ParentNode(h, root, k, r, "x/.") == x && BaseName("x/.") == "." && !Plain(BaseName("x/."))
    ensures Found(h, root, k, r, x, BaseName("x/.")) == x
  {
    hide Rooted;
    var p := "x/.";
    assert p[..2] == "x/" && AfterSlash("x/") == 2;
    assert p[..|p| - 1] == "x/";
    assert AfterSlash(p) == 2 && p[2..] == ".";
    SegmentOfName('x', "");
    assert ['x'] + [] == "x" && p[..1] == "x";
    assert Resolved(h, root, k, r, x, "", 0) == x;
  }

  lemma SmallTreeDot()
    ensures Rooted(SmallNodes(), 1, SmallKids(), SmallRank())
    ensures ParentNode(SmallNodes(), 1, SmallKids(), SmallRank(), "x/.") == 3 && SmallNodes()[3].val.kind == File
    ensures 3 in SmallKids() && Found(SmallNodes(), 1, SmallKids(), SmallRank(), 3, BaseName("x/.")) == 3
    ensures !Plain(BaseName("x/."))
  {
    hide Rooted, Found, ParentNode, BaseName;
    SmallTree();
    DotUnlinkSucceeds(SmallNodes(), 1, SmallKids(), SmallRank(), 3);
  }

  class FileSystem {
    var nodes: Nodes
    var root: nat
    ghost var kids: Kids
    ghost var rank: Rank

    ghost predicate Valid()
      reads this
    {
      Rooted(nodes, root, kids, rank)
    }

    // krust_vfs_init
    constructor Init(slot: nat)
      requires slot != 0
      ensures Valid() && kids == map[slot := []] && root == slot
    {
      nodes := map[slot := Cell(VNode("", Dir, slot, 0, ""), 0)];
      root, kids, rank := slot, map[slot := []], map[slot := 0];
      new;
      assert NodeOk(nodes, root, kids, rank, slot);
    }

    method FindChild(dir: nat, name: string, ghost k: Kids, ghost r: Rank) returns (c: nat)
      requires Rooted(nodes, root, k, r) && (dir == 0 || dir in k)
      ensures dir == 0 ==> c == 0
      ensures dir != 0 ==> c == Found(nodes, root, k, r, dir, name)
    {
      if dir == 0 { return 0; }
      Parent(nodes, root, k, r, dir);
      NodeAt(nodes, root, k, r, dir);
      if name == "." { return dir; }
      if name == ".." {
        c := dir;
        if nodes[dir].val.parent != 0 { c := nodes[dir].val.parent; }
        return;
      }
      c := nodes[dir].val.children;
      ghost var rest := k[dir];
      while c != 0
        invariant Seg(nodes, c, rest, 0) && FirstNamed(nodes, k[dir], name) == FirstNamed(nodes, rest, name)
        decreases |rest|
      {
        if nodes[c].val.name == name { return; }
        c, rest := nodes[c].next, rest[1..];
      }
    }

    method ResolveInner(base: nat, path: string, depth: nat, ghost k: Kids, ghost r: Rank) returns (n: nat)
      requires Rooted(nodes, root, k, r) && (base == 0 || base in k)
      ensures base == 0 ==> n == 0
      ensures base != 0 ==> n == Resolved(nodes, root, k, r, base, path, depth)
      decreases DEPTH_MAX + 1 - depth, |path|
    {
      hide Tree, Found, Segment, SkipSlashes;
      if depth > DEPTH_MAX { return 0; }
      if base == 0 { return 0; }
      var segment, rest, tooLong := NextSegment(path);
      if segment == "" && !tooLong { return base; }
      if tooLong { return 0; }
      var child := FindChild(base, segment, k, r);
      if child == 0 { return 0; }
      Parent(nodes, root, k, r, child);
      RootIn(nodes, root, k, r);
      if nodes[child].val.kind == Symlink {
        var link := nodes[child].val.link;
        n := ResolveInner(if IsAbsolute(link) then root else base, Spliced(link, rest), depth + 1, k, r);
        return;
      }
      n := ResolveInner(child, rest, depth, k, r);
    }

    // krust_vfs_resolve
    method ResolvePath(path: string) returns (n: nat)
      requires Valid()
      ensures n == if path == "" then root else Resolved(nodes, root, kids, rank, root, path, 0)
    {
      RootIn(nodes, root, kids, rank);
      if path == "" { return root; }
      n := ResolveInner(root, path, 0, kids, rank);
    }

    method ResolveParent(path: string, ghost k: Kids, ghost r: Rank) returns (n: nat)
      requires Rooted(nodes, root, k, r)
      ensures n == ParentNode(nodes, root, k, r, path)
    {
      hide Rooted, Resolved, Take, AfterSlash;
      RootIn(nodes, root, k, r);
      var buf := Take(path, PARENT_BUFFER);
      var after, i := 0, 0;
      while i < |buf|
        invariant i <= |buf| && after == AfterSlash(buf[..i])
      {
        AfterSlashStep(buf, i);
        if buf[i] == '/' { after := i + 1; }
        i := i + 1;
      }
      assert buf[..|buf|] == buf;
      if after == 0 { return root; }
      n := ResolveInner(root, buf[..after - 1], 0, k, r);
    }

    // create_node_raw, the parent pointer and add_child.
    method Hang(slot: nat, p: nat, name: string, kind: Kind, link: string)
      requires Valid() && p in kids && slot != 0 && slot !in nodes
      modifies this
      ensures Valid() && root == old(root) && slot in nodes && nodes[slot].val.name == Take(name, NAME_MAX)
      ensures Made(old(nodes), old(kids), nodes, kids, VNode(Take(name, NAME_MAX), kind, p, 0, link), slot)
    {
      hide Rooted, SameInfo, HungRank, Take;
      var v := VNode(Take(name, NAME_MAX), kind, p, 0, link);
      Hung(nodes, root, kids, rank, slot, v);
      nodes := nodes[slot := Cell(v, nodes[p].val.children)];
      nodes := nodes[p := nodes[p].(val := nodes[p].val.(children := slot))];
      assert nodes == HungNodes(old(nodes), slot, v);
      kids, rank := kids[p := [slot] + kids[p]][slot := []], HungRank(kids, rank, slot, p);
    }

    // krust_vfs_create_dir
    method CreateDir(path: string, may: (nat, nat) -> bool, slot: nat) returns (ok: bool)
      requires Valid() && (slot != 0 ==> slot !in nodes)
      modifies this
      ensures Valid() && root == old(root)
      ensures var p := ParentNode(old(nodes), old(root), old(kids), old(rank), path);
              && (ok <==> CanMake(old(nodes), old(root), old(kids), old(rank), path, true) && may(p, 6) && slot != 0)
              && (ok ==> Made(old(nodes), old(kids), nodes, kids,
                              VNode(Take(BaseName(path), NAME_MAX), Dir, p, 0, ""), slot))
              && (ok && p in kids && Plain(BaseName(path)) && |BaseName(path)| <= NAME_MAX ==>
                  Found(nodes, root, kids, rank, p, BaseName(path)) == slot)
      ensures !ok ==> nodes == old(nodes) && kids == old(kids)
    {
      hide Rooted, ParentNode, Found, BaseName, SameInfo;
      if path == "" { return false; }
      var parent := ResolveParent(path, kids, rank);
      if parent != 0 { Parent(nodes, root, kids, rank, parent); }
      if parent == 0 || nodes[parent].val.kind != Dir { return false; }
      if !may(parent, 6) { return false; }
      var name := ExtractName(path);
      if name == "" { return false; }
      var taken := FindChild(parent, name, kids, rank);
      if taken != 0 { return false; }
      if slot == 0 { return false; }
      Hang(slot, parent, name, Dir, "");
      if Plain(name) && |name| <= NAME_MAX { FoundNew(nodes, root, kids, rank, parent, name, slot); }
      return true;
    }

    // krust_vfs_create_file: a name already in use is not refused, and the data needs memory of its own.
    method CreateFile(path: string, may: (nat, nat) -> bool, slot: nat, room: bool) returns (ok: bool)
      requires Valid() && (slot != 0 ==> slot !in nodes)
      modifies this
      ensures Valid() && root == old(root)
      ensures var p := ParentNode(old(nodes), old(root), old(kids), old(rank), path);
              && (ok <==> && CanMake(old(nodes), old(root), old(kids), old(rank), path, false)
                          && may(p, 2) && slot != 0 && room)
              && (ok ==> Made(old(nodes), old(kids), nodes, kids,
                              VNode(Take(BaseName(path), NAME_MAX), File, p, 0, ""), slot))
              && (ok && p in kids && Plain(BaseName(path)) && |BaseName(path)| <= NAME_MAX ==>
                  Found(nodes, root, kids, rank, p, BaseName(path)) == slot)
      ensures !ok ==> nodes == old(nodes) && kids == old(kids)
    {
      hide Rooted, ParentNode, Found, BaseName, SameInfo;
      if path == "" { return false; }
      var parent := ResolveParent(path, kids, rank);
      if parent != 0 { Parent(nodes, root, kids, rank, parent); }
      if parent == 0 || nodes[parent].val.kind != Dir { return false; }
      if !may(parent, 2) { return false; }
      var name := ExtractName(path);
      if name == "" { return false; }
      if slot == 0 || !room { return false; }
      Hang(slot, parent, name, File, "");
      if Plain(name) && |name| <= NAME_MAX { FoundNew(nodes, root, kids, rank, parent, name, slot); }
      return true;
    }

    // krust_vfs_create_device
    method CreateDevice(path: string, slot: nat) returns (ok: bool)
      requires Valid() && (slot != 0 ==> slot !in nodes)
      modifies this
      ensures Valid() && root == old(root)
      ensures var p := ParentNode(old(nodes), old(root), old(kids), old(rank), path);
              && (ok <==> CanMake(old(nodes), old(root), old(kids), old(rank), path, true) && slot != 0)
              && (ok ==> Made(old(nodes), old(kids), nodes, kids,
                              VNode(Take(BaseName(path), NAME_MAX), Device, p, 0, ""), slot))
              && (ok && p in kids && Plain(BaseName(path)) && |BaseName(path)| <= NAME_MAX ==>
                  Found(nodes, root, kids, rank, p, BaseName(path)) == slot)
      ensures !ok ==> nodes == old(nodes) && kids == old(kids)
    {
      hide Rooted, ParentNode, Found, BaseName, SameInfo;
      if path == "" { return false; }
      var parent := ResolveParent(path, kids, rank);
      if parent != 0 { Parent(nodes, root, kids, rank, parent); }
      if parent == 0 || nodes[parent].val.kind != Dir { return false; }
      var name := ExtractName(path);
      if name == "" { return false; }
      var taken := FindChild(parent, name, kids, rank);
      if taken != 0 || slot == 0 { return false; }
      Hang(slot, parent, name, Device, "");
      if Plain(name) && |name| <= NAME_MAX { FoundNew(nodes, root, kids, rank, parent, name, slot); }
      return true;
    }

    // krust_vfs_symlink
    method MakeSymlink(target: string, path: string, may: (nat, nat) -> bool, slot: nat) returns (ok: bool)
      requires Valid() && (slot != 0 ==> slot !in nodes)
      modifies this
      ensures Valid() && root == old(root)
      ensures var p := ParentNode(old(nodes), old(root), old(kids), old(rank), path);
              && (ok <==> && target != "" && CanMake(old(nodes), old(root), old(kids), old(rank), path, true)
                          && may(p, 2) && slot != 0)
              && (ok ==> Made(old(nodes), old(kids), nodes, kids,
                              VNode(Take(BaseName(path), NAME_MAX), Symlink, p, 0, Take(target, LINK_MAX)), slot))
              && (ok && p in kids && Plain(BaseName(path)) && |BaseName(path)| <= NAME_MAX ==>
                  Found(nodes, root, kids, rank, p, BaseName(path)) == slot)
      ensures !ok ==> nodes == old(nodes) && kids == old(kids)
    {
      hide Rooted, ParentNode, Found, BaseName, SameInfo;
      if target == "" || path == "" { return false; }
      var parent := ResolveParent(path, kids, rank);
      if parent != 0 { Parent(nodes, root, kids, rank, parent); }
      if parent == 0 || nodes[parent].val.kind != Dir { return false; }
      if !may(parent, 2) { return false; }
      var name := ExtractName(path);
      if name == "" { return false; }
      var taken := FindChild(parent, name, kids, rank);
      if taken != 0 || slot == 0 { return false; }
      Hang(slot, parent, name, Symlink, Take(target, LINK_MAX));
      if Plain(name) && |name| <= NAME_MAX { FoundNew(nodes, root, kids, rank, parent, name, slot); }
      return true;
    }

    // Walking the list of p and taking x out, if it is there.
    method Detach(p: nat, x: nat)
      requires Valid() && p in kids
      modifies this`nodes
      ensures x !in kids[p] ==> nodes == old(nodes)
      ensures x in kids[p] ==> x in kids && x != root && x in old(nodes) && old(nodes)[x].val.parent == p
      ensures x in kids[p] ==> nodes == Cutout(old(nodes), root, kids, rank, x)
    {
      hide Rooted, Seg, Cutout, Before;
      ChildList(nodes, root, kids, rank, p, x);
      var prev: nat, cur := 0, nodes[p].val.children;
      ghost var first, list, n := cur, kids[p], 0;
      SegIn(nodes, first, list, 0);
      SegStart(nodes, first, list, 0);
      while cur != 0
        invariant nodes == old(nodes) && n <= |list| && cur == (if n < |list| then list[n] else 0) && x !in list[..n]
        invariant prev == if n == 0 then 0 else list[n - 1]
        decreases |list| - n
      {
        if cur == x {
          FoundHere(list, n, x);
          Skip(prev, p, x);
          return;
        }
        SegNext(nodes, first, list, 0, n);
        assert list[..n + 1] == list[..n] + [list[n]];
        prev, cur, n := cur, nodes[cur].next, n + 1;
      }
      assert list[..n] == list;
    }

    // *pp = node.next, where pp points into the parent or into the sibling before.
    method Skip(prev: nat, p: nat, x: nat)
      requires Valid() && x in kids && x != root && x in nodes && nodes[x].val.parent == p && p in kids && x in kids[p]
      requires prev == Last(Before(kids[p], x))
      modifies this`nodes
      ensures nodes == Cutout(old(nodes), root, kids, rank, x)
    {
      hide Rooted, Cutout;
      CutoutIs(nodes, root, kids, rank, x);
      if prev == 0 {
        nodes := nodes[p := nodes[p].(val := nodes[p].val.(children := nodes[x].next))];
      } else {
        nodes := nodes[prev := nodes[prev].(next := nodes[x].next)];
      }
    }

    /** krust_vfs_unlink. With an ordinary last name the node and what hangs under it leave the tree. With "." or
        ".." the node is freed while its parent still lists it, and no tree is left. */
    method Unlink(path: string, may: (nat, nat) -> bool) returns (ok: bool, ghost x: nat)
      requires Valid()
      modifies this
      ensures root == old(root)
      ensures var p := ParentNode(old(nodes), old(root), old(kids), old(rank), path);
              && x == (if p == 0 then 0 else Found(old(nodes), old(root), old(kids), old(rank), p, BaseName(path)))
              && (ok <==> path != "" && p != 0 && may(p, 6) && x != 0 && x in old(nodes)
                          && (old(nodes)[x].val.kind == File || old(nodes)[x].val.kind == Symlink))
      ensures !ok ==> nodes == old(nodes) && kids == old(kids) && Valid()
      ensures ok ==> x in old(kids) && x != root && x !in nodes
      ensures ok && Plain(BaseName(path)) ==>
                && Valid() && kids == Pruned(old(nodes), root, old(kids), old(rank), x)
                && forall n :: n in kids ==> SameInfo(old(nodes), nodes, n)
      ensures ok && !Plain(BaseName(path)) ==> forall k', r' :: !Rooted(nodes, root, k', r')
    {
      hide Rooted, ParentNode, Found, BaseName, SameInfo, Pruned, Cutout, Plain;
      var parent := ResolveParent(path, kids, rank);
      var name := ExtractName(path);
      var node := FindChild(parent, name, kids, rank);
      x := node;
      if path == "" || parent == 0 { return false, x; }
      if !may(parent, 6) { return false, x; }
      if node == 0 { return false, x; }
      Parent(nodes, root, kids, rank, node);
      if nodes[node].val.kind != File && nodes[node].val.kind != Symlink { return false, x; }
      RootIsDir(nodes, root, kids, rank);
      DotsAreNoChildren(nodes, root, kids, rank, parent, name);
      Detach(parent, node);
      if node in kids[parent] {
        CutoutTrees(old(nodes), root, kids, rank, node);
        PrunedFreed(old(nodes), root, kids, rank, node, {node});
      } else {
        forall k', r'
          ensures !Rooted(nodes - {node}, root, k', r') { StillListed(nodes, root, kids, rank, node, k', r'); }
      }
      nodes := nodes - {node};
      if Plain(name) { kids := Pruned(old(nodes), root, kids, rank, node); }
      return true, x;
    }

    // What krust_vfs_remove_node and krust_vfs_rmdir look at.
    ghost function Target(path: string): nat
      requires Valid()
      reads this
    {
      if path == "" then root else Resolved(nodes, root, kids, rank, root, path, 0)
    }

    /** krust_vfs_remove_node: the node and all under it leave the tree; its own children are freed with it. What is
        below those stays allocated, so that no node of the old tree is left behind exactly if no child of the node has
        children. */
    method RemoveNode(path: string) returns (ok: bool, ghost x: nat)
      requires Valid()
      modifies this
      ensures Valid() && root == old(root) && x == old(Target(path))
      ensures ok <==> path != "" && x != 0 && x != root
      ensures !ok ==> nodes == old(nodes) && kids == old(kids)
      ensures ok ==> && x in old(kids) && kids == Pruned(old(nodes), root, old(kids), old(rank), x)
                     && (forall n :: n in kids ==> SameInfo(old(nodes), nodes, n))
                     && nodes.Keys == old(nodes).Keys - (set c | c in old(kids)[x]) - {x}
      ensures ok ==> ((forall n :: n in old(kids) && n in nodes ==> n in kids)
                      <==> forall c :: c in old(kids)[x] && c in old(kids) ==> old(kids)[c] == [])
    {
      hide Rooted, Resolved, SameInfo, Pruned, Cutout, Goes;
      var node := ResolvePath(path);
      x := node;
      if path == "" || node == 0 || node == root { return false, x; }
      Parent(nodes, root, kids, rank, node);
      Listed(nodes, root, kids, rank, node);
      Detach(nodes[node].val.parent, node);
      KidsGo(old(nodes), root, kids, rank, node);
      AsTree(old(nodes), root, kids, rank);
      ghost var gone := FreeList(node, kids[node]);
      PrunedFreed(old(nodes), root, kids, rank, node, gone + {node});
      assert nodes - {node} == Cutout(old(nodes), root, kids, rank, node) - (gone + {node});
      nodes := nodes - {node};
      LeftBehind(old(nodes), root, kids, rank, node, nodes);
      kids := Pruned(old(nodes), root, kids, rank, node);
      return true, x;
    }

    // Freeing the cells of a list one after the other.
    method FreeList(node: nat, ghost list: seq<nat>) returns (ghost gone: set<nat>)
      requires node in nodes && Seg(nodes, nodes[node].val.children, list, 0)
      modifies this`nodes
      ensures nodes == old(nodes) - gone && gone == set c | c in list
    {
      var child := nodes[node].val.children;
      ghost var rest := list;
      gone := {};
      while child != 0
        invariant Seg(nodes, child, rest, 0) && nodes == old(nodes) - gone
        invariant gone + (set c | c in rest) == set c | c in list
        decreases |rest|
      {
        var next := nodes[child].next;
        SegFrame(nodes, nodes - {child}, next, rest[1..], 0);
        assert rest == [child] + rest[1..];
        nodes := nodes - {child};
        gone, child, rest := gone + {child}, next, rest[1..];
      }
    }

    /** krust_vfs_rmdir: an empty directory other than the root, and nothing but it. */
    method Rmdir(path: string, may: (nat, nat) -> bool) returns (ok: bool, ghost x: nat)
      requires Valid()
      modifies this
      ensures Valid() && root == old(root) && x == old(Target(path))
      ensures ok <==>
        && path != "" && x != 0 && x != root && x in old(nodes) && x in old(kids) && old(nodes)[x].val.kind == Dir
                      && may(old(nodes)[x].val.parent, 2) && old(kids)[x] == []
      ensures !ok ==> nodes == old(nodes) && kids == old(kids)
      ensures ok ==> && kids == Pruned(old(nodes), root, old(kids), old(rank), x) && kids.Keys == old(kids).Keys - {x}
                     && forall n :: n in kids ==> SameInfo(old(nodes), nodes, n)
    {
      hide Rooted, Resolved, SameInfo, Pruned, Goes;
      var node := ResolvePath(path);
      x := node;
      if path == "" || node == 0 { return false, x; }
      Parent(nodes, root, kids, rank, node);
      if nodes[node].val.kind != Dir || node == root { return false, x; }
      var parent := nodes[node].val.parent;
      if parent != 0 && !may(parent, 2) { return false, x; }
      ChildList(nodes, root, kids, rank, node, 0);
      EmptyList(nodes, node, kids[node]);
      if nodes[node].val.children != 0 { return false, x; }
      LeafAlone(nodes, root, kids, rank, node);
      CutoutTrees(nodes, root, kids, rank, node);
      var removed, _ := RemoveNode(path);
      return removed, x;
    }

    /** krust_vfs_rename. The node is taken out first and the new parent looked up in what is left, so it can never
        be under the node itself. Whether or not the move succeeds, exactly the same nodes are in the tree. */
    method Rename(oldPath: string, newPath: string, may: (nat, nat) -> bool)
      returns (ok: bool, ghost x: nat, ghost np: nat)
      requires Valid()
      modifies this
      ensures Valid() && root == old(root) && kids.Keys == old(kids).Keys
      ensures x == old(Target(oldPath))
      ensures var cut := && oldPath != "" && newPath != "" && x != 0 && x != root && x in old(nodes) && x in old(kids)
                         && may(old(nodes)[x].val.parent, 6);
              && (!cut ==> !ok && nodes == old(nodes) && kids == old(kids))
              && (cut ==>
                    var h1 := Cutout(old(nodes), root, old(kids), old(rank), x);
                    var a := Pruned(old(nodes), root, old(kids), old(rank), x);
                    var b := Goes(old(nodes), root, old(kids), old(rank), x);
                    && Rooted(h1, root, a, old(rank)) && np == ParentNode(h1, root, a, old(rank), newPath)
                    && (ok <==> np != 0 && may(np, 6))
                    && (!ok ==> && old(nodes)[x].val.parent in a && kids == Joined(a, b, old(nodes)[x].val.parent, x)
                                && Moved(old(nodes), old(kids), nodes, x, old(nodes)[x].val.parent,
                                         old(nodes)[x].val.name))
                    && (ok ==> && np in a && kids == Joined(a, b, np, x)
                               && !Under(old(nodes), root, old(kids), old(rank), x, np)
                               && Moved(old(nodes), old(kids), nodes, x, np, Take(BaseName(newPath), NAME_MAX))))
    {
      hide Rooted, Resolved, SameInfo, Pruned, Cutout, Goes, ParentNode, Moved, Under, BaseName;
      np := 0;
      var node := ResolvePath(oldPath);
      x := node;
      if oldPath == "" || newPath == "" || node == 0 || node == root { return false, x, np; }
      Parent(nodes, root, kids, rank, node);
      Listed(nodes, root, kids, rank, node);
      var oldParent := nodes[node].val.parent;
      if !may(oldParent, 6) { return false, x, np; }
      Detach(oldParent, node);
      AsTree(old(nodes), root, kids, rank);
      ghost var h := old(nodes);
      ghost var a, b := Pruned(h, root, kids, rank, node), Goes(h, root, kids, rank, node);
      CutoutTrees(h, root, kids, rank, node);
      var newParent := ResolveParent(newPath, a, rank);
      np := newParent;
      if newParent == 0 || !may(newParent, 6) {
        SameName(h, nodes, node);
        Rehung(h, root, kids, rank, node, oldParent, h[node].val.name);
        AddChild(oldParent, node, nodes[node].val.name);
        kids, rank := Joined(a, b, oldParent, node), Raised(a, b, rank, oldParent);
        return false, x, np;
      }
      var newName := ExtractName(newPath);
      Rehung(h, root, kids, rank, node, newParent, Take(newName, NAME_MAX));
      AddChild(newParent, node, Take(newName, NAME_MAX));
      kids, rank := Joined(a, b, newParent, node), Raised(a, b, rank, newParent);
      return true, x, np;
    }

    // The node's name and parent, and add_child.
    method AddChild(p: nat, x: nat, name: string)
      requires p in nodes && x in nodes && p != x
      modifies this`nodes
      ensures nodes == Linked(old(nodes), p, x, name)
    {
      nodes := nodes[x := Cell(nodes[x].val.(name := name, parent := p), nodes[p].val.children)];
      nodes := nodes[p := nodes[p].(val := nodes[p].val.(children := x))];
    }
  }
}
