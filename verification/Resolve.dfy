/** What a path names (kernel/src/fs/vfs.rs): the recursion of resolve_path_inner over a tree, and the same as a walk
    over the names in the path. */
module Resolve {
  import opened Chains
  import opened Paths
  import opened VfsTree

  const DEPTH_MAX: nat := 5

  ghost predicate Rooted(h: Nodes, root: nat, kids: Kids, rank: Rank) {
    Tree(h, root, kids, rank) && root in h && h[root].val.parent == root && h[root].val.kind == Dir
  }

  lemma Parent(h: Nodes, root: nat, kids: Kids, rank: Rank, n: nat)
    requires Rooted(h, root, kids, rank) && n in kids
    ensures n in h && n != 0 && h[n].val.parent in kids && h[n].val.parent != 0
  {
    NonNull(h, root, kids, rank, n);
    NonNull(h, root, kids, rank, h[n].val.parent);
  }

  function FirstNamed(h: Nodes, cs: seq<nat>, name: string): (r: nat)
    ensures r == 0 || (r in cs && r in h && h[r].val.name == name)
  {
    if cs == [] then 0
    else if cs[0] in h && h[cs[0]].val.name == name then cs[0]
    else FirstNamed(h, cs[1..], name)
  }

  // find_child in a directory of the tree
  ghost function Found(h: Nodes, root: nat, kids: Kids, rank: Rank, dir: nat, name: string): (r: nat)
    requires Rooted(h, root, kids, rank) && dir in kids
    ensures r == 0 || r in kids
  {
    Parent(h, root, kids, rank, dir);
    NodeAt(h, root, kids, rank, dir);
    assert forall c :: c in kids[dir] ==> ChildOk(h, root, kids, rank, dir, c);
    if name == "." then dir
    else if name == ".." then h[dir].val.parent
    else FirstNamed(h, kids[dir], name)
  }

  // The target of a link with the rest of the path behind it, as much as fits in the buffer.
  function Spliced(link: string, rest: string): string {
    var t := Take(link, LINK_MAX);
    t + Take(rest, BUFFER_MAX - |t|)
  }

  function IsAbsolute(link: string): bool { link != "" && link[0] == '/' }

  /** resolve_path_inner: 0 or a node of the tree, whatever the links point at. */
  ghost function Resolved(h: Nodes, root: nat, kids: Kids, rank: Rank, base: nat, path: string, depth: nat): (r: nat)
    requires Rooted(h, root, kids, rank) && base in kids
    ensures r == 0 || r in kids
    decreases DEPTH_MAX + 1 - depth, |path|
  {
    if depth > DEPTH_MAX then 0 else
    var q := SkipSlashes(path);
    if q == "" then base else
    var s := Segment(q);
    if |s| > SEGMENT_MAX then 0 else
    var c := Found(h, root, kids, rank, base, s);
    if c == 0 then 0 else
    Parent(h, root, kids, rank, c);
    if h[c].val.kind == Symlink then
      var from := if IsAbsolute(h[c].val.link) then root else base;
      Resolved(h, root, kids, rank, from, Spliced(h[c].val.link, q[|s|..]), depth + 1)
    else
      Resolved(h, root, kids, rank, c, q[|s|..], depth)
  }

  // The walk over names: a link puts the names of its target in front of those still to come.
  ghost function Walk(h: Nodes, root: nat, kids: Kids, rank: Rank, base: nat, cs: seq<string>, depth: nat): (r: nat)
    requires Rooted(h, root, kids, rank) && base in kids
    ensures r == 0 || r in kids
    decreases DEPTH_MAX + 1 - depth, |cs|
  {
    if depth > DEPTH_MAX then 0
    else if cs == [] then base
    else if |cs[0]| > SEGMENT_MAX then 0 else
    var c := Found(h, root, kids, rank, base, cs[0]);
    if c == 0 then 0 else
    Parent(h, root, kids, rank, c);
    if h[c].val.kind == Symlink then
      var from := if IsAbsolute(h[c].val.link) then root else base;
      Walk(h, root, kids, rank, from, Components(h[c].val.link) + cs[1..], depth + 1)
    else
      Walk(h, root, kids, rank, c, cs[1..], depth)
  }

  // Every link met on the way, and the path behind it, fit their buffers.
  ghost predicate SplicesFit(h: Nodes, root: nat, kids: Kids, rank: Rank, base: nat, path: string, depth: nat)
    requires Rooted(h, root, kids, rank) && base in kids
    decreases DEPTH_MAX + 1 - depth, |path|
  {
    var q := SkipSlashes(path);
    if depth > DEPTH_MAX || q == "" || |Segment(q)| > SEGMENT_MAX then true else
    var s := Segment(q);
    var c := Found(h, root, kids, rank, base, s);
    if c == 0 then true else
    Parent(h, root, kids, rank, c);
    if h[c].val.kind == Symlink then
      var link := h[c].val.link;
      && |link| <= LINK_MAX && |link| + |q| - |s| <= BUFFER_MAX
      && SplicesFit(h, root, kids, rank, if IsAbsolute(link) then root else base, link + q[|s|..], depth + 1)
    else
      SplicesFit(h, root, kids, rank, c, q[|s|..], depth)
  }

  /** Scanning the string, with links spliced in through a 510-byte buffer, is the walk over its names as long as no
      splice on the way is cut. Paths that meet no link may be of any length. */
  lemma {:induction false} ResolvedIsWalk(h: Nodes, root: nat, kids: Kids, rank: Rank, base: nat, path: string,
                                          depth: nat)
    requires Rooted(h, root, kids, rank) && base in kids && SplicesFit(h, root, kids, rank, base, path, depth)
    ensures Resolved(h, root, kids, rank, base, path, depth)
            == Walk(h, root, kids, rank, base, Components(path), depth)
    decreases DEPTH_MAX + 1 - depth, |path|
  {
    hide Rooted, Found, Segment, SkipSlashes, IsAbsolute, Components, Take;
    var q := SkipSlashes(path);
    ComponentsStep(path);
    if depth <= DEPTH_MAX && q != "" && |Segment(q)| <= SEGMENT_MAX {
      var s := Segment(q);
      var rest := q[|s|..];
      var c := Found(h, root, kids, rank, base, s);
      if c == 0 {
      } else {
        Parent(h, root, kids, rank, c);
        if h[c].val.kind == Symlink {
          var link := h[c].val.link;
          ComponentsConcat(link, rest);
          RootIn(h, root, kids, rank);
          ResolvedIsWalk(h, root, kids, rank, if IsAbsolute(link) then root else base, link + rest, depth + 1);
        } else {
          ResolvedIsWalk(h, root, kids, rank, c, rest, depth);
        }
      }
    }
  }

  lemma RootIn(h: Nodes, root: nat, kids: Kids, rank: Rank)
    requires Rooted(h, root, kids, rank)
    ensures root in kids && root in h && root != 0
  {
  }

  // resolve_parent
  ghost function ParentNode(h: Nodes, root: nat, kids: Kids, rank: Rank, path: string): (r: nat)
    requires Rooted(h, root, kids, rank)
    ensures r == 0 || r in kids
  {
    var buf := Take(path, 255);
    if AfterSlash(buf) == 0 then root else Resolved(h, root, kids, rank, root, buf[..AfterSlash(buf) - 1], 0)
  }

  // ---------------------------------------------------------------- a splice that is cut

  function Slashes(n: nat): (p: string)
    ensures |p| == n && forall i :: 0 <= i < n ==> p[i] == '/'
  {
    seq(n, _ => '/')
  }

  lemma {:induction false} SlashesSkip(n: nat, p: string)
    ensures SkipSlashes(Slashes(n) + p) == SkipSlashes(p)
  {
    if n == 0 {
      assert Slashes(n) + p == p;
    } else {
      assert (Slashes(n) + p)[1..] == Slashes(n - 1) + p;
      SlashesSkip(n - 1, p);
    }
  }

  lemma SegmentOfName(c: char, p: string)
    requires c != '/' && (p == "" || p[0] == '/')
    ensures SkipSlashes([c] + p) == [c] + p && Segment([c] + p) == [c] && ([c] + p)[1..] == p
  {
    assert ([c] + p)[1..] == p;
    assert Segment(p) == "";
  }

  // The path "l", 510 slashes, "x".
  function CutPath(): string { ['l'] + (Slashes(BUFFER_MAX) + ['x']) }

  lemma CutPathNames()
    ensures Components(CutPath()) == ["l", "x"]
  {
    SegmentOfName('l', Slashes(BUFFER_MAX) + ['x']);
    ComponentsStep(CutPath());
    SlashesSkip(BUFFER_MAX, ['x']);
    SegmentOfName('x', "");
    assert ['x'] + [] == ['x'];
    ComponentsStep(Slashes(BUFFER_MAX) + ['x']);
    ComponentsStep("");
  }

  /** In every tree whose root holds a link "l" to "." and a node "x": the path names x, but the code arrives at the
      root, since the last name no longer fits behind the link. */
  lemma CutSpliceMisnames(h: Nodes, root: nat, kids: Kids, rank: Rank, l: nat, x: nat)
    requires Rooted(h, root, kids, rank) && root in kids
    requires l == Found(h, root, kids, rank, root, "l") != 0 && l in h && h[l].val.kind == Symlink
    requires h[l].val.link == "."
    requires x == Found(h, root, kids, rank, root, "x") != 0 && x in h && h[x].val.kind != Symlink
    ensures Walk(h, root, kids, rank, root, Components(CutPath()), 0) == x
    ensures Resolved(h, root, kids, rank, root, CutPath(), 0) == root
  {
    hide Rooted, Take, Slashes, Components, FirstNamed;
    CutPathNames();
    Dots(h, root, kids, rank);
    Parent(h, root, kids, rank, root);
    var rest := Slashes(BUFFER_MAX) + ['x'];
    SegmentOfName('l', rest);
    CutTail();
    assert Resolved(h, root, kids, rank, root, CutPath(), 0)
           == Resolved(h, root, kids, rank, root, ['.'] + Slashes(BUFFER_MAX - 1), 1);
    SegmentOfName('.', Slashes(BUFFER_MAX - 1));
    SlashesSkip(BUFFER_MAX - 1, "");
    assert Slashes(BUFFER_MAX - 1) + [] == Slashes(BUFFER_MAX - 1);
    assert Resolved(h, root, kids, rank, root, Slashes(BUFFER_MAX - 1), 1) == root;
    WalkTwo(h, root, kids, rank, l, x);
  }

  lemma CutTail()
    ensures Spliced(".", Slashes(BUFFER_MAX) + ['x']) == ['.'] + Slashes(BUFFER_MAX - 1)
  {
    assert Take(Slashes(BUFFER_MAX) + ['x'], BUFFER_MAX - 1) == Slashes(BUFFER_MAX - 1);
  }

  lemma Dots(h: Nodes, root: nat, kids: Kids, rank: Rank)
    requires Rooted(h, root, kids, rank) && root in kids
    ensures Found(h, root, kids, rank, root, ".") == root && root in h && h[root].val.kind != Symlink
  {
  }

  lemma WalkTwo(h: Nodes, root: nat, kids: Kids, rank: Rank, l: nat, x: nat)
    requires Rooted(h, root, kids, rank) && root in kids && Found(h, root, kids, rank, root, ".") == root
    requires root in h && h[root].val.kind != Symlink && root != 0
    requires l == Found(h, root, kids, rank, root, "l") != 0 && l in h && h[l].val.kind == Symlink
    requires h[l].val.link == "."
    requires x == Found(h, root, kids, rank, root, "x") != 0 && x in h && h[x].val.kind != Symlink
    ensures Walk(h, root, kids, rank, root, ["l", "x"], 0) == x
  {
    hide Rooted, Found, Components;
    SegmentOfName('.', "");
    ComponentsStep(".");
    ComponentsStep("");
    assert ['.'] + [] == ".";
    assert Components(".") == ["."];
    assert ["l", "x"][1..] == ["x"] && ["."] + ["x"] == [".", "x"] && [".", "x"][1..] == ["x"] && ["x"][1..] == [];
    assert Walk(h, root, kids, rank, x, [], 1) == x;
    assert Walk(h, root, kids, rank, root, ["x"], 1) == x;
    assert Walk(h, root, kids, rank, root, [".", "x"], 1) == x;
  }

  // ---------------------------------------------------------------- a small tree

  // Node 1 is the root; it holds the link "l" to "." and the file "x".
  function SmallNodes(): Nodes {
    map[1 := Cell(VNode("", Dir, 1, 2, ""), 0), 2 := Cell(VNode("l", Symlink, 1, 0, "."), 3),
        3 := Cell(VNode("x", File, 1, 0, ""), 0)]
  }

  function SmallKids(): Kids { map[1 := [2, 3], 2 := [], 3 := []] }

  function SmallRank(): Rank { map[1 := 0, 2 := 1, 3 := 1] }

  lemma SmallTree()
    ensures Rooted(SmallNodes(), 1, SmallKids(), SmallRank()) && 1 in SmallKids()
    ensures Found(SmallNodes(), 1, SmallKids(), SmallRank(), 1, "l") == 2
    ensures Found(SmallNodes(), 1, SmallKids(), SmallRank(), 1, "x") == 3
  {
    var h, kids, rank := SmallNodes(), SmallKids(), SmallRank();
    var two: seq<nat> := [2, 3];
    assert two[1..] == [3] && two[1..][1..] == [];
    assert Seg(h, 0, [], 0) && Seg(h, 3, [3], 0) && Seg(h, 2, two, 0);
    assert NodeOk(h, 1, kids, rank, 1) && NodeOk(h, 1, kids, rank, 2) && NodeOk(h, 1, kids, rank, 3);
    assert FirstNamed(h, [3], "x") == 3;
    assert FirstNamed(h, two, "l") == 2 && FirstNamed(h, two, "x") == 3;
  }

  lemma SmallTreeMisnamed()
    ensures Rooted(SmallNodes(), 1, SmallKids(), SmallRank()) && 1 in SmallKids()
    ensures Walk(SmallNodes(), 1, SmallKids(), SmallRank(), 1, Components(CutPath()), 0) == 3
    ensures Resolved(SmallNodes(), 1, SmallKids(), SmallRank(), 1, CutPath(), 0) == 1
  {
    hide Rooted, Found, Walk, Resolved, Components, CutPath;
    SmallTree();
    CutSpliceMisnames(SmallNodes(), 1, SmallKids(), SmallRank(), 2, 3);
  }
}
