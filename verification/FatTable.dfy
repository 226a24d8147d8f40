/** The file allocation table as a sequence of 28-bit entries (kernel/src/fs/fat32.rs): chains of clusters linked
    through their entries, allocated, extended and freed. */
module FatTable {
  const END_OF_CHAIN: nat := 0x0FFF_FFF8
  const FREE: nat := 0
  const ENTRY_LIMIT: nat := 0x1000_0000

  // The last entry of a chain as free_chain sees it.
  predicate Stops(n: nat) { n >= END_OF_CHAIN || n < 2 }

  function Used(f: seq<nat>): (n: nat)
    ensures n <= |f|
  {
    if f == [] then 0 else (if f[0] != FREE then 1 else 0) + Used(f[1..])
  }

  lemma {:induction false} UsedDrops(f: seq<nat>, c: nat)
    requires c < |f| && f[c] != FREE
    ensures Used(f[c := FREE]) == Used(f) - 1
  {
    if c == 0 {
      assert f[c := FREE][1..] == f[1..];
    } else {
      assert f[c := FREE][1..] == f[1..][c - 1 := FREE];
      UsedDrops(f[1..], c - 1);
    }
  }

  // ---------------------------------------------------------------- following links

  // A walk along the links of f, from its first cluster to its last.
  ghost predicate Path(f: seq<nat>, p: seq<nat>) {
    && p != [] && (forall i :: 0 <= i < |p| ==> p[i] < |f|)
    && (forall i :: 0 <= i < |p| - 1 ==> !Stops(f[p[i]]) && f[p[i]] == p[i + 1])
  }

  ghost predicate PathFromTo(f: seq<nat>, p: seq<nat>, from: nat, to: nat) {
    Path(f, p) && p[0] == from && p[|p| - 1] == to
  }

  ghost predicate Reaches(f: seq<nat>, from: nat, to: nat) { exists p :: PathFromTo(f, p, from, to) }

  lemma ReachesSelf(f: seq<nat>, c: nat)
    requires c < |f|
    ensures Reaches(f, c, c)
  {
    assert PathFromTo(f, [c], c, c);
  }

  // Freeing `from` cuts every walk that comes back to it.
  lemma {:induction false} PathAround(f: seq<nat>, from: nat, p: seq<nat>, to: nat)
    requires PathFromTo(f, p, from, to) && to != from
    ensures !Stops(f[from]) && Reaches(f[from := FREE], f[from], to)
    decreases |p|
  {
    assert |p| > 1 && !Stops(f[p[0]]) && f[p[0]] == p[1];
    if j :| 1 <= j < |p| && p[j] == from {
      assert Path(f, p[j..]) by {
        forall i | 0 <= i < |p[j..]| - 1 ensures !Stops(f[p[j..][i]]) && f[p[j..][i]] == p[j..][i + 1] {
          assert p[j..][i] == p[j + i] && p[j..][i + 1] == p[j + i + 1];
        }
      }
      assert p[j..][|p[j..]| - 1] == p[|p| - 1];
      PathAround(f, from, p[j..], to);
    } else {
      var q := p[1..];
      forall i | 0 <= i < |q| - 1 ensures !Stops(f[from := FREE][q[i]]) && f[from := FREE][q[i]] == q[i + 1] {
        assert q[i] == p[i + 1] && q[i + 1] == p[i + 2];
      }
      assert q[|q| - 1] == p[|p| - 1];
      assert PathFromTo(f[from := FREE], q, f[from], to);
    }
  }

  lemma PathThrough(f: seq<nat>, from: nat, to: nat)
    requires from < |f| && !Stops(f[from]) && Reaches(f[from := FREE], f[from], to)
    ensures Reaches(f, from, to)
  {
    var g := f[from := FREE];
    var p :| PathFromTo(g, p, f[from], to);
    var q := [from] + p;
    forall i | 0 <= i < |q| - 1 ensures !Stops(f[q[i]]) && f[q[i]] == q[i + 1] {
      if i > 0 { assert q[i] == p[i - 1] && q[i + 1] == p[i]; }
    }
    assert q[|q| - 1] == p[|p| - 1];
    assert PathFromTo(f, q, from, to);
  }

  /** What can be reached from a cluster is itself and what its link can reach with its own entry freed. */
  lemma ReachesStep(f: seq<nat>, from: nat, to: nat)
    requires from < |f|
    ensures Reaches(f, from, to) <==> to == from || (!Stops(f[from]) && Reaches(f[from := FREE], f[from], to))
  {
    if to == from {
      ReachesSelf(f, from);
    } else {
      if Reaches(f, from, to) {
        var p :| PathFromTo(f, p, from, to);
        PathAround(f, from, p, to);
      }
      if !Stops(f[from]) && Reaches(f[from := FREE], f[from], to) { PathThrough(f, from, to); }
    }
  }

  // ---------------------------------------------------------------- freeing

  // Exactly the clusters `start` reaches are freed.
  ghost predicate Freed(f: seq<nat>, f': seq<nat>, start: nat) {
    && |f'| == |f|
    && forall c :: 0 <= c < |f| ==> f'[c] == if Reaches(f, start, c) then FREE else f[c]
  }

  lemma FreedEnd(f: seq<nat>, start: nat)
    requires start < |f| && Stops(f[start])
    ensures Freed(f, f[start := FREE], start)
  {
    forall c | 0 <= c < |f|
      ensures f[start := FREE][c] == if Reaches(f, start, c) then FREE else f[c] { ReachesStep(f, start, c); }
  }

  lemma FreedMore(f: seq<nat>, f': seq<nat>, start: nat)
    requires start < |f| && !Stops(f[start]) && Freed(f[start := FREE], f', f[start])
    ensures Freed(f, f', start)
  {
    forall c | 0 <= c < |f| ensures f'[c] == if Reaches(f, start, c) then FREE else f[c] { ReachesStep(f, start, c); }
  }

  // ---------------------------------------------------------------- chains

  // Distinct clusters, each linked to the next, the last one marked as the end.
  ghost predicate Chain(f: seq<nat>, cs: seq<nat>) {
    && (forall i :: 0 <= i < |cs| ==> 2 <= cs[i] < |f| && cs[i] < END_OF_CHAIN)
    && (forall i, j :: 0 <= i < j < |cs| ==> cs[i] != cs[j])
    && (forall i :: 0 <= i < |cs| - 1 ==> f[cs[i]] == cs[i + 1])
    && (cs != [] ==> f[cs[|cs| - 1]] >= END_OF_CHAIN)
  }

  lemma {:induction false} PathInChain(f: seq<nat>, cs: seq<nat>, p: seq<nat>, k: nat)
    requires Chain(f, cs) && cs != [] && Path(f, p) && p[0] == cs[0] && k < |p|
    ensures k < |cs| && p[k] == cs[k]
  {
    if k == 0 {
    } else {
      PathInChain(f, cs, p, k - 1);
      assert !Stops(f[p[k - 1]]) && f[p[k - 1]] == p[k - 1 + 1];
      assert k - 1 < |cs| - 1;
    }
  }

  lemma ChainIsPath(f: seq<nat>, cs: seq<nat>, k: nat)
    requires Chain(f, cs) && k < |cs|
    ensures Reaches(f, cs[0], cs[k])
  {
    var p := cs[..k + 1];
    forall i | 0 <= i < |p| - 1 ensures !Stops(f[p[i]]) && f[p[i]] == p[i + 1] { assert f[cs[i]] == cs[i + 1]; }
    assert PathFromTo(f, p, cs[0], cs[k]);
  }

  /** Freeing a chain from its first cluster frees its clusters and no others. */
  lemma ChainFreed(f: seq<nat>, cs: seq<nat>, f': seq<nat>)
    requires Chain(f, cs) && cs != [] && Freed(f, f', cs[0])
    ensures |f'| == |f| && forall c :: 0 <= c < |f| ==> f'[c] == if c in cs then FREE else f[c]
  {
    forall c | 0 <= c < |f| ensures Reaches(f, cs[0], c) <==> c in cs {
      if Reaches(f, cs[0], c) {
        var p :| PathFromTo(f, p, cs[0], c);
        PathInChain(f, cs, p, |p| - 1);
      }
      if c in cs {
        var k :| 0 <= k < |cs| && cs[k] == c;
        ChainIsPath(f, cs, k);
      }
    }
  }

  /** A chain that shares no cluster with what is freed survives. */
  lemma OtherChainKept(f: seq<nat>, f': seq<nat>, cs: seq<nat>, ds: seq<nat>)
    requires Chain(f, cs) && cs != [] && Freed(f, f', cs[0]) && Chain(f, ds) && forall c :: c in cs ==> c !in ds
    ensures Chain(f', ds)
  {
    ChainFreed(f, cs, f');
    assert forall i :: 0 <= i < |ds| ==> ds[i] in ds;
  }

  // ---------------------------------------------------------------- building a chain

  // f is f0 with the clusters cs, all free before, linked into a chain.
  ghost predicate Grown(f0: seq<nat>, f: seq<nat>, cs: seq<nat>) {
    && |f| == |f0| && Chain(f, cs) && (forall c :: 0 <= c < |f| && c !in cs ==> f[c] == f0[c])
    && forall c :: c in cs ==> c < |f0| && f0[c] == FREE
  }

  lemma ChainNotFree(f: seq<nat>, cs: seq<nat>, k: nat)
    requires Chain(f, cs) && k < |cs|
    ensures f[cs[k]] != FREE
  {
    assert k < |cs| - 1 ==> f[cs[k]] == cs[k + 1];
  }

  // The next cluster: marked as the end, then linked from the one before.
  lemma GrownMore(f0: seq<nat>, f: seq<nat>, cs: seq<nat>, c: nat)
    requires Grown(f0, f, cs) && 2 <= c < |f| && c < END_OF_CHAIN && f[c] == FREE
    ensures cs != [] ==> cs[|cs| - 1] < |f|
    ensures var f1 := f[c := END_OF_CHAIN];
            Grown(f0, if cs == [] then f1 else f1[cs[|cs| - 1] := c], cs + [c])
  {
    var f1 := f[c := END_OF_CHAIN];
    var f' := if cs == [] then f1 else f1[cs[|cs| - 1] := c];
    forall k | 0 <= k < |cs| ensures cs[k] != c { ChainNotFree(f, cs, k); }
    var ds := cs + [c];
    assert forall i :: 0 <= i < |cs| ==> ds[i] == cs[i] && cs[i] in cs;
    forall i | 0 <= i < |ds| - 1 ensures f'[ds[i]] == ds[i + 1] {
      if i < |cs| - 1 { assert f[cs[i]] == cs[i + 1]; }
    }
  }

  /** Giving up half-way leaves the table as it was. */
  lemma Restored(f0: seq<nat>, f: seq<nat>, cs: seq<nat>, f': seq<nat>)
    requires Grown(f0, f, cs) && cs != [] && Freed(f, f', cs[0])
    ensures f' == f0
  {
    ChainFreed(f, cs, f');
  }
}
