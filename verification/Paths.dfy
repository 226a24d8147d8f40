/** Path strings as vfs.rs reads them: character by character, into buffers of fixed size. */
module Paths {
  const SEGMENT_MAX: nat := 63
  const LINK_MAX: nat := 255
  const BUFFER_MAX: nat := 510

  function Take(s: string, n: nat): (r: string)
    ensures |r| <= n && r <= s && (|s| <= n ==> r == s)
  {
    if |s| <= n then s else s[..n]
  }

  function SkipSlashes(p: string): (q: string)
    ensures |q| <= |p| && (q != "" ==> q[0] != '/')
  {
    if p != "" && p[0] == '/' then SkipSlashes(p[1..]) else p
  }

  // Up to the next slash.
  function Segment(p: string): (s: string)
    ensures s <= p && '/' !in s && (|s| < |p| ==> p[|s|] == '/')
  {
    if p == "" || p[0] == '/' then "" else [p[0]] + Segment(p[1..])
  }

  // The names between the slashes, empty ones dropped.
  function Components(p: string): (cs: seq<string>)
    ensures forall c :: c in cs ==> c != "" && '/' !in c
    decreases |p|
  {
    var q := SkipSlashes(p);
    if q == "" then [] else [Segment(q)] + Components(q[|Segment(q)|..])
  }

  lemma ComponentsStep(p: string)
    ensures var q := SkipSlashes(p);
            Components(p) == if q == "" then [] else [Segment(q)] + Components(q[|Segment(q)|..])
  {
  }

  lemma {:induction false} SegmentConcat(t: string, p: string)
    requires p == "" || p[0] == '/'
    ensures Segment(t + p) == Segment(t)
  {
    if t == "" {
      assert t + p == p;
    } else {
      assert (t + p)[1..] == t[1..] + p;
      if t[0] != '/' { SegmentConcat(t[1..], p); }
    }
  }

  lemma {:induction false} SkipConcat(t: string, p: string)
    ensures SkipSlashes(t + p) == if SkipSlashes(t) == "" then SkipSlashes(p) else SkipSlashes(t) + p
  {
    if t == "" {
      assert t + p == p;
    } else if t[0] == '/' {
      assert (t + p)[1..] == t[1..] + p;
      SkipConcat(t[1..], p);
    }
  }

  lemma SegmentNotEmpty(p: string)
    requires p != "" && p[0] != '/'
    ensures |Segment(p)| > 0
  {
  }

  lemma SegmentStep(p: string)
    requires p != "" && p[0] != '/'
    ensures Segment(p) == [p[0]] + Segment(p[1..])
  {
  }

  lemma {:induction false} ComponentsConcat(t: string, p: string)
    requires p == "" || p[0] == '/'
    ensures Components(t + p) == Components(t) + Components(p)
    decreases |t|
  {
    hide Components, Segment, SkipSlashes;
    SkipConcat(t, p);
    ComponentsStep(t + p);
    ComponentsStep(t);
    var q := SkipSlashes(t);
    if q == "" {
      ComponentsStep(p);
    } else {
      SegmentConcat(q, p);
      var s := Segment(q);
      SegmentNotEmpty(q);
      assert (q + p)[|s|..] == q[|s|..] + p;
      ComponentsConcat(q[|s|..], p);
      assert [s] + (Components(q[|s|..]) + Components(p)) == [s] + Components(q[|s|..]) + Components(p);
    }
  }

  // The position after the last slash, 0 if there is none.
  function AfterSlash(p: string): (i: nat)
    ensures i <= |p| && '/' !in p[i..] && (i > 0 ==> p[i - 1] == '/') && (i == 0 <==> '/' !in p)
  {
    if p == "" then 0
    else if p[|p| - 1] == '/' then |p|
    else
      var i := AfterSlash(p[..|p| - 1]);
      assert p[i..] == p[..|p| - 1][i..] + [p[|p| - 1]];
      assert p == p[..|p| - 1] + [p[|p| - 1]];
      i
  }

  // extract_name
  function BaseName(p: string): string { p[AfterSlash(p)..] }

  lemma AfterSlashStep(p: string, i: nat)
    requires i < |p|
    ensures AfterSlash(p[..i + 1]) == if p[i] == '/' then i + 1 else AfterSlash(p[..i])
  {
    assert p[..i + 1][..i] == p[..i];
  }

  method ExtractName(p: string) returns (name: string)
    ensures name == BaseName(p)
  {
    var start, i := 0, 0;
    while i < |p|
      invariant i <= |p| && start == AfterSlash(p[..i])
    {
      AfterSlashStep(p, i);
      if p[i] == '/' { start := i + 1; }
      i := i + 1;
    }
    assert p[..|p|] == p;
    name := p[start..];
  }

  lemma SkipStep(p: string, i: nat)
    requires i < |p|
    ensures p[i] == '/' ==> SkipSlashes(p[i..]) == SkipSlashes(p[i + 1..])
    ensures p[i] != '/' ==> SkipSlashes(p[i..]) == p[i..]
  {
    assert p[i..][1..] == p[i + 1..];
  }

  lemma {:induction false} SegmentPrefix(s: string, p: string)
    requires '/' !in s && s <= p
    ensures Segment(p) == s + Segment(p[|s|..])
  {
    hide Segment;
    if s == "" {
      assert p[|s|..] == p && s + Segment(p) == Segment(p);
    } else {
      assert s[0] == p[0] && s[0] in s;
      SegmentStep(p);
      SegmentPrefix(s[1..], p[1..]);
      assert p[1..][|s[1..]|..] == p[|s|..];
      assert [s[0]] + (s[1..] + Segment(p[|s|..])) == s + Segment(p[|s|..]);
    }
  }

  /** The two scanning loops of resolve_path_inner: the first name and what follows it, or no name, or a name too
      long for its buffer. */
  method NextSegment(path: string) returns (segment: string, rest: string, tooLong: bool)
    ensures SkipSlashes(path) == "" ==> segment == "" && !tooLong
    ensures SkipSlashes(path) != "" ==> segment != ""
    ensures tooLong <==> |Segment(SkipSlashes(path))| > SEGMENT_MAX
    ensures !tooLong ==> segment == Segment(SkipSlashes(path)) && rest == SkipSlashes(path)[|segment|..]
  {
    hide SkipSlashes, Segment;
    var q := SkipAll(path);
    segment, rest, tooLong := "", "", false;
    if q == "" { return; }
    segment, rest, tooLong := ReadName(q);
  }

  method SkipAll(path: string) returns (q: string)
    ensures q == SkipSlashes(path)
  {
    var p := 0;
    assert path[0..] == path;
    while p < |path| && path[p] == '/'
      invariant p <= |path| && SkipSlashes(path) == SkipSlashes(path[p..])
    {
      SkipStep(path, p);
      p := p + 1;
    }
    if p < |path| { SkipStep(path, p); }
    q := path[p..];
  }

  method ReadName(q: string) returns (segment: string, rest: string, tooLong: bool)
    requires q != "" && q[0] != '/'
    ensures segment != "" && (tooLong <==> |Segment(q)| > SEGMENT_MAX)
    ensures !tooLong ==> segment == Segment(q) && rest == q[|segment|..]
  {
    hide Segment;
    var p := 0;
    segment, tooLong := "", false;
    while p < |q| && q[p] != '/'
      invariant p <= |q| && segment == q[..p] && '/' !in segment && p <= SEGMENT_MAX && (p == 0 ==> q[p] != '/')
    {
      assert q[..p + 1] == segment + [q[p]];
      if |segment| >= SEGMENT_MAX {
        SegmentPrefix(q[..p + 1], q);
        return segment, "", true;
      }
      segment := segment + [q[p]];
      p := p + 1;
    }
    SegmentPrefix(segment, q);
    SegmentEnds(q[p..]);
    rest := q[p..];
  }

  lemma SegmentEnds(q: string)
    requires q == "" || q[0] == '/'
    ensures Segment(q) == ""
  {
  }
}
