/** Requests made to measure: for every node there is one that the walk follows to it. */
module Requests {
  import opened Paths
  import opened Patterns
  import opened Index
  import opened Walk
  import opened Routing

  /** A segment that no node is filed under. */
  ghost predicate Fresh(idx: Index, x: Segment)
  {
    x != "" && x != STAR && x != GLOB && forall p | p in idx :: x !in p
  }

  lemma {:induction false} LongestIn(p: Path) returns (n: nat)
    ensures forall s | s in p :: |s| <= n
  {
    n := 0;
    if p != [] {
      var m := LongestIn(p[1..]);
      n := if |p[0]| > m then |p[0]| else m;
    }
  }

  lemma {:induction false} LongestAmong(paths: set<Path>) returns (n: nat)
    ensures forall p, s | p in paths && s in p :: |s| <= n
  {
    n := 0;
    if paths != {} {
      var p :| p in paths;
      var m := LongestIn(p);
      var k := LongestAmong(paths - {p});
      n := if m > k then m else k;
    }
  }

  lemma FreshExists(idx: Index) returns (x: Segment)
    ensures Fresh(idx, x)
  {
    var n := LongestAmong(idx.Keys);
    x := seq(n + 3, _ => 'x');
    assert |x| == n + 3;
  }

  lemma ChildIsNotFresh(idx: Index, x: Segment, p: Path)
    requires Fresh(idx, x)
    ensures !Child(idx, p, x)
  {
    assert (p + [x])[|p|] == x;
  }

  /** A walk never leaves the subtree it has reached. */
  lemma {:induction false} RunExtends(idx: Index, segments: Path, st: State)
    requires st.pos >= 1
    ensures st.node <= Run(idx, segments, st).node
    decreases |segments| + 1 - st.pos
  {
    if Step(idx, segments, st).Next? { RunExtends(idx, segments, Step(idx, segments, st).state); }
  }

  /** A request spelled like the path of a node is followed to it. */
  lemma {:induction false} FollowsKeys(idx: Index, segments: Path, p: Path, k: nat) returns (st: State)
    requires PrefixClosed(idx) && p in idx && "" !in p && p <= segments && k <= |p|
    ensures st.node == p[..k] && st.pos == k + 1 && !st.all
    ensures Route(idx, segments) == Run(idx, segments, st)
  {
    if k == 0 {
      st := START;
    } else {
      var before := FollowsKeys(idx, segments, p, k - 1);
      PrefixInIndex(idx, p, k);
      assert p[..k] == p[..k-1] + [p[k-1]];
      assert p[k-1] in p && Child(idx, before.node, p[k-1]);
      st := Step(idx, segments, before).state;
    }
  }

  // ----- Requests without empty and `**` segments

  predicate Usable(request: Path)
  {
    "" !in request && GLOB !in request
  }

  lemma EffectiveWhole(request: Path)
    requires "" !in request
    ensures Effective(request) == request
  {
    hide Effective;
    var r := Effective(request);
    assert forall k | 0 <= k < |request| :: request[k] in request;
    assert |r| == |request|;
    assert r == request[..|r|];
  }

  ghost predicate NoEmptyKeys(idx: Index)
  {
    forall p | p in idx :: "" !in p
  }

  /** Of the children with a key of their own, none is preferred to the one under `key`. */
  ghost predicate Preferred(idx: Index, p: Path, key: Segment)
  {
    forall c | Child(idx, p, c) && c != "" :: Rank(key) <= Rank(c)
  }

  lemma NoEmptyChild(idx: Index, p: Path)
    requires NoEmptyKeys(idx)
    ensures !Child(idx, p, "")
  {
    assert (p + [""])[|p|] == "";
  }

  /** The next segment leads to the child under `key`: it is spelled so, or it is fresh and nothing is preferred. */
  lemma StepInto(idx: Index, request: Path, st: State, key: Segment) returns (st': State)
    requires Usable(request) && 1 <= st.pos <= |request| && Child(idx, st.node, key)
    requires var s := request[st.pos-1];
      s == key || (Rank(key) != 0 && Fresh(idx, s) && Preferred(idx, st.node, key)
        && (st.all ==> !Child(idx, st.node, "") && (key == STAR ==> STAR !in request)))
    ensures Step(idx, request, st) == Next(st')
    ensures st'.node == st.node + [key] && st'.pos == st.pos + 1 && (st'.all <==> key == GLOB)
  {
    hide Effective, Skip, Aim, Fresh;
    EffectiveWhole(request);
    SegmentsTaken(request, st.pos);
    AimStaysInside(idx, request, st);
    var s := request[st.pos-1];
    assert s in request;
    var aim := Aim(idx, request, st);
    assert aim.1 != "" ==> aim.1 in request;
    if s == key {
      AimHits(idx, request, st);
    } else {
      ChildIsNotFresh(idx, s, st.node);
    }
    st' := Step(idx, request, st).state;
  }

  lemma AimHits(idx: Index, segments: Path, st: State)
    requires st.pos >= 1 && GetPathSegment(segments, st.pos - 1) != ""
    requires Child(idx, st.node, GetPathSegment(segments, st.pos - 1))
    ensures Aim(idx, segments, st) == (st.pos, GetPathSegment(segments, st.pos - 1))
  {}

  /** The request spells the path out, with `x` for every wildcard. */
  predicate Spells(request: Path, q: Path, x: Segment)
  {
    |q| <= |request| && forall k | 0 <= k < |q| :: request[k] == if Rank(q[k]) == 0 then q[k] else x
  }

  /** On the way to a node no child is preferred to the keys that are followed, and none below `**` is empty. */
  ghost predicate Open(idx: Index, q: Path)
  {
    forall k | 0 <= k < |q| ::
      && Preferred(idx, q[..k], q[k])
      && (k > 0 && q[k-1] == GLOB ==> !Child(idx, q[..k], ""))
  }

  lemma OpenPrefix(idx: Index, q: Path, n: nat)
    requires Open(idx, q) && n < |q|
    ensures Open(idx, q[..n]) && Preferred(idx, q[..n], q[n])
    ensures n > 0 && q[n-1] == GLOB ==> !Child(idx, q[..n], "")
  {
    hide Preferred, Child;
    assert forall k | 0 <= k < n :: q[..n][..k] == q[..k];
  }

  /** A request that spells out an open path is followed to its node, one segment per key. */
  lemma {:induction false} Reach(idx: Index, request: Path, q: Path, x: Segment) returns (st: State)
    requires PrefixClosed(idx) && Usable(request) && Fresh(idx, x)
    requires q in idx && Spells(request, q, x) && Open(idx, q)
    requires STAR in request ==> forall k | 0 < k < |q| :: !(q[k-1] == GLOB && q[k] == STAR)
    ensures st.node == q && st.pos == |q| + 1 && (st.all <==> q != [] && q[|q|-1] == GLOB)
    ensures Route(idx, request) == Run(idx, request, st)
  {
    hide Usable, Fresh, Child, Preferred, Step, Open;
    if q == [] {
      st := START;
    } else {
      var n := |q| - 1;
      PrefixInIndex(idx, q, n);
      OpenPrefix(idx, q, n);
      var before := Reach(idx, request, q[..n], x);
      assert q == q[..n] + [q[n]];
      ChildOf(idx, q[..n], q[n]);
      st := StepInto(idx, request, before, q[n]);
    }
  }

  lemma ChildOf(idx: Index, p: Path, s: Segment)
    requires p + [s] in idx
    ensures Child(idx, p, s)
  {}

  function Instance(p: Path, x: Segment): (request: Path)
    ensures |request| == |p|
    ensures forall k | 0 <= k < |p| :: request[k] == if Rank(p[k]) == 0 then p[k] else x
  {
    if p == [] then [] else [if Rank(p[0]) == 0 then p[0] else x] + Instance(p[1..], x)
  }

  lemma {:induction false} InstanceMatches(p: Path, x: Segment)
    ensures Matches(p, Instance(p, x))
  {
    if p != [] { InstanceMatches(p[1..], x); }
  }

  lemma InstanceUsable(idx: Index, p: Path, x: Segment)
    requires "" !in p && Fresh(idx, x)
    ensures Usable(Instance(p, x)) && STAR !in Instance(p, x)
  {
    hide Instance;
    forall s | s in Instance(p, x) ensures s != "" && Rank(s) == 0 {
      var k :| 0 <= k < |p| && Instance(p, x)[k] == s;
      assert p[k] in p;
    }
  }

  lemma {:induction false} MatchesConcat(p: Path, q: Path, v: Path, w: Path)
    requires Matches(p, v) && Matches(q, w)
    ensures Matches(p + q, v + w)
  {
    if p == [] {
      assert p + q == q && v + w == w;
    } else {
      assert (p + q)[1..] == p[1..] + q;
      var n := if p[0] == GLOB then var m :| 1 <= m <= |v| && Matches(p[1..], v[m..]); m else 1;
      MatchesConcat(p[1..], q, v[n..], w);
      assert (v + w)[n..] == v[n..] + w;
    }
  }
}
