/** Patterns for which the greedy walk finds every match. */
module Completeness {
  import opened Paths
  import opened Patterns
  import opened Index
  import opened Walk
  import opened Routing
  import opened Soundness

  ghost predicate LandsOn(idx: Index, segments: Path, p: Path)
  {
    Route(idx, segments).Landed? && Route(idx, segments).node == p
  }

  /** The walk lands on a registered pattern exactly when that pattern matches. */
  ghost predicate Exact(idx: Index, patterns: set<Path>)
  {
    forall segments, p | GLOB !in Effective(segments) && p in patterns ::
      LandsOn(idx, segments, p) <==> Matches(p, Effective(segments))
  }

  /** The nodes of the index are the prefixes of the patterns. */
  ghost predicate Spans(idx: Index, patterns: set<Path>)
  {
    && PrefixClosed(idx)
    && (forall p | p in patterns :: p in idx)
    && (forall p | p in idx && p != [] :: Covered(patterns, p))
  }

  ghost predicate Covered(patterns: set<Path>, p: Path)
  {
    exists r | r in patterns :: p <= r
  }

  lemma SpansNode(idx: Index, patterns: set<Path>, p: Path) returns (r: Path)
    requires Spans(idx, patterns) && p in idx && p != []
    ensures r in patterns && p <= r
  {
    assert Covered(patterns, p) by { hide Covered; }
    hide Spans;
    r :| r in patterns && p <= r;
  }

  lemma SpansPattern(idx: Index, patterns: set<Path>, p: Path)
    requires Spans(idx, patterns) && p in patterns
    ensures PrefixClosed(idx) && p in idx
  {
    hide Covered, PrefixClosed;
  }

  /** Behind its first `**` a pattern ends in `**`, a literal comes directly after a `**`, and a `*` does not. */
  predicate Tame(p: Path)
  {
    forall k | 0 < k < |p| && GLOB in p[..k] ::
      && p[|p|-1] == GLOB
      && (Rank(p[k]) == 0 ==> p[k-1] == GLOB)
      && (p[k] == STAR ==> p[k-1] != GLOB)
  }

  /** The nodes on the path `q` do not keep requests from `p`: where they part, `q` goes on with a key that is
      not preferred to that of `p`, and behind a `**`, beside a literal, with `**`; and they do not go on below
      a pattern with a `**`. */
  predicate Spares(p: Path, q: Path)
  {
    forall k | 0 <= k <= |p| && k < |q| && p[..k] == q[..k] ::
      if k == |p| then GLOB !in p
      else p[k] != q[k] ==> Rank(p[k]) <= Rank(q[k]) && (GLOB in p[..k] && Rank(p[k]) == 0 ==> q[k] == GLOB)
  }

  /** What makes the greedy walk exact. Of a path with an empty segment, only what comes before it is ever followed. */
  ghost predicate Clear(patterns: set<Path>)
  {
    && (forall p | p in patterns && "" !in p :: Tame(p))
    && (forall p, q | p in patterns && q in patterns && "" !in p :: Spares(p, Effective(q)))
  }

  // ----- Every match is found

  /** No literal `**` segment of a request leads away from `p`. */
  ghost predicate GlobSafe(patterns: set<Path>, p: Path)
  {
    GLOB !in p && forall q | q in patterns :: StarsSpared(p, Effective(q))
  }

  predicate StarsSpared(p: Path, q: Path)
  {
    forall k | 0 <= k < |p| && k < |q| && p[..k] == q[..k] && p[k] == STAR :: q[k] != GLOB
  }

  /** The patterns and the index they span, with no `**` above an empty key in reach. */
  ghost predicate Configured(idx: Index, patterns: set<Path>)
  {
    Spans(idx, patterns) && Guarded(idx) && Clear(patterns)
  }

  lemma EffectivePrefix(q: Path, node: Path)
    requires node <= q && "" !in node
    ensures node <= Effective(q)
  {
    hide Effective;
    var r := Effective(q);
    assert forall k | 0 <= k < |node| :: node[k] in node && node[k] == q[k];
    assert |r| >= |node|;
  }

  /** Another child on the way to `p` belongs to a path that spares it. */
  lemma OtherChild(idx: Index, patterns: set<Path>, p: Path, k: nat, s: Segment) returns (q: Path)
    requires Spans(idx, patterns) && p in patterns && "" !in p && k <= |p|
    requires Child(idx, p[..k], s) && s != ""
    ensures q in patterns && |Effective(q)| > k && Effective(q)[..k] == p[..k] && Effective(q)[k] == s
  {
    hide Spans, Effective;
    var node := p[..k] + [s];
    q := SpansNode(idx, patterns, node);
    assert forall t | t in p[..k] :: t in p;
    EffectivePrefix(q, node);
    assert Effective(q)[..k] == node[..k] == p[..k] && Effective(q)[k] == node[k];
  }

  lemma OtherIsSpared(idx: Index, patterns: set<Path>, p: Path, k: nat, s: Segment)
    requires Configured(idx, patterns) && p in patterns && "" !in p && k <= |p|
    requires Child(idx, p[..k], s) && s != "" && (k < |p| ==> s != p[k])
    ensures if k == |p| then GLOB !in p
      else Rank(p[k]) <= Rank(s) && (GLOB in p[..k] && Rank(p[k]) == 0 ==> s == GLOB)
    ensures GlobSafe(patterns, p) && k < |p| && p[k] == STAR ==> s != GLOB
  {
    hide Spans, Effective, Guarded;
    var q := OtherChild(idx, patterns, p, k, s);
    assert Spares(p, Effective(q));
  }

  lemma StarBeside(idx: Index, patterns: set<Path>, p: Path)
    requires Configured(idx, patterns) && "" !in p && Child(idx, p + [GLOB], "")
    ensures Child(idx, p, STAR)
  {
    hide Spans, Clear;
  }

  lemma NoEmptyBelowGlob(idx: Index, patterns: set<Path>, p: Path, k: nat)
    requires Configured(idx, patterns) && p in patterns && "" !in p && 0 < k <= |p| && p[k-1] == GLOB
    ensures !Child(idx, p[..k], "")
  {
    hide Configured, Child;
    assert p[..k] == p[..k-1] + [GLOB];
    assert forall t | t in p[..k-1] :: t in p;
    if Child(idx, p[..k], "") {
      StarBeside(idx, patterns, p[..k-1]);
      OtherIsSpared(idx, patterns, p, k - 1, STAR);
    }
  }

  /** Such a tail takes in any segments in front of what it matches. */
  predicate Absorbing(p: Path)
  {
    && p != [] && Rank(p[0]) != 0 && p[|p|-1] == GLOB
    && forall k | 0 < k < |p| && Rank(p[k]) == 0 :: p[k-1] == GLOB
  }

  lemma {:induction false} Absorbs(p: Path, request: Path, d: nat)
    requires Absorbing(p) && d <= |request| && Matches(p, request[d..])
    ensures Matches(p, request)
  {
    if p[0] == GLOB {
      var n :| 1 <= n <= |request[d..]| && Matches(p[1..], request[d..][n..]);
      assert request[d..][n..] == request[d+n..];
    } else {
      assert request[d..][1..] == request[1..][d..];
      Absorbs(p[1..], request[1..], d);
    }
  }

  lemma TameTail(p: Path, k: nat)
    requires Tame(p) && 0 < k < |p| && p[k-1] == GLOB
    ensures p[k] == GLOB ==> Absorbing(p[k..])
    ensures p[k] != STAR
    ensures Rank(p[k]) == 0 ==> k + 1 < |p| && Absorbing(p[k+1..])
  {
    forall j | k <= j < |p| ensures GLOB in p[..j] { assert p[..j][k-1] == GLOB; }
  }

  /** The rest of `p` matches the rest of the request; in a wildcard state the last `**` may still take more. */
  ghost predicate OnTheWay(request: Path, st: State, p: Path)
  {
    var k := |st.node|;
    && k <= |p| && st.node == p[..k]
    && 1 <= st.pos <= |request| + 1
    && if st.all then k > 0 && p[k-1] == GLOB && st.pos >= 2 && Matches(p[k-1..], request[st.pos-2..])
       else Matches(p[k..], request[st.pos-1..])
  }

  /** The `**` stops taking segments where the rest of the pattern starts. */
  lemma GlobTakes(p: Path, k: nat, request: Path, from: nat) returns (m: nat)
    requires k < |p| && p[k] == GLOB && from <= |request| && Matches(p[k..], request[from..])
    ensures from < m <= |request| && Matches(p[k+1..], request[m..])
  {
    assert p[k..][1..] == p[k+1..];
    var n :| 1 <= n <= |request[from..]| && Matches(p[k..][1..], request[from..][n..]);
    assert request[from..][n..] == request[from+n..];
    m := from + n;
  }

  lemma IsLeaf(idx: Index, patterns: set<Path>, p: Path)
    requires Configured(idx, patterns) && p in patterns && "" !in p && p != [] && p[|p|-1] == GLOB
    ensures Leaf(idx, p)
  {
    hide Configured;
    assert p[..|p|] == p;
    NoEmptyBelowGlob(idx, patterns, p, |p|);
    forall s ensures !Child(idx, p, s) {
      if Child(idx, p, s) { OtherIsSpared(idx, patterns, p, |p|, s); }
    }
  }

  lemma EndsHere(idx: Index, patterns: set<Path>, segments: Path, st: State, p: Path)
    requires Configured(idx, patterns) && p in patterns && "" !in p && OnTheWay(Effective(segments), st, p)
    requires |st.node| == |p| || st.pos == |Effective(segments)| + 1
    ensures Step(idx, segments, st) == Stop(Landed(p, st.params))
  {
    hide Configured, Effective, Aim, Leaf;
    var request, k := Effective(segments), |st.node|;
    SegmentsTaken(segments, st.pos);
    if st.all {
      var m := GlobTakes(p, k - 1, request, st.pos - 2);
      if st.pos == |request| + 1 { MatchLength(p[k..], request[m..]); }
      assert p[..k] == p;
      IsLeaf(idx, patterns, p);
    } else {
      MatchLength(p[k..], request[st.pos-1..]);
      assert p[..k] == p;
    }
  }

  lemma NextPlain(idx: Index, patterns: set<Path>, segments: Path, st: State, p: Path) returns (st': State)
    requires Configured(idx, patterns) && p in patterns && "" !in p && OnTheWay(Effective(segments), st, p)
    requires GLOB in Effective(segments) ==> GlobSafe(patterns, p)
    requires !st.all && |st.node| < |p| && st.pos <= |Effective(segments)|
    ensures Step(idx, segments, st) == Next(st') && OnTheWay(Effective(segments), st', p)
  {
    hide Configured, Effective, Aim, Skip;
    var request, k := Effective(segments), |st.node|;
    SegmentsTaken(segments, st.pos);
    var s := request[st.pos-1];
    assert s in request && p[k] in p;
    ConfiguredKey(idx, patterns, p, k);
    if p[k] != s {
      if Child(idx, st.node, s) { OtherIsSpared(idx, patterns, p, k, s); }
      if p[k] == GLOB && Child(idx, st.node, STAR) { OtherIsSpared(idx, patterns, p, k, STAR); }
    }
    assert request[st.pos-1..][1..] == request[st.pos..];
    assert p[k..][1..] == p[k+1..] && p[..k+1] == p[..k] + [p[k]];
    st' := Step(idx, segments, st).state;
  }

  lemma ConfiguredKey(idx: Index, patterns: set<Path>, p: Path, k: nat)
    requires Configured(idx, patterns) && p in patterns && k < |p|
    ensures Child(idx, p[..k], p[k])
  {
    KeyIsChild(idx, patterns, p, k);
  }

  lemma KeyIsChild(idx: Index, patterns: set<Path>, p: Path, k: nat)
    requires Spans(idx, patterns) && p in patterns && k < |p|
    ensures Child(idx, p[..k], p[k])
  {
    hide Spans, PrefixClosed;
    SpansPattern(idx, patterns, p);
    PrefixInIndex(idx, p, k + 1);
    assert p[..k+1] == p[..k] + [p[k]];
  }

  /** A `**` below a `**` takes over: it stands for what the first one could still take. */
  lemma GlobTakesOver(p: Path, k: nat, request: Path, from: nat)
    requires 0 < k < |p| && p[k-1] == GLOB == p[k] && Absorbing(p[k..])
    requires from < |request| && Matches(p[k-1..], request[from..])
    ensures Matches(p[k..], request[from+1..])
  {
    hide Absorbing, Matches;
    var m := GlobTakes(p, k - 1, request, from);
    assert request[from+1..][m-(from+1)..] == request[m..];
    Absorbs(p[k..], request[from+1..], m - (from + 1));
  }

  /** A literal below a `**` may be taken at its first occurrence. */
  lemma LiteralTakesFirst(p: Path, k: nat, request: Path, from: nat) returns (m: nat)
    requires 0 < k < |p| && p[k-1] == GLOB && Rank(p[k]) == 0 && k + 1 < |p| && Absorbing(p[k+1..])
    requires from < |request| && Matches(p[k-1..], request[from..])
    ensures from < m < |request| && request[m] == p[k]
    ensures forall j | from + 1 < j <= m + 1 :: Matches(p[k+1..], request[j..])
  {
    hide Absorbing, Matches;
    m := GlobTakes(p, k - 1, request, from);
    LiteralTakes(p, k, request, m);
    forall j | from + 1 < j <= m + 1 ensures Matches(p[k+1..], request[j..]) {
      assert request[j..][m+1-j..] == request[m+1..];
      Absorbs(p[k+1..], request[j..], m + 1 - j);
    }
  }

  lemma NextBelowGlob(idx: Index, patterns: set<Path>, segments: Path, st: State, p: Path) returns (st': State)
    requires Configured(idx, patterns) && p in patterns && "" !in p
    requires OnTheWay(Effective(segments), st, p)
    requires GLOB !in Effective(segments) && st.all && |st.node| < |p| && st.pos <= |Effective(segments)|
    ensures Step(idx, segments, st) == Next(st') && OnTheWay(Effective(segments), st', p)
  {
    hide Effective, Configured, Matches, Aim, Skip, Tame, Absorbing;
    var request, k := Effective(segments), |st.node|;
    SegmentsTaken(segments, st.pos);
    AimStaysInside(idx, segments, st);
    var (pos, s) := Aim(idx, segments, st);
    ConfiguredKey(idx, patterns, p, k);
    ChildrenBelowGlob(idx, patterns, p, k);
    assert s != "" ==> s in request;
    ClearIsTame(idx, patterns, p);
    TameTail(p, k);
    if p[k] == GLOB {
      GlobTakesOver(p, k, request, st.pos - 2);
    } else {
      assert p[k] in p;
      var m := LiteralTakesFirst(p, k, request, st.pos - 2);
      AimIsFirst(idx, segments, st, m);
    }
    assert p[..k+1] == p[..k] + [p[k]];
    hide Child;
    st' := FollowOnly(idx, segments, st, p[k]);
  }

  /** With no child but one and `**`, the walk goes to that one unless skipping finds nothing for a literal. */
  lemma FollowOnly(idx: Index, segments: Path, st: State, key: Segment) returns (st': State)
    requires st.pos >= 1 && GetPathSegment(segments, st.pos - 1) != ""
    requires Child(idx, st.node, key) && forall s | Child(idx, st.node, s) && s != GLOB :: s == key
    requires if key == GLOB then Aim(idx, segments, st).1 != GLOB else Aim(idx, segments, st).1 == key
    ensures Step(idx, segments, st) == Next(st')
    ensures st'.node == st.node + [key] && st'.pos == Aim(idx, segments, st).0 + 1
    ensures st'.all <==> key != Aim(idx, segments, st).1
  {
    hide Aim, Child;
    st' := Step(idx, segments, st).state;
  }

  lemma ClearIsTame(idx: Index, patterns: set<Path>, p: Path)
    requires Configured(idx, patterns) && p in patterns && "" !in p
    ensures Tame(p)
  {}

  lemma ChildrenBelowGlob(idx: Index, patterns: set<Path>, p: Path, k: nat)
    requires Configured(idx, patterns) && p in patterns && "" !in p && 0 < k < |p| && p[k-1] == GLOB
    ensures forall s | Child(idx, p[..k], s) && s != GLOB :: s == p[k]
  {
    hide Configured;
    NoEmptyBelowGlob(idx, patterns, p, k);
    ClearIsTame(idx, patterns, p);
    assert p[..k][k-1] == GLOB;
    forall s | Child(idx, p[..k], s) && s != GLOB ensures s == p[k] {
      if s != p[k] { OtherIsSpared(idx, patterns, p, k, s); }
    }
  }

  lemma LiteralTakes(p: Path, k: nat, request: Path, m: nat)
    requires k < |p| && Rank(p[k]) == 0 && m <= |request| && Matches(p[k..], request[m..])
    ensures m < |request| && request[m] == p[k] && Matches(p[k+1..], request[m+1..])
  {
    assert p[k..][1..] == p[k+1..] && request[m..][1..] == request[m+1..];
  }

  /** The skipping does not go beyond a child's segment. */
  lemma AimIsFirst(idx: Index, segments: Path, st: State, m: nat)
    requires st.all && 1 <= st.pos <= m + 1 && m < |Effective(segments)|
    requires Child(idx, st.node, Effective(segments)[m])
    ensures var (pos, s) := Aim(idx, segments, st); s != "" && pos <= m + 1
  {
    hide Effective, Child;
    var j := Skip(idx, st.node, segments, st.pos);
    SegmentsTaken(segments, m + 1);
    assert j <= m + 1;
    SegmentsTaken(segments, j);
  }

  /** A registered pattern that matches is landed on. */
  lemma FindsMatch(idx: Index, patterns: set<Path>, segments: Path, p: Path)
    requires Configured(idx, patterns) && p in patterns && Matches(p, Effective(segments))
    requires GLOB in Effective(segments) ==> GlobSafe(patterns, p)
    ensures LandsOn(idx, segments, p)
  {
    if "" in p { EmptyNeverMatches(p, Effective(segments)); }
    RunsTo(idx, patterns, segments, START, p);
  }

  lemma {:induction false} RunsTo(idx: Index, patterns: set<Path>, segments: Path, st: State, p: Path)
    requires Configured(idx, patterns) && p in patterns && "" !in p
    requires GLOB in Effective(segments) ==> GlobSafe(patterns, p)
    requires OnTheWay(Effective(segments), st, p)
    ensures Run(idx, segments, st).Landed? && Run(idx, segments, st).node == p
    decreases |Effective(segments)| + 1 - st.pos
  {
    hide Configured, Effective, Step;
    if |st.node| == |p| || st.pos == |Effective(segments)| + 1 {
      EndsHere(idx, patterns, segments, st, p);
    } else {
      var st';
      if st.all { st' := NextBelowGlob(idx, patterns, segments, st, p); } else { st' := NextPlain(idx, patterns, segments, st, p); }
      RunsTo(idx, patterns, segments, st', p);
    }
  }
}
