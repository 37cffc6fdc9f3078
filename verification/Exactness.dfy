/** The walk is exact for clear patterns only: every other configuration loses a request. */
module Exactness {
  import opened Paths
  import opened Patterns
  import opened Endpoints
  import opened Index
  import opened Walk
  import opened Routing
  import opened Requests
  import opened Soundness
  import opened Completeness

  // ----- Requests that match and are missed

  lemma MatchedButMissed(idx: Index, patterns: set<Path>, p: Path, request: Path)
    requires p in patterns && Usable(request) && Matches(p, request) && !LandsOn(idx, request, p)
    ensures !Exact(idx, patterns)
  {
    hide Matches, Effective;
    EffectiveWhole(request);
    assert GLOB !in Effective(request);
    assert !(LandsOn(idx, request, p) <==> Matches(p, Effective(request)));
  }

  /** A walk that leaves the way to `p`, or has segments left there, does not land on it. */
  lemma PassesBy(idx: Index, request: Path, st: State, p: Path)
    requires st.pos >= 1 && Route(idx, request) == Run(idx, request, st)
    requires match Step(idx, request, st)
      case Next(st') => !(st'.node <= p)
      case Stop(o) => o.Lost?
    ensures !LandsOn(idx, request, p)
  {
    hide Step;
    if Step(idx, request, st).Next? { RunExtends(idx, request, Step(idx, request, st).state); }
  }

  lemma NextExtends(idx: Index, request: Path, st: State)
    requires st.pos >= 1 && Step(idx, request, st).Next?
    ensures st.node < Step(idx, request, st).state.node
  {}

  /** A pattern without empty segments in a guarded index, and a segment that occurs nowhere. */
  ghost predicate Ground(idx: Index, patterns: set<Path>, p: Path, x: Segment)
  {
    Spans(idx, patterns) && Guarded(idx) && Fresh(idx, x) && p in patterns && "" !in p
  }

  lemma GroundFacts(idx: Index, patterns: set<Path>, p: Path, x: Segment, k: nat)
    requires Ground(idx, patterns, p, x) && k <= |p|
    ensures PrefixClosed(idx) && Fresh(idx, x) && x != "" && x != STAR && x != GLOB
    ensures p in idx && "" !in p && p[..k] in idx && "" !in p[..k]
    ensures k < |p| ==> Child(idx, p[..k], p[k])
  {
    hide Spans, Guarded, PrefixClosed;
    SpansPattern(idx, patterns, p);
    PrefixInIndex(idx, p, k);
    assert forall s | s in p[..k] :: s in p;
    if k < |p| { KeyIsChild(idx, patterns, p, k); }
  }

  // ----- A preferred sibling

  /** A preferred sibling of one of its keys keeps the walk away from a pattern. */
  lemma SiblingHides(idx: Index, patterns: set<Path>, p: Path, k: nat, c: Segment, x: Segment)
    requires Ground(idx, patterns, p, x) && k < |p| && Open(idx, p[..k])
    requires Child(idx, p[..k], c) && c != "" && Rank(c) < Rank(p[k])
    ensures !Exact(idx, patterns)
  {
    hide Ground, Exact, Matches, Effective, Aim, Skip, Fresh, Open, Instance, Usable, Spells, Step;
    GroundFacts(idx, patterns, p, x, k);
    var y := if Rank(c) == 0 then c else x;
    var request := Instance(p[..k], x) + [y] + Instance(p[k+1..], x);
    SiblingRequest(idx, p, k, y, x);
    var st := Reach(idx, request, p[..k], x);
    TakesOther(idx, request, st, c, p[k], x);
    PassesBy(idx, request, st, p);
    GroundMissed(idx, patterns, p, x, request);
  }

  lemma SiblingRequest(idx: Index, p: Path, k: nat, y: Segment, x: Segment)
    requires Fresh(idx, x) && "" !in p && k < |p| && Rank(p[k]) != 0 && y != "" && Rank(y) == 0
    ensures var request := Instance(p[..k], x) + [y] + Instance(p[k+1..], x);
      && Usable(request) && STAR !in request && Spells(request, p[..k], x)
      && |request| > k && request[k] == y && Matches(p, request)
  {
    hide Fresh, Instance, Matches;
    assert p == p[..k] + [p[k]] + p[k+1..];
    SiblingMatches(p[..k], p[k], p[k+1..], y, x);
    assert forall s | s in p[..k] :: s in p;
    assert forall s | s in p[k+1..] :: s in p;
    InstanceUsable(idx, p[..k], x);
    InstanceUsable(idx, p[k+1..], x);
  }

  lemma GroundMissed(idx: Index, patterns: set<Path>, p: Path, x: Segment, request: Path)
    requires Ground(idx, patterns, p, x) && Usable(request) && Matches(p, request) && !LandsOn(idx, request, p)
    ensures !Exact(idx, patterns)
  {
    MatchedButMissed(idx, patterns, p, request);
  }

  lemma SiblingMatches(q: Path, d: Segment, rest: Path, y: Segment, x: Segment)
    requires Rank(d) != 0
    ensures Matches(q + [d] + rest, Instance(q, x) + [y] + Instance(rest, x))
  {
    InstanceMatches(q, x);
    InstanceMatches(rest, x);
    assert Matches([d], [y]) by { assert [d][1..] == []; assert [y][1..] == []; }
    MatchesConcat(q, [d], Instance(q, x), [y]);
    MatchesConcat(q + [d], rest, Instance(q, x) + [y], Instance(rest, x));
  }

  lemma TakesOther(idx: Index, request: Path, st: State, c: Segment, d: Segment, x: Segment)
    requires Fresh(idx, x) && Usable(request) && 1 <= st.pos <= |request|
    requires Child(idx, st.node, c) && c != "" && Child(idx, st.node, d) && Rank(c) < Rank(d)
    requires request[st.pos-1] == if Rank(c) == 0 then c else x
    ensures Step(idx, request, st).Next?
    ensures st.node < Step(idx, request, st).state.node && Step(idx, request, st).state.node[|st.node|] != d
  {
    hide Effective, Skip, Aim;
    EffectiveWhole(request);
    SegmentsTaken(request, st.pos);
    AimStaysInside(idx, request, st);
    assert request[st.pos-1] in request;
    var aim := Aim(idx, request, st);
    assert aim.1 != "" ==> aim.1 in request;
    if Rank(c) == 0 {
      AimHits(idx, request, st);
    } else {
      ChildIsNotFresh(idx, x, st.node);
    }
  }

  /** Exactness opens the way to every pattern without empty segments. */
  lemma {:induction false} ExactIsOpen(idx: Index, patterns: set<Path>, p: Path, k: nat, x: Segment)
    requires Ground(idx, patterns, p, x) && Exact(idx, patterns) && k <= |p|
    ensures Open(idx, p[..k])
  {
    hide Ground, Exact, Child;
    if k > 0 {
      var j := k - 1;
      ExactIsOpen(idx, patterns, p, j, x);
      assert p[..k][..j] == p[..j] && forall i | 0 <= i < j :: p[..k][..i] == p[..j][..i];
      forall c | Child(idx, p[..j], c) && c != "" ensures Rank(p[j]) <= Rank(c) {
        if Rank(c) < Rank(p[j]) { SiblingHides(idx, patterns, p, j, c, x); }
      }
      if j > 0 && p[j-1] == GLOB {
        assert Preferred(idx, p[..j][..j-1], p[..j][j-1]) && p[..j][..j-1] == p[..j-1];
        NoEmptyInTheWay(idx, patterns, p, j, x);
      }
    }
  }

  lemma NoEmptyInTheWay(idx: Index, patterns: set<Path>, p: Path, j: nat, x: Segment)
    requires Ground(idx, patterns, p, x) && 0 < j <= |p| && p[j-1] == GLOB && Preferred(idx, p[..j-1], GLOB)
    ensures !Child(idx, p[..j], "")
  {
    hide Spans, Child;
    assert p[..j] == p[..j-1] + [GLOB];
    assert forall s | s in p[..j-1] :: s in p;
    assert !Child(idx, p[..j-1], STAR);
  }

  // ----- What hangs below a `**`

  /** After spelling out `c`, a node behind the `**` at `i`, the request goes on with `y` and then repeats
      what follows the `**` in `p`: it still matches `p`, the `**` taking the detour. */
  function Detour(p: Path, i: nat, c: Path, y: Segment, x: Segment): Path
    requires i < |p|
  {
    Instance(c, x) + [y] + Instance(p[i+1..], x)
  }

  lemma GlobMatchesAny(request: Path)
    requires request != []
    ensures Matches([GLOB], request)
  {
    assert [GLOB][1..] == [] && request[|request|..] == [];
  }

  lemma InstanceSplit(c: Path, i: nat, x: Segment)
    requires i <= |c|
    ensures Instance(c, x) == Instance(c[..i], x) + Instance(c[i..], x)
  {
    hide Instance;
  }

  lemma Regroup(p: Path, i: nat, a: Path, b: Path, y: Segment)
    requires i < |p|
    ensures p[..i] + [p[i]] + p[i+1..] == p && a + (b + [y]) == a + b + [y]
  {}

  lemma DetourMatches(p: Path, i: nat, c: Path, y: Segment, x: Segment)
    requires i < |p| && i < |c| && p[i] == GLOB && p[..i] == c[..i]
    ensures Matches(p, Detour(p, i, c, y, x))
  {
    hide Instance, Matches;
    var front, middle, back := Instance(c[..i], x), Instance(c[i..], x) + [y], Instance(p[i+1..], x);
    InstanceMatches(p[..i], x);
    GlobMatchesAny(middle);
    InstanceMatches(p[i+1..], x);
    MatchesConcat(p[..i], [GLOB], front, middle);
    MatchesConcat(p[..i] + [GLOB], p[i+1..], front + middle, back);
    InstanceSplit(c, i, x);
    Regroup(p, i, front, Instance(c[i..], x), y);
  }

  /** The walk follows the detour up to the node at `c`. */
  lemma DetourReaches(idx: Index, p: Path, i: nat, c: Path, y: Segment, x: Segment) returns (st: State)
    requires PrefixClosed(idx) && Fresh(idx, x) && Open(idx, c)
    requires i < |p| && "" !in p && c in idx && "" !in c && y != "" && y != GLOB
    requires y == STAR ==> forall k | 0 < k < |c| :: !(c[k-1] == GLOB && c[k] == STAR)
    ensures var request := Detour(p, i, c, y, x);
      && Usable(request) && Effective(request) == request
      && |request| > |c| && request[|c|] == y
      && st.node == c && st.pos == |c| + 1 && (st.all <==> c != [] && c[|c|-1] == GLOB)
      && Route(idx, request) == Run(idx, request, st)
  {
    hide PrefixClosed, Child, Fresh, Instance, Open;
    var request := Detour(p, i, c, y, x);
    assert forall s | s in p[i+1..] :: s in p;
    InstanceUsable(idx, c, x);
    InstanceUsable(idx, p[i+1..], x);
    EffectiveWhole(request);
    st := Reach(idx, request, c, x);
  }

  /** A pattern with a `**` is lost if its node is not a leaf or does not end in `**`. */
  lemma EndIsMissed(idx: Index, patterns: set<Path>, p: Path, i: nat, x: Segment)
    requires Ground(idx, patterns, p, x) && Open(idx, p) && i < |p| && p[i] == GLOB
    requires p[|p|-1] != GLOB || !Leaf(idx, p)
    ensures !Exact(idx, patterns)
  {
    hide Ground, Exact, Matches, Effective, Fresh, Detour, Leaf, Aim, Open;
    GroundFacts(idx, patterns, p, x, |p|);
    var request := Detour(p, i, p, x, x);
    var st := DetourReaches(idx, p, i, p, x, x);
    SegmentsTaken(request, st.pos);
    if Step(idx, request, st).Next? { NextExtends(idx, request, st); }
    PassesBy(idx, request, st, p);
    DetourMatches(p, i, p, x, x);
    GroundMissed(idx, patterns, p, x, request);
  }

  /** Beside another key behind a `**`, the one met first decides. */
  lemma BranchIsMissed(idx: Index, patterns: set<Path>, p: Path, i: nat, k: nat, u: Segment, x: Segment)
    requires Ground(idx, patterns, p, x) && i < k < |p| && p[i] == GLOB && Open(idx, p[..k])
    requires Child(idx, p[..k], u) && u != p[k] && u != "" && u != GLOB
    requires u == STAR ==> forall j | 0 < j < k :: !(p[j-1] == GLOB && p[j] == STAR)
    ensures !Exact(idx, patterns)
  {
    hide Ground, Exact, Matches, Effective, Fresh, Detour, Aim, Open;
    GroundFacts(idx, patterns, p, x, k);
    var c := p[..k];
    var request := Detour(p, i, c, u, x);
    var st := DetourReaches(idx, p, i, c, u, x);
    SegmentsTaken(request, st.pos);
    AimHits(idx, request, st);
    assert (c + [u])[k] == u;
    PassesBy(idx, request, st, p);
    DetourMatches(p, i, c, u, x);
    GroundMissed(idx, patterns, p, x, request);
  }

  /** A literal that does not come directly after a `**` misses its later occurrences. */
  lemma LiteralIsMissed(idx: Index, patterns: set<Path>, p: Path, i: nat, k: nat, x: Segment)
    requires Ground(idx, patterns, p, x) && i < k < |p| && p[i] == GLOB && Open(idx, p[..k])
    requires Rank(p[k]) == 0 && p[k-1] != GLOB
    ensures !Exact(idx, patterns)
  {
    hide Ground, Exact, Matches, Effective, Detour, Open;
    GroundFacts(idx, patterns, p, x, k);
    var c := p[..k];
    var request := Detour(p, i, c, x, x);
    var st := DetourReaches(idx, p, i, c, x, x);
    SegmentsTaken(request, st.pos);
    ChildIsNotFresh(idx, x, c);
    assert (c + [STAR])[k] == STAR && (c + [GLOB])[k] == GLOB;
    PassesBy(idx, request, st, p);
    DetourMatches(p, i, c, x, x);
    GroundMissed(idx, patterns, p, x, request);
  }

  /** Below a `**`, a `*` is taken for the key of a `*` segment further on. */
  lemma StarIsMissed(idx: Index, patterns: set<Path>, p: Path, k: nat, x: Segment)
    requires Ground(idx, patterns, p, x) && 0 < k && k + 1 < |p| && Open(idx, p[..k]) && Preferred(idx, p[..k], STAR)
    requires p[k-1] == GLOB && p[k] == STAR && p[|p|-1] == GLOB
    requires forall j | 0 < j < k :: !(p[j-1] == GLOB && p[j] == STAR)
    ensures !Exact(idx, patterns)
  {
    hide Ground, Exact, Matches, Effective, Fresh, Child, Open, Preferred, LandsOn;
    var request := Instance(p[..|p|-1], x) + [STAR];
    GroundFacts(idx, patterns, p, x, k);
    StarMatches(p, x);
    StarRequest(idx, p, k, x);
    var st := StarReaches(idx, p, k, x, request);
    SkipsToStar(idx, request, st);
    LandsShort(idx, request, p, k);
    GroundMissed(idx, patterns, p, x, request);
  }

  lemma LandsShort(idx: Index, request: Path, p: Path, k: nat)
    requires k + 1 < |p| && Route(idx, request).node == p[..k] + [p[k]]
    ensures !LandsOn(idx, request, p)
  {
    hide Route;
  }

  lemma StarRequest(idx: Index, p: Path, k: nat, x: Segment)
    requires Fresh(idx, x) && "" !in p && k < |p|
    ensures var request := Instance(p[..|p|-1], x) + [STAR];
      && Usable(request) && Spells(request, p[..k], x)
      && forall m | 0 <= m < |request| - 1 :: request[m] != STAR
  {
    hide Instance, Fresh;
    var front := Instance(p[..|p|-1], x);
    assert forall s | s in p[..|p|-1] :: s in p;
    InstanceUsable(idx, p[..|p|-1], x);
    assert forall m | 0 <= m < |front| :: front[m] in front;
  }

  lemma StarReaches(idx: Index, p: Path, k: nat, x: Segment, request: Path) returns (st: State)
    requires PrefixClosed(idx) && Fresh(idx, x) && p in idx && k < |p|
    requires Usable(request) && Spells(request, p[..k], x)
    requires 0 < k && p[k-1] == GLOB && Open(idx, p[..k])
    requires forall j | 0 < j < k :: !(p[j-1] == GLOB && p[j] == STAR)
    ensures st.node == p[..k] && st.pos == k + 1 && st.all && Route(idx, request) == Run(idx, request, st)
  {
    hide PrefixClosed, Fresh, Usable, Spells, Open, Route, Run;
    PrefixInIndex(idx, p, k);
    st := Reach(idx, request, p[..k], x);
  }

  lemma StarMatches(p: Path, x: Segment)
    requires p != [] && p[|p|-1] == GLOB
    ensures Matches(p, Instance(p[..|p|-1], x) + [STAR])
  {
    hide Instance, Matches;
    var n := |p| - 1;
    InstanceMatches(p[..n], x);
    GlobMatchesAny([STAR]);
    MatchesConcat(p[..n], [GLOB], Instance(p[..n], x), [STAR]);
    assert p[..n] + [GLOB] == p;
  }

  /** With nothing but `*` and `**` below, skipping goes on to the `*` at the end of the request, and the walk ends there. */
  lemma SkipsToStar(idx: Index, request: Path, st: State)
    requires Usable(request) && st.all && 1 <= st.pos <= |request|
    requires Child(idx, st.node, STAR) && Preferred(idx, st.node, STAR)
    requires request[|request|-1] == STAR && forall m | 0 <= m < |request| - 1 :: request[m] != STAR
    ensures Run(idx, request, st).Landed? && Run(idx, request, st).node == st.node + [STAR]
  {
    var st' := State(st.node + [STAR], |request| + 1, false, st.params);
    AimsAtStar(idx, request, st);
    hide Skip, Aim;
    assert request[st.pos-1] in request;
    assert Step(idx, request, st) == Next(st');
    assert Step(idx, request, st') == Stop(Landed(st'.node, st'.params));
  }

  lemma AimsAtStar(idx: Index, request: Path, st: State)
    requires Usable(request) && st.all && 1 <= st.pos <= |request|
    requires Child(idx, st.node, STAR) && Preferred(idx, st.node, STAR)
    requires request[|request|-1] == STAR && forall m | 0 <= m < |request| - 1 :: request[m] != STAR
    ensures Aim(idx, request, st) == (|request|, STAR)
  {
    hide Skip, Child, Preferred;
    var last := |request| - 1;
    var j := Skip(idx, st.node, request, st.pos);
    assert GetPathSegment(request, last) == STAR;
    assert j <= last + 1;
    assert request[j-1] in request;
    StarOrGlob(idx, st.node, request[j-1]);
  }

  lemma StarOrGlob(idx: Index, p: Path, s: Segment)
    requires Preferred(idx, p, STAR) && Child(idx, p, s) && s != ""
    ensures s == STAR || s == GLOB
  {}

  // ----- The exact class

  lemma {:induction false} NoStarBelowGlob(idx: Index, patterns: set<Path>, p: Path, k: nat, x: Segment)
    requires Ground(idx, patterns, p, x) && Exact(idx, patterns) && 0 < k < |p| && p[|p|-1] == GLOB
    ensures !(p[k-1] == GLOB && p[k] == STAR)
  {
    hide Ground, Exact, Preferred;
    forall j | 0 < j < k ensures !(p[j-1] == GLOB && p[j] == STAR) { NoStarBelowGlob(idx, patterns, p, j, x); }
    if p[k-1] == GLOB && p[k] == STAR {
      ExactIsOpen(idx, patterns, p, k, x);
      ExactPrefers(idx, patterns, p, k, x);
      StarIsMissed(idx, patterns, p, k, x);
    }
  }

  lemma ExactPrefers(idx: Index, patterns: set<Path>, p: Path, k: nat, x: Segment)
    requires Ground(idx, patterns, p, x) && Exact(idx, patterns) && k < |p|
    ensures Preferred(idx, p[..k], p[k])
  {
    hide Ground, Exact, Preferred;
    ExactIsOpen(idx, patterns, p, k + 1, x);
    assert p[..k+1][..k] == p[..k];
  }

  lemma ExactIsTame(idx: Index, patterns: set<Path>, p: Path, x: Segment)
    requires Ground(idx, patterns, p, x) && Exact(idx, patterns)
    ensures Tame(p)
  {
    hide Ground, Exact, Open;
    ExactIsOpen(idx, patterns, p, |p|, x);
    assert p[..|p|] == p;
    forall k | 0 < k < |p| && GLOB in p[..k]
      ensures p[|p|-1] == GLOB && (Rank(p[k]) == 0 ==> p[k-1] == GLOB) && (p[k] == STAR ==> p[k-1] != GLOB)
    {
      var i :| 0 <= i < k && p[..k][i] == GLOB;
      ExactIsOpen(idx, patterns, p, k, x);
      if p[|p|-1] != GLOB { EndIsMissed(idx, patterns, p, i, x); }
      if Rank(p[k]) == 0 && p[k-1] != GLOB { LiteralIsMissed(idx, patterns, p, i, k, x); }
      NoStarBelowGlob(idx, patterns, p, k, x);
    }
  }

  lemma HasChild(idx: Index, p: Path, s: Segment)
    requires Child(idx, p, s)
    ensures !Leaf(idx, p)
  {}

  /** The part of a registered path before its first empty segment is in the index. */
  lemma HeadInIndex(idx: Index, patterns: set<Path>, q: Path, k: nat)
    requires Spans(idx, patterns) && q in patterns && k < |Effective(q)|
    ensures Child(idx, Effective(q)[..k], Effective(q)[k]) && Effective(q)[k] != ""
  {
    hide Spans, Effective, PrefixClosed;
    SpansPattern(idx, patterns, q);
    PrefixInIndex(idx, q, k + 1);
    assert q[..k+1] == Effective(q)[..k] + [Effective(q)[k]];
  }

  lemma ExactIsSpared(idx: Index, patterns: set<Path>, p: Path, q: Path, x: Segment)
    requires Ground(idx, patterns, p, x) && Exact(idx, patterns) && q in patterns
    ensures Spares(p, Effective(q))
  {
    hide Exact, Open, Effective, Spans, Guarded, Child, Fresh;
    var t := Effective(q);
    ExactIsTame(idx, patterns, p, x);
    forall k | 0 <= k <= |p| && k < |t| && p[..k] == t[..k]
      ensures if k == |p| then GLOB !in p
        else p[k] != t[k] ==> Rank(p[k]) <= Rank(t[k]) && (GLOB in p[..k] && Rank(p[k]) == 0 ==> t[k] == GLOB)
    {
      HeadInIndex(idx, patterns, q, k);
      ExactIsOpen(idx, patterns, p, k, x);
      if k == |p| {
        assert p[..k] == p;
        HasChild(idx, p, t[k]);
        if i :| 0 <= i < |p| && p[i] == GLOB { EndIsMissed(idx, patterns, p, i, x); }
      } else if p[k] != t[k] {
        ExactPrefers(idx, patterns, p, k, x);
        if GLOB in p[..k] && Rank(p[k]) == 0 && t[k] != GLOB {
          var i :| 0 <= i < k && p[..k][i] == GLOB;
          TameHasNoStar(p, i, k);
          BranchIsMissed(idx, patterns, p, i, k, t[k], x);
        }
      }
    }
  }

  lemma TameHasNoStar(p: Path, i: nat, k: nat)
    requires Tame(p) && i < k <= |p| && p[i] == GLOB
    ensures forall j | 0 < j < k :: !(p[j-1] == GLOB && p[j] == STAR)
  {
    forall j | 0 < j < k && p[j-1] == GLOB ensures p[j] != STAR { assert p[..j][j-1] == GLOB; }
  }

  lemma ExactIsClear(idx: Index, patterns: set<Path>)
    requires Spans(idx, patterns) && Guarded(idx) && Exact(idx, patterns)
    ensures Clear(patterns)
  {
    hide Spans, Guarded, Exact, Tame, Spares, Effective;
    var x := FreshExists(idx);
    forall p | p in patterns && "" !in p ensures Tame(p) { ExactIsTame(idx, patterns, p, x); }
    forall p, q | p in patterns && q in patterns && "" !in p ensures Spares(p, Effective(q)) {
      ExactIsSpared(idx, patterns, p, q, x);
    }
  }

  /** In a guarded index, the walk is exact for every request without a `**` segment if and only if the
      patterns are clear. */
  lemma ExactIffClear(idx: Index, patterns: set<Path>)
    requires Spans(idx, patterns) && Guarded(idx)
    ensures Exact(idx, patterns) <==> Clear(patterns)
  {
    hide Spans, Guarded, Clear, Matches, LandsOn;
    if Clear(patterns) {
      forall segments, p | GLOB !in Effective(segments) && p in patterns
        ensures LandsOn(idx, segments, p) <==> Matches(p, Effective(segments))
      {
        if LandsOn(idx, segments, p) { LandedMatches(idx, patterns, segments, p); }
        if Matches(p, Effective(segments)) { FindsMatch(idx, patterns, segments, p); }
      }
    }
    if Exact(idx, patterns) { ExactIsClear(idx, patterns); }
  }

  lemma LandedMatches(idx: Index, patterns: set<Path>, segments: Path, p: Path)
    requires Spans(idx, patterns) && Guarded(idx) && p in patterns && LandsOn(idx, segments, p)
    ensures Matches(p, Effective(segments))
  {
    hide Covered, Guarded, Matches;
    SoundIffGuarded(idx);
    assert SoundFor(idx, segments);
  }

  /** Every request lands on matching nodes only, and each without a `**` segment on all patterns it matches, if
      and only if the index is guarded and the patterns are clear. */
  lemma RightIffGuardedAndClear(idx: Index, patterns: set<Path>)
    requires Spans(idx, patterns)
    ensures PrefixClosed(idx)
    ensures Sound(idx) && Exact(idx, patterns) <==> Guarded(idx) && Clear(patterns)
  {
    hide Exact, Clear, Guarded, Sound, Covered;
    SoundIffGuarded(idx);
    if Guarded(idx) { ExactIffClear(idx, patterns); }
  }

  // ----- Requests with `**` segments

  /** The walk lands on a registered pattern exactly when it matches, whatever is requested. */
  ghost predicate ExactForAll(idx: Index, patterns: set<Path>)
  {
    forall segments, p | p in patterns :: LandsOn(idx, segments, p) <==> Matches(p, Effective(segments))
  }

  /** No pattern has a `**`, and no `*` has one beside it. */
  ghost predicate FreeOfGlobs(patterns: set<Path>)
  {
    forall p | p in patterns && "" !in p :: GlobSafe(patterns, p)
  }

  /** The walk is exact for every request without exception if and only if in addition the patterns are free of `**`. */
  lemma ExactForAllIff(idx: Index, patterns: set<Path>)
    requires Spans(idx, patterns) && Guarded(idx)
    ensures ExactForAll(idx, patterns) <==> Clear(patterns) && FreeOfGlobs(patterns)
  {
    hide Spans, Guarded, Clear, Matches, LandsOn, GlobSafe;
    if Clear(patterns) && FreeOfGlobs(patterns) {
      forall segments, p | p in patterns ensures LandsOn(idx, segments, p) <==> Matches(p, Effective(segments)) {
        if LandsOn(idx, segments, p) { LandedMatches(idx, patterns, segments, p); }
        if Matches(p, Effective(segments)) {
          if "" in p { EmptyNeverMatches(p, Effective(segments)); }
          FindsMatch(idx, patterns, segments, p);
        }
      }
    }
    if ExactForAll(idx, patterns) {
      assert Exact(idx, patterns);
      ExactIsClear(idx, patterns);
      forall p | p in patterns && "" !in p ensures GlobSafe(patterns, p) { ExactIsGlobSafe(idx, patterns, p); }
    }
  }

  lemma MissedByAll(idx: Index, patterns: set<Path>, p: Path, segments: Path)
    requires p in patterns && "" !in segments && Matches(p, segments) && !LandsOn(idx, segments, p)
    ensures !ExactForAll(idx, patterns)
  {
    hide Matches, LandsOn;
    EffectiveWhole(segments);
    assert !(LandsOn(idx, segments, p) <==> Matches(p, Effective(segments)));
  }

  lemma ExactIsGlobSafe(idx: Index, patterns: set<Path>, p: Path)
    requires Spans(idx, patterns) && Clear(patterns) && ExactForAll(idx, patterns) && p in patterns && "" !in p
    ensures GlobSafe(patterns, p)
  {
    hide Spans, ExactForAll, Effective, StarsSpared;
    var x := FreshExists(idx);
    if GLOB in p { SpelledGlobIsMissed(idx, patterns, p, x); }
    forall q | q in patterns ensures StarsSpared(p, Effective(q)) {
      StarIsSpared(idx, patterns, p, q, x);
    }
  }

  lemma {:induction false} MatchesItself(p: Path)
    ensures Matches(p, p)
  {
    if p != [] { MatchesItself(p[1..]); }
  }

  /** A request spelled like the pattern, with one segment more: its `**` is taken for the key, and no longer stands for more. */
  lemma SpelledGlobIsMissed(idx: Index, patterns: set<Path>, p: Path, x: Segment)
    requires Spans(idx, patterns) && Fresh(idx, x) && p in patterns && "" !in p && Tame(p) && GLOB in p
    ensures !ExactForAll(idx, patterns)
  {
    hide Spans, ExactForAll, Aim;
    SpansPattern(idx, patterns, p);
    var i :| 0 <= i < |p| && p[i] == GLOB;
    var n, request := |p| - 1, p + [x];
    assert p[n] == GLOB by { if i < n { assert p[..n][i] == GLOB; } }
    var st := FollowsKeys(idx, request, p, |p|);
    assert st.node == p;
    if Step(idx, request, st).Next? { NextExtends(idx, request, st); }
    PassesBy(idx, request, st, p);
    SpelledMatches(p, x);
    MissedByAll(idx, patterns, p, request);
  }

  lemma SpelledMatches(p: Path, x: Segment)
    requires p != [] && p[|p|-1] == GLOB
    ensures Matches(p, p + [x])
  {
    hide Matches;
    var n := |p| - 1;
    MatchesItself(p[..n]);
    GlobMatchesAny([GLOB, x]);
    MatchesConcat(p[..n], [GLOB], p[..n], [GLOB, x]);
    assert p[..n] + [GLOB] == p && p[..n] + [GLOB, x] == p + [x];
  }

  /** A literal `**` segment leads from a `*` to a `**` beside it. */
  lemma StarIsSpared(idx: Index, patterns: set<Path>, p: Path, q: Path, x: Segment)
    requires Spans(idx, patterns) && Fresh(idx, x) && ExactForAll(idx, patterns) && p in patterns && "" !in p && q in patterns
    ensures StarsSpared(p, Effective(q))
  {
    hide Spans, ExactForAll, Effective, Fresh;
    var t := Effective(q);
    forall k | 0 <= k < |p| && k < |t| && p[..k] == t[..k] && p[k] == STAR ensures t[k] != GLOB {
      if t[k] == GLOB { GlobBesideStar(idx, patterns, p, q, k); }
    }
  }

  lemma GlobBesideStar(idx: Index, patterns: set<Path>, p: Path, q: Path, k: nat)
    requires Spans(idx, patterns) && p in patterns && "" !in p && q in patterns
    requires k < |p| && k < |Effective(q)| && p[..k] == Effective(q)[..k] && p[k] == STAR && Effective(q)[k] == GLOB
    ensures !ExactForAll(idx, patterns)
  {
    hide Spans, ExactForAll, Effective, Matches, PrefixClosed, Child, Step;
    var request := p[..k] + [GLOB] + p[k+1..];
    SpansPattern(idx, patterns, p);
    HeadInIndex(idx, patterns, q, k);
    PrefixInIndex(idx, p, k);
    assert forall s | s in p[..k] :: s in p;
    assert forall s | s in p[k+1..] :: s in p;
    var st := FollowsKeys(idx, request, p[..k], k);
    assert p[..k][..k] == p[..k];
    TakesGlob(idx, request, st);
    assert (p[..k] + [GLOB])[k] == GLOB;
    PassesBy(idx, request, st, p);
    GlobForStarMatches(p, k);
    MissedByAll(idx, patterns, p, request);
  }

  lemma GlobForStarMatches(p: Path, k: nat)
    requires k < |p| && p[k] == STAR
    ensures Matches(p, p[..k] + [GLOB] + p[k+1..])
  {
    hide Matches;
    MatchesItself(p[..k]);
    MatchesItself(p[k+1..]);
    OneStar(GLOB);
    MatchesConcat(p[..k], [STAR], p[..k], [GLOB]);
    MatchesConcat(p[..k] + [STAR], p[k+1..], p[..k] + [GLOB], p[k+1..]);
    assert p[..k] + [STAR] + p[k+1..] == p;
  }

  lemma OneStar(s: Segment)
    ensures Matches([STAR], [s])
  {
    assert [STAR][1..] == [] && [s][1..] == [];
  }

  lemma TakesGlob(idx: Index, request: Path, st: State)
    requires 1 <= st.pos <= |request| && request[st.pos-1] == GLOB && Child(idx, st.node, GLOB)
    ensures Step(idx, request, st).Next? && Step(idx, request, st).state.node == st.node + [GLOB]
  {
    hide Aim;
    AimHits(idx, request, st);
  }

  /** At most one of clear patterns matches a request. */
  lemma UniqueMatch(idx: Index, patterns: set<Path>, segments: Path, p: Path, q: Path)
    requires Spans(idx, patterns) && Guarded(idx) && Clear(patterns)
    requires GLOB !in Effective(segments) && p in patterns && q in patterns
    requires Matches(p, Effective(segments)) && Matches(q, Effective(segments))
    ensures p == q
  {
    hide Clear, Spans, Guarded, Matches;
    FindsMatch(idx, patterns, segments, p);
    FindsMatch(idx, patterns, segments, q);
  }

  // ----- Patterns without empty segments

  /** Two patterns part before any `**`, and if both go on there, with two literals. */
  predicate Apart(p: Path, q: Path)
  {
    forall k | 0 <= k <= |p| && k <= |q| && p[..k] == q[..k] ::
      && GLOB !in p[..k]
      && (k < |p| && k < |q| && p[k] != q[k] ==> Rank(p[k]) == 0 == Rank(q[k]))
  }

  /** Patterns without empty segments spare each other exactly when any two are apart. */
  lemma ClearIffApart(patterns: set<Path>)
    requires forall p | p in patterns :: "" !in p
    ensures Clear(patterns) <==>
      (forall p | p in patterns :: Tame(p)) && (forall p, q | p in patterns && q in patterns && p != q :: Apart(p, q))
  {
    hide Tame, Apart, Spares, Effective;
    forall p | p in patterns ensures Effective(p) == p { EffectiveWhole(p); }
    if Clear(patterns) {
      forall p, q | p in patterns && q in patterns && p != q ensures Apart(p, q) {
        assert Spares(p, Effective(q)) && Spares(q, Effective(p));
        SparedIsApart(p, q);
      }
    }
    if (forall p | p in patterns :: Tame(p)) && (forall p, q | p in patterns && q in patterns && p != q :: Apart(p, q)) {
      forall p, q | p in patterns && q in patterns ensures Spares(p, Effective(q)) {
        if p != q { ApartIsSpared(p, q); } else { SparesItself(p); }
      }
    }
  }

  lemma SparesItself(p: Path)
    ensures Spares(p, p)
  {}

  lemma ApartIsSpared(p: Path, q: Path)
    requires Apart(p, q)
    ensures Spares(p, q)
  {
    assert p[..|p|] == p;
  }

  lemma SparedIsApart(p: Path, q: Path)
    requires Spares(p, q) && Spares(q, p) && p != q
    ensures Apart(p, q)
  {
    var d := DifferenceOf(p, q);
    assert p[..|p|] == p && q[..|q|] == q;
    assert GLOB !in p[..d];
    forall k | 0 <= k <= |p| && k <= |q| && p[..k] == q[..k]
      ensures GLOB !in p[..k]
      ensures k < |p| && k < |q| && p[k] != q[k] ==> Rank(p[k]) == 0 == Rank(q[k])
    {
      assert forall j | 0 <= j < k :: p[j] == p[..k][j] == q[..k][j] == q[j];
      assert k <= d;
      assert forall j | 0 <= j < k :: p[..k][j] == p[..d][j];
    }
  }

  // ----- Exact at every node

  /** No node offers a choice between a wildcard and anything else, and nothing hangs below `**`. */
  ghost predicate Deterministic(idx: Index)
  {
    && (forall p, s, t | Child(idx, p, s) && Child(idx, p, t) && s != t :: Rank(s) == 0 == Rank(t))
    && (forall p | Child(idx, p, GLOB) :: Leaf(idx, p + [GLOB]))
  }

  /** Exactness for every node, registered or not, is the narrower class of deterministic indexes. */
  lemma ExactIffDeterministic(idx: Index)
    requires PrefixClosed(idx) && NoEmptyKeys(idx)
    ensures Exact(idx, idx.Keys) <==> Deterministic(idx)
  {
    NoEmptyIndexIsGuarded(idx);
    hide Exact, NoEmptyKeys, Clear, Deterministic, PrefixClosed, Guarded;
    assert Spans(idx, idx.Keys);
    ExactIffClear(idx, idx.Keys);
    ClearIffDeterministic(idx);
  }

  lemma NoEmptyIndexIsGuarded(idx: Index)
    requires NoEmptyKeys(idx)
    ensures Guarded(idx)
  {
    hide NoEmptyKeys;
    forall p ensures !Child(idx, p + [GLOB], "") { NoEmptyChild(idx, p + [GLOB]); }
  }

  lemma ClearIffDeterministic(idx: Index)
    requires PrefixClosed(idx) && NoEmptyKeys(idx)
    ensures Clear(idx.Keys) <==> Deterministic(idx)
  {
    ClearIffApart(idx.Keys);
    hide Clear, NoEmptyKeys;
    if Clear(idx.Keys) {
      forall p, s, t | Child(idx, p, s) && Child(idx, p, t) && s != t ensures Rank(s) == 0 == Rank(t) {
        var q, r := p + [s], p + [t];
        assert q[..|p|] == p == r[..|p|] && q[|p|] == s && r[|p|] == t;
        assert q != r && Apart(q, r);
      }
      forall p | Child(idx, p, GLOB) ensures Leaf(idx, p + [GLOB]) {
        if t :| Child(idx, p + [GLOB], t) {
          var q, r := p + [GLOB], p + [GLOB] + [t];
          assert q[..|q|] == r[..|q|] && q[..|q|][|p|] == GLOB;
          assert q != r && Apart(q, r);
        }
      }
    }
    if Deterministic(idx) {
      forall p, q | p in idx && q in idx && p != q ensures Apart(p, q) { DeterministicIsApart(idx, p, q); }
      forall p | p in idx ensures Tame(p) {
        forall k | 0 <= k < |p| ensures GLOB !in p[..k] { NothingBelowGlob(idx, p, k); }
      }
    }
  }

  lemma NothingBelowGlob(idx: Index, p: Path, k: nat)
    requires PrefixClosed(idx) && Deterministic(idx) && p in idx && k < |p|
    ensures GLOB !in p[..k]
  {
    if GLOB in p[..k] {
      var i :| 0 <= i < k && p[..k][i] == GLOB;
      PrefixInIndex(idx, p, i + 1);
      PrefixInIndex(idx, p, i + 2);
      assert p[..i+1] == p[..i] + [GLOB] && p[..i+2] == p[..i+1] + [p[i+1]];
      assert Child(idx, p[..i], GLOB) && Child(idx, p[..i+1], p[i+1]);
    }
  }

  lemma DeterministicIsApart(idx: Index, p: Path, q: Path)
    requires PrefixClosed(idx) && Deterministic(idx) && p in idx && q in idx && p != q
    ensures Apart(p, q)
  {
    hide Deterministic, PrefixClosed;
    forall k | 0 <= k <= |p| && k <= |q| && p[..k] == q[..k]
      ensures GLOB !in p[..k]
      ensures k < |p| && k < |q| && p[k] != q[k] ==> Rank(p[k]) == 0 == Rank(q[k])
    {
      if k < |p| { NothingBelowGlob(idx, p, k); }
      if k < |q| { NothingBelowGlob(idx, q, k); }
      assert p[..|p|] == p && q[..|q|] == q;
      if k < |p| && k < |q| && p[k] != q[k] { ChildrenDiffer(idx, p, q, k); }
    }
  }

  lemma ChildrenDiffer(idx: Index, p: Path, q: Path, k: nat)
    requires PrefixClosed(idx) && Deterministic(idx) && p in idx && q in idx
    requires k < |p| && k < |q| && p[..k] == q[..k] && p[k] != q[k]
    ensures Rank(p[k]) == 0 == Rank(q[k])
  {
    PrefixInIndex(idx, p, k + 1);
    PrefixInIndex(idx, q, k + 1);
    assert p[..k+1] == p[..k] + [p[k]] && q[..k+1] == p[..k] + [q[k]];
    assert Child(idx, p[..k], p[k]) && Child(idx, p[..k], q[k]);
  }

  // ----- Registered endpoints

  ghost function PatternsOf(eps: seq<Endpoint>): set<Path>
  {
    set i | 0 <= i < |eps| :: Pattern(eps[i].request.path)
  }

  lemma BuildSpans(eps: seq<Endpoint>)
    ensures Spans(Build(eps), PatternsOf(eps))
  {
    hide Build, Pattern;
    BuildPrefixClosed(eps);
    forall p | p in PatternsOf(eps) ensures p in Build(eps) {
      var i :| 0 <= i < |eps| && p == Pattern(eps[i].request.path);
      BuildNodes(eps, p);
    }
    forall p | p in Build(eps) && p != [] ensures Covered(PatternsOf(eps), p) {
      BuildNodes(eps, p);
      var i :| 0 <= i < |eps| && p <= Pattern(eps[i].request.path);
      assert Pattern(eps[i].request.path) in PatternsOf(eps);
    }
  }

  lemma GuardedBuild(eps: seq<Endpoint>)
    requires GuardedPatterns(eps)
    ensures Guarded(Build(eps)) && Spans(Build(eps), PatternsOf(eps))
  {
    hide Build, GuardedPatterns, Guarded, Spans, Covered, Sound;
    BuildSpans(eps);
    BuildPrefixClosed(eps);
    BuildSoundExactly(eps);
    SoundIffGuarded(Build(eps));
  }

  /** After any registrations: every request lands on matching patterns only, and each without a `**` segment on
      all registered patterns it matches, if and only if the registered paths are guarded and clear. */
  lemma BuildExactly(eps: seq<Endpoint>)
    ensures Sound(Build(eps)) && Exact(Build(eps), PatternsOf(eps)) <==> GuardedPatterns(eps) && Clear(PatternsOf(eps))
  {
    hide Build, GuardedPatterns, Guarded, Sound, Exact, Clear, Spans;
    BuildSpans(eps);
    BuildSoundExactly(eps);
    if GuardedPatterns(eps) {
      GuardedBuild(eps);
      ExactIffClear(Build(eps), PatternsOf(eps));
    }
  }

  /** The same for every request without exception. */
  lemma BuildExactlyForAll(eps: seq<Endpoint>)
    ensures Sound(Build(eps)) && ExactForAll(Build(eps), PatternsOf(eps)) <==>
      GuardedPatterns(eps) && Clear(PatternsOf(eps)) && FreeOfGlobs(PatternsOf(eps))
  {
    hide Build, GuardedPatterns, Guarded, Sound, ExactForAll, Clear, Spans, FreeOfGlobs;
    BuildSpans(eps);
    BuildSoundExactly(eps);
    if GuardedPatterns(eps) {
      GuardedBuild(eps);
      ExactForAllIff(Build(eps), PatternsOf(eps));
    }
  }

  /** The class is wider than that of deterministic indexes: one pattern `/p/../l/..` with `**` in both gaps. */
  lemma ClearIsWider(idx: Index, p: Segment, l: Segment)
    requires Rank(p) == 0 == Rank(l) && p != "" && l != ""
    requires Spans(idx, {[p, GLOB, l, GLOB]}) && NoEmptyKeys(idx)
    ensures Exact(idx, {[p, GLOB, l, GLOB]}) && !Deterministic(idx)
  {
    hide Clear, Exact, Spans, NoEmptyKeys, Guarded, PrefixClosed;
    var r := [p, GLOB, l, GLOB];
    ExampleIsClear(p, l);
    NoEmptyIndexIsGuarded(idx);
    ExactIffClear(idx, {r});
    SpansPattern(idx, {r}, r);
    PrefixInIndex(idx, r, 2);
    PrefixInIndex(idx, r, 3);
    assert r[..2] == [p] + [GLOB] && r[..3] == [p] + [GLOB] + [l];
    assert Child(idx, [p], GLOB) && Child(idx, [p] + [GLOB], l);
  }

  lemma ExampleIsClear(p: Segment, l: Segment)
    requires Rank(p) == 0 == Rank(l) && p != "" && l != ""
    ensures Clear({[p, GLOB, l, GLOB]})
  {
    hide Tame, Spares, Effective;
    var r := [p, GLOB, l, GLOB];
    ExampleIsTame(p, l);
    SparesItself(r);
    EffectiveWhole(r);
  }

  lemma ExampleIsTame(p: Segment, l: Segment)
    requires Rank(p) == 0 == Rank(l)
    ensures Tame([p, GLOB, l, GLOB])
  {
    assert [p, GLOB, l, GLOB][..1] == [p];
  }
}
