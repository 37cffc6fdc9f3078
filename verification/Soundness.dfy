/** The indexes on which the walk never lands on a pattern that does not match. */
module Soundness {
  import opened Paths
  import opened Patterns
  import opened Endpoints
  import opened Index
  import opened Walk
  import opened Routing
  import opened Requests

  /** Wherever a request lands, the pattern matches. */
  ghost predicate Sound(idx: Index)
    requires [] in idx
  {
    forall segments :: SoundFor(idx, segments)
  }

  ghost predicate SoundFor(idx: Index, segments: Path)
    requires [] in idx
  {
    Route(idx, segments).Landed? ==> Matches(Route(idx, segments).node, Effective(segments))
  }

  /** No empty segment directly below a `**`, unless a `*` beside that `**` keeps requests away from it. */
  ghost predicate Guarded(idx: Index)
  {
    forall p | "" !in p && Child(idx, p + [GLOB], "") :: Child(idx, p, STAR)
  }

  /** The walk is sound for every request if and only if the index is guarded. */
  lemma SoundIffGuarded(idx: Index)
    requires PrefixClosed(idx)
    ensures Sound(idx) <==> Guarded(idx)
  {
    if Guarded(idx) {
      forall segments ensures SoundFor(idx, segments) {
        RoutingSoundExactly(idx, segments);
        StaysNonEmpty(idx, segments, START);
      }
    }
    if Sound(idx) {
      forall p | "" !in p && Child(idx, p + [GLOB], "") ensures Child(idx, p, STAR) {
        if !Child(idx, p, STAR) {
          var segments := LandsOnEmptyKey(idx, p);
          assert SoundFor(idx, segments);
          RoutingSoundExactly(idx, segments);
        }
      }
    }
  }

  /** A wildcard state stands on a `**` that was followed for want of a `*`. */
  ghost predicate EnteredForWant(idx: Index, st: State)
  {
    && "" !in st.node
    && (st.all ==> exists p :: st.node == p + [GLOB] && !Child(idx, p, STAR))
  }

  lemma StepStaysNonEmpty(idx: Index, segments: Path, st: State)
    requires Guarded(idx) && st.pos >= 1 && EnteredForWant(idx, st)
    ensures match Step(idx, segments, st)
      case Next(st') => EnteredForWant(idx, st')
      case Stop(o) => o.node == st.node
  {
    if Step(idx, segments, st).Next? {
      var aim := Aim(idx, segments, st);
      if st.all {
        var p :| st.node == p + [GLOB] && !Child(idx, p, STAR);
        assert forall s | s in p :: s in st.node;
        assert !Child(idx, p + [GLOB], "");
      }
    }
  }

  lemma {:induction false} StaysNonEmpty(idx: Index, segments: Path, st: State)
    requires Guarded(idx) && st.pos >= 1 && EnteredForWant(idx, st)
    ensures "" !in Run(idx, segments, st).node
    decreases |segments| + 1 - st.pos
  {
    hide Guarded;
    StepStaysNonEmpty(idx, segments, st);
    if Step(idx, segments, st).Next? { StaysNonEmpty(idx, segments, Step(idx, segments, st).state); }
  }

  /** The request that follows the keys to the unguarded `**` and goes on with two unknown segments lands
      on the empty key. */
  lemma LandsOnEmptyKey(idx: Index, p: Path) returns (segments: Path)
    requires PrefixClosed(idx) && "" !in p && Child(idx, p + [GLOB], "") && !Child(idx, p, STAR)
    ensures Route(idx, segments).Landed? && "" in Route(idx, segments).node
  {
    var x := FreshExists(idx);
    segments := p + [x, x];
    assert Child(idx, p, GLOB);
    var st := FollowsKeys(idx, segments, p, |p|);
    assert st.node == p;
    ChildIsNotFresh(idx, x, p);
    ChildIsNotFresh(idx, x, p + [GLOB]);
    var st2 := State(p + [GLOB], |p| + 2, true, st.params);
    assert Step(idx, segments, st) == Next(st2);
    var st3 := State(p + [GLOB] + [""], |p| + 3, false, st.params);
    assert Step(idx, segments, st2) == Next(st3) by {
      assert Skip(idx, p + [GLOB], segments, |p| + 3) == |p| + 3;
      assert Skip(idx, p + [GLOB], segments, |p| + 2) == |p| + 3;
    }
    assert Step(idx, segments, st3) == Stop(Landed(st3.node, st.params));
    assert Run(idx, segments, st2) == Run(idx, segments, st3);
  }

  /** The same in terms of what was registered. */
  ghost predicate GuardedPatterns(eps: seq<Endpoint>)
  {
    forall i, k | 0 <= i < |eps| && 0 <= k < |Pattern(eps[i].request.path)| - 1 ::
      Unguarded(Pattern(eps[i].request.path), k) ==> PassedBy(eps, Pattern(eps[i].request.path)[..k] + [STAR])
  }

  predicate Unguarded(pattern: Path, k: nat)
    requires k + 1 < |pattern|
  {
    "" !in pattern[..k] && pattern[k] == GLOB && pattern[k+1] == ""
  }

  /** After any registrations, routing is sound for every request if and only if every `**` followed by an
      empty segment, in front of which there is none, has a `*` beside it. */
  lemma BuildSoundExactly(eps: seq<Endpoint>)
    ensures Sound(Build(eps)) <==> GuardedPatterns(eps)
  {
    hide Build, Pattern, Sound;
    var idx := Build(eps);
    BuildPrefixClosed(eps);
    SoundIffGuarded(idx);
    if Guarded(idx) {
      forall i, k | 0 <= i < |eps| && 0 <= k < |Pattern(eps[i].request.path)| - 1
        && Unguarded(Pattern(eps[i].request.path), k)
        ensures PassedBy(eps, Pattern(eps[i].request.path)[..k] + [STAR])
      {
        var pattern := Pattern(eps[i].request.path);
        var p := pattern[..k];
        assert p + [GLOB] + [""] == pattern[..k+2];
        BuildNodes(eps, p + [GLOB] + [""]);
        BuildNodes(eps, p + [STAR]);
        assert Child(idx, p + [GLOB], "");
      }
    }
    if GuardedPatterns(eps) {
      forall p | "" !in p && Child(idx, p + [GLOB], "") ensures Child(idx, p, STAR) {
        BuildNodes(eps, p + [GLOB] + [""]);
        BuildNodes(eps, p + [STAR]);
        var i :| 0 <= i < |eps| && p + [GLOB] + [""] <= Pattern(eps[i].request.path);
        PrefixIsUnguarded(p, Pattern(eps[i].request.path));
      }
    }
  }

  lemma PrefixIsUnguarded(p: Path, pattern: Path)
    requires "" !in p && p + [GLOB] + [""] <= pattern
    ensures |p| + 1 < |pattern| && pattern[..|p|] == p && Unguarded(pattern, |p|)
  {
    assert pattern[..|p|] == p;
    assert pattern[|p|] == (p + [GLOB] + [""])[|p|] && pattern[|p|+1] == (p + [GLOB] + [""])[|p|+1];
  }
}
