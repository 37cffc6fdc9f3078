/** What the walk promises: soundness, the exact class of indexes on which it is
    complete, its preference for specific patterns, and the path parameters. */
module Routing {
  import opened Paths
  import opened Patterns
  import opened Index
  import opened Walk

  // ----- Soundness

  lemma EndAligned(idx: Index, request: Path, st: State, cut: seq<nat>, o: Outcome) returns (full: seq<nat>)
    requires Tracks(idx, request, st, cut) && Ended(idx, request, st, o)
    requires o.Landed? && "" !in o.node
    ensures Aligned(o.node, request, full)
    ensures full[..|o.node|] == cut[..|o.node|]
  {
    full := cut;
    if st.all {
      AlignedAbsorb(st.node, request[..st.pos-1], cut, request[st.pos-1..]);
      assert request[..st.pos-1] + request[st.pos-1..] == request;
      full := cut[|st.node| := |request|];
    } else {
      assert request[..st.pos-1] == request;
    }
  }

  lemma {:induction false} EmptyNeverMatches(pattern: Path, request: Path)
    requires "" in pattern && "" !in request
    ensures !Matches(pattern, request)
  {
    if pattern[0] == GLOB {
      forall n | 1 <= n <= |request| ensures !Matches(pattern[1..], request[n..]) {
        EmptyNeverMatches(pattern[1..], request[n..]);
      }
    } else if pattern[0] != "" && request != [] {
      EmptyNeverMatches(pattern[1..], request[1..]);
    }
  }

  /** Where the walk lands, the effective request matches the pattern of the node exactly when that
      pattern has no empty segment. */
  lemma RoutingSoundExactly(idx: Index, segments: Path)
    requires [] in idx
    ensures var o := Route(idx, segments);
      && o.node in idx
      && (o.Landed? ==> (Matches(o.node, Effective(segments)) <==> "" !in o.node))
  {
    var last, cut := LastRound(idx, segments);
    var request, o := Effective(segments), Route(idx, segments);
    if o.Landed? {
      if "" in o.node {
        EmptyNeverMatches(o.node, request);
      } else {
        var full := EndAligned(idx, request, last, cut, o);
        MatchesIffAligned(o.node, request);
      }
    }
  }

  /** The sub-path named in the diagnostics of a failed walk is in bounds and, without empty keys, is
      matched by the node the walk stopped at; and no child of that node takes the next segment. */
  lemma DiagnosticsSound(idx: Index, segments: Path)
    requires [] in idx
    ensures var o := Route(idx, segments); o.Lost? ==>
      && o.node in idx
      && 1 <= o.pos <= |segments|
      && ("" !in o.node ==> Matches(o.node, segments[..o.pos-1]))
      && !Child(idx, o.node, segments[o.pos-1]) && !Child(idx, o.node, STAR) && !Child(idx, o.node, GLOB)
  {
    var last, cut := LastRound(idx, segments);
    var request, o := Effective(segments), Route(idx, segments);
    if o.Lost? {
      assert segments[..o.pos-1] == request[..o.pos-1];
      MatchesIffAligned(o.node, request[..o.pos-1]);
    }
  }

  // ----- Path parameters

  /** Node `k` binds `name`: it is a `*` of that name, and the segment taken there is not itself `*`. */
  ghost predicate Binds(idx: Index, node: Path, request: Path, cut: seq<nat>, name: string, k: nat)
  {
    k < |node| && k < |cut| && AsWildcard(node, request, cut, k, STAR) && NameOf(idx, node[..k+1]) == name
  }

  /** The last node that binds a name decides what it is bound to. */
  ghost predicate BindsLast(idx: Index, node: Path, request: Path, cut: seq<nat>, name: string, k: nat, bound: nat)
  {
    && k < bound && Binds(idx, node, request, cut, name, k)
    && forall j | k < j < bound :: !Binds(idx, node, request, cut, name, j)
  }

  lemma {:induction false} CapturesExactly(idx: Index, node: Path, request: Path, cut: seq<nat>, n: nat, name: string)
    requires n <= |node| && n <= |cut| && name != ""
    ensures name in Captures(idx, node, request, cut, n) <==> exists k :: BindsLast(idx, node, request, cut, name, k, n)
    ensures forall k | BindsLast(idx, node, request, cut, name, k, n) ::
      name in Captures(idx, node, request, cut, n) &&
      Captures(idx, node, request, cut, n)[name] == CapturedAt(node, request, cut, k)
  {
    if n > 0 {
      hide AsWildcard, CapturedAt;
      var m := n - 1;
      CapturesExactly(idx, node, request, cut, m, name);
      if Binds(idx, node, request, cut, name, m) {
        assert BindsLast(idx, node, request, cut, name, m, n);
        assert forall k | BindsLast(idx, node, request, cut, name, k, n) :: k == m;
      } else {
        forall k ensures BindsLast(idx, node, request, cut, name, k, n) <==> BindsLast(idx, node, request, cut, name, k, m) {
          if BindsLast(idx, node, request, cut, name, k, n) { assert k != m; }
        }
        if k :| BindsLast(idx, node, request, cut, name, k, m) { assert BindsLast(idx, node, request, cut, name, k, n); }
        if k :| BindsLast(idx, node, request, cut, name, k, n) { assert BindsLast(idx, node, request, cut, name, k, m); }
      }
    }
  }

  /** The walk's own reading of a pattern is the only one of its kind. */
  lemma {:induction false} FirstFitIsUnique(idx: Index, node: Path, request: Path, cut: seq<nat>, cut': seq<nat>, k: nat)
    requires PrefixClosed(idx) && node in idx
    requires Aligned(node, request, cut) && Aligned(node, request, cut')
    requires FirstFit(idx, node, request, cut) && FirstFit(idx, node, request, cut')
    requires k <= |node|
    ensures cut[k] == cut'[k]
  {
    if 0 < k < |node| {
      var j := k - 1;
      FirstFitIsUnique(idx, node, request, cut, cut', j);
      assert Fits(node[j], request, cut[j], cut[k]) && Fits(node[j], request, cut'[j], cut'[k]);
      if node[j] == GLOB {
        var skipping := AsWildcard(node, request, cut, j, GLOB);
        assert Resumes(idx, node[..k], request, cut[j] + 1, cut[k], node[k], skipping);
        assert Resumes(idx, node[..k], request, cut'[j] + 1, cut'[k], node[k], skipping);
        assert Fits(node[k], request, cut[k], cut[k+1]) && Fits(node[k], request, cut'[k], cut'[k+1]);
        PrefixInIndex(idx, node, k + 1);
        assert node[..k+1] == node[..k] + [node[k]];
        assert Child(idx, node[..k], node[k]);
      }
    }
  }

  /** For every request: the captured map binds exactly the names of the named `*` nodes whose segment is not
      itself `*`, each to the segment its last node took in the walk's own reading of the pattern, or to
      nothing directly below a `**`. */
  lemma PathParametersExactly(idx: Index, segments: Path) returns (cut: seq<nat>)
    requires [] in idx
    requires Route(idx, segments).Landed? && "" !in Route(idx, segments).node
    ensures var o, request := Route(idx, segments), Effective(segments);
      && Aligned(o.node, request, cut) && FirstFit(idx, o.node, request, cut)
      && "" !in o.params
      && forall name | name != "" ::
           && (name in o.params <==> exists k :: BindsLast(idx, o.node, request, cut, name, k, |o.node|))
           && forall k | BindsLast(idx, o.node, request, cut, name, k, |o.node|) ::
                o.params[name] == CapturedAt(o.node, request, cut, k)
  {
    var o, request := Route(idx, segments), Effective(segments);
    var last, lastCut := LastRound(idx, segments);
    cut := EndAligned(idx, request, last, lastCut, o);
    FirstFitPrefix(idx, o.node, request, lastCut, cut);
    CapturesPrefix(idx, o.node, o.node, request, lastCut, cut, |o.node|);
    NoEmptyName(idx, o.node, request, cut, |o.node|);
    forall name | name != "" ensures
      && (name in o.params <==> exists k :: BindsLast(idx, o.node, request, cut, name, k, |o.node|))
      && forall k | BindsLast(idx, o.node, request, cut, name, k, |o.node|) ::
           o.params[name] == CapturedAt(o.node, request, cut, k)
    {
      CapturesExactly(idx, o.node, request, cut, |o.node|, name);
    }
  }

  lemma FirstFitPrefix(idx: Index, node: Path, request: Path, cut: seq<nat>, cut': seq<nat>)
    requires |cut| > |node| && |cut'| > |node| && cut[..|node|] == cut'[..|node|] && FirstFit(idx, node, request, cut)
    ensures FirstFit(idx, node, request, cut')
  {
    hide Resumes;
    assert forall k | 0 <= k < |node| :: cut[k] == cut[..|node|][k] == cut'[..|node|][k] == cut'[k];
    forall k | 0 <= k < |node| - 1 && node[k] == GLOB
      ensures Resumes(idx, node[..k+1], request, cut'[k] + 1, cut'[k+1], node[k+1], AsWildcard(node, request, cut', k, GLOB))
    {
      assert Resumes(idx, node[..k+1], request, cut[k] + 1, cut[k+1], node[k+1], AsWildcard(node, request, cut, k, GLOB));
    }
  }

  lemma {:induction false} NoEmptyName(idx: Index, node: Path, request: Path, cut: seq<nat>, n: nat)
    requires n <= |node| && n <= |cut|
    ensures "" !in Captures(idx, node, request, cut, n)
  {
    if n > 0 { NoEmptyName(idx, node, request, cut, n - 1); }
  }

  // ----- Specificity

  function Rank(s: Segment): nat
  {
    if s == GLOB then 2 else if s == STAR then 1 else 0
  }

  /** The first position at which two patterns differ. */
  ghost predicate FirstDifference(p: Path, q: Path, k: nat)
  {
    k < |p| && k < |q| && p[..k] == q[..k] && p[k] != q[k]
  }

  /** Up to the first `**`, a matching pattern takes one segment per key. */
  lemma {:induction false} PlainPrefix(pattern: Path, request: Path, cut: seq<nat>, k: nat)
    requires Aligned(pattern, request, cut) && k <= |pattern| && GLOB !in pattern[..k]
    ensures cut[k] == k
    ensures k < |pattern| ==> k < |request| && (pattern[k] == GLOB || pattern[k] == STAR || pattern[k] == request[k])
  {
    if k > 0 {
      assert pattern[..k-1] == pattern[..k][..k-1] && pattern[k-1] == pattern[..k][k-1];
      PlainPrefix(pattern, request, cut, k - 1);
      assert Fits(pattern[k-1], request, cut[k-1], cut[k]);
    }
    if k < |pattern| { assert Fits(pattern[k], request, cut[k], cut[k+1]); }
  }

  lemma PrefixInIndex(idx: Index, p: Path, k: nat)
    requires PrefixClosed(idx) && p in idx && k <= |p|
    ensures p[..k] in idx
    decreases |p| - k
  {
    if k == |p| { assert p[..k] == p; }
    else {
      PrefixInIndex(idx, p, k + 1);
      assert p[..k+1] == p[..k] + [p[k]];
      assert Child(idx, p[..k], p[k]);
    }
  }

  /** No `**` in front of the first difference. */
  ghost predicate PlainTogether(p: Path, q: Path)
  {
    forall j | 0 <= j <= |p| && j <= |q| && p[..j] == q[..j] :: GLOB !in p[..j]
  }

  lemma PreferredIsLeast(idx: Index, node: Path, s: Segment, other: Segment)
    requires s != STAR && s != GLOB && other in {s, STAR, GLOB}
    requires Child(idx, node, other) && other != Choice(idx, node, s)
    ensures Rank(Choice(idx, node, s)) < Rank(other)
  {}

  lemma ChosenIsMoreSpecific(idx: Index, request: Path, p: Path, cutP: seq<nat>, q: Path, cutQ: seq<nat>) returns (k: nat)
    requires PrefixClosed(idx) && NoWildcards(request)
    requires p in idx && q in idx && p != q && PlainTogether(p, q)
    requires Aligned(p, request, cutP) && Aligned(q, request, cutQ)
    requires forall k | 0 <= k < |p| && GLOB !in p[..k] :: k < |request| && p[k] == Choice(idx, p[..k], request[k])
    ensures FirstDifference(p, q, k) && Rank(p[k]) < Rank(q[k])
  {
    k := DifferenceOf(p, q);
    PlainPrefix(p, request, cutP, k);
    PlainPrefix(q, request, cutQ, k);
    assert k < |p| && k < |q|;
    PrefixInIndex(idx, q, k + 1);
    assert q[..k+1] == p[..k] + [q[k]];
    assert request[k] in request;
    PreferredIsLeast(idx, p[..k], request[k], q[k]);
  }

  /** When the walk lands on one of two matching patterns without a `**` in front of their first
      difference, they do differ, and there the chosen one is strictly more specific. */
  lemma MostSpecificWins(idx: Index, segments: Path, q: Path) returns (k: nat)
    requires PrefixClosed(idx) && NoWildcards(Effective(segments))
    requires Route(idx, segments).Landed? && "" !in Route(idx, segments).node
    requires q in idx && q != Route(idx, segments).node && Matches(q, Effective(segments))
    requires PlainTogether(Route(idx, segments).node, q)
    ensures FirstDifference(Route(idx, segments).node, q, k)
    ensures Rank(Route(idx, segments).node[k]) < Rank(q[k])
  {
    var request, o := Effective(segments), Route(idx, segments);
    var last, lastCut := LastRound(idx, segments);
    var cutP := EndAligned(idx, request, last, lastCut, o);
    MatchesIffAligned(q, request);
    var cutQ :| Aligned(q, request, cutQ);
    k := ChosenIsMoreSpecific(idx, request, o.node, cutP, q, cutQ);
  }

  lemma DifferenceOf(p: Path, q: Path) returns (k: nat)
    requires p != q
    ensures k <= |p| && k <= |q| && p[..k] == q[..k]
    ensures FirstDifference(p, q, k) || (k == |p| < |q|) || (k == |q| < |p|)
  {
    k := 0;
    while k < |p| && k < |q| && p[k] == q[k]
      invariant k <= |p| && k <= |q| && p[..k] == q[..k]
    {
      k := k + 1;
    }
  }
}
