/** The greedy, never backtracking walk of a request through the index, one state
    per round of its loop, and what every round keeps. */
module Walk {
  import opened Paths
  import opened Patterns
  import opened Index

  type Params = map<string, string>

  /** The variables of the outer loop; `pos` counts the segments taken so far plus one. */
  datatype State = State(node: Path, pos: nat, all: bool, params: Params)

  datatype Outcome =
    | Landed(node: Path, params: Params)
    | Lost(node: Path, pos: nat, params: Params)

  datatype Move = Next(state: State) | Stop(outcome: Outcome)

  const START := State([], 1, false, map[])

  /** Below `**`: the first round, from `i` on, whose segment is a child's key. */
  ghost function Skip(idx: Index, node: Path, segments: Path, i: nat): (j: nat)
    requires i >= 1
    ensures j >= i
    ensures GetPathSegment(segments, j - 1) == "" || Child(idx, node, GetPathSegment(segments, j - 1))
    ensures forall k | i - 1 <= k < j - 1 :: GetPathSegment(segments, k) != "" && !Child(idx, node, GetPathSegment(segments, k))
    decreases |segments| + 1 - i
  {
    var s := GetPathSegment(segments, i - 1);
    if s == "" || Child(idx, node, s) then i else Skip(idx, node, segments, i + 1)
  }

  /** The round the next segment is taken in, and that segment: when the skipping runs out of
      segments the round stays the old one, but the segment is the empty one. */
  ghost function Aim(idx: Index, segments: Path, st: State): (r: (nat, Segment))
    requires st.pos >= 1
    ensures r.0 >= st.pos
    ensures !st.all ==> r == (st.pos, GetPathSegment(segments, st.pos - 1))
  {
    if !st.all then (st.pos, GetPathSegment(segments, st.pos - 1))
    else
      var j := Skip(idx, st.node, segments, st.pos);
      var s := GetPathSegment(segments, j - 1);
      if s == "" then (st.pos, "") else (j, s)
  }

  function Captured(params: Params, name: string, s: Segment): Params
  {
    if |name| > 0 then params[name := s] else params
  }

  /** Looks for segment `s` among the children: the literal first, then `*`, then `**`. */
  ghost function Follow(idx: Index, node: Path, params: Params, pos: nat, s: Segment): (move: Move)
    ensures move.Next? ==> move.state.pos == pos + 1
  {
    if Child(idx, node, s) then Next(State(node + [s], pos + 1, false, params))
    else if Child(idx, node, STAR) then
      var q := node + [STAR];
      Next(State(q, pos + 1, false, Captured(params, idx[q].param, s)))
    else if Child(idx, node, GLOB) then Next(State(node + [GLOB], pos + 1, true, params))
    else Stop(Lost(node, pos, params))
  }

  /** One round of the loop. */
  ghost function Step(idx: Index, segments: Path, st: State): (move: Move)
    requires st.pos >= 1
    ensures move.Next? ==> st.pos < move.state.pos && st.pos <= |segments|
  {
    if GetPathSegment(segments, st.pos - 1) == "" then Stop(Landed(st.node, st.params))
    else if Leaf(idx, st.node) then
      Stop(if st.all then Landed(st.node, st.params) else Lost(st.node, st.pos, st.params))
    else
      var (pos, s) := Aim(idx, segments, st);
      Follow(idx, st.node, st.params, pos, s)
  }

  /** The whole walk. The position grows in every round although the skipping rewrites it. */
  ghost function Run(idx: Index, segments: Path, st: State): Outcome
    requires st.pos >= 1
    decreases |segments| + 1 - st.pos
  {
    match Step(idx, segments, st)
    case Stop(outcome) => outcome
    case Next(st') => Run(idx, segments, st')
  }

  ghost function Route(idx: Index, segments: Path): Outcome
  {
    Run(idx, segments, START)
  }

  /** A walk from a state whose node has children goes on below the child that is followed. */
  lemma RunGoesOn(idx: Index, segments: Path, st: State, aim: (nat, Segment))
    requires st.pos >= 1 && GetPathSegment(segments, st.pos - 1) != "" && !Leaf(idx, st.node)
    requires aim == Aim(idx, segments, st)
    ensures var move := Follow(idx, st.node, st.params, aim.0, aim.1);
      && (move.Stop? ==> Run(idx, segments, st) == move.outcome)
      && (move.Next? ==> Run(idx, segments, st) == Run(idx, segments, move.state))
  {}

  /** A walk ends where the segments or the children end. */
  lemma RunEnds(idx: Index, segments: Path, st: State)
    requires st.pos >= 1 && (GetPathSegment(segments, st.pos - 1) == "" || Leaf(idx, st.node))
    ensures Run(idx, segments, st) ==
      if GetPathSegment(segments, st.pos - 1) == "" || st.all then Landed(st.node, st.params)
      else Lost(st.node, st.pos, st.params)
  {}

  /** The key the loop prefers for a segment. */
  ghost function Choice(idx: Index, node: Path, s: Segment): Segment
  {
    if Child(idx, node, s) then s else if Child(idx, node, STAR) then STAR else GLOB
  }

  function NameOf(idx: Index, p: Path): string
  {
    if p in idx then idx[p].param else ""
  }

  /** None of these segments is a child's key. */
  ghost predicate PassedOver(idx: Index, node: Path, request: Path, from: nat, to: nat)
    requires to <= |request|
  {
    forall m | from <= m < to :: !Child(idx, node, request[m])
  }

  /** One round in terms of the effective request: segment `s` is taken in round `pos` by following `key`. */
  ghost predicate Moved(idx: Index, request: Path, st: State, pos: nat, s: Segment, key: Segment, st': State)
  {
    && 1 <= st.pos <= pos <= |request|
    && (st.pos < pos ==> st.all)
    && (if s == "" then st.all && pos == st.pos else s == request[pos-1])
    && key == Choice(idx, st.node, s)
    && (st.all && s != "" ==> key == s)
    && (st.all ==> PassedOver(idx, st.node, request, st.pos - 1, if s == "" then |request| else pos - 1))
    && st'.node == st.node + [key] && st'.node in idx
    && st'.pos == pos + 1
    && (st'.all <==> key == GLOB != s)
    && st'.params == if key == STAR != s then Captured(st.params, NameOf(idx, st'.node), s) else st.params
  }

  /** The last round in the same terms. */
  ghost predicate Ended(idx: Index, request: Path, st: State, o: Outcome)
  {
    && o.node == st.node && o.params == st.params
    && match o
       case Landed(_, _) => st.all || st.pos == |request| + 1
       case Lost(_, pos, _) =>
         && 1 <= pos == st.pos <= |request|
         && !Child(idx, st.node, request[pos-1]) && !Child(idx, st.node, STAR) && !Child(idx, st.node, GLOB)
  }

  lemma SegmentsTaken(segments: Path, pos: nat)
    requires 1 <= pos <= |Effective(segments)| + 1
    ensures var s := GetPathSegment(segments, pos - 1);
      && (s == "" <==> pos == |Effective(segments)| + 1)
      && (s != "" ==> s == Effective(segments)[pos-1])
  {}

  /** Skipping stays inside the effective request. */
  lemma AimStaysInside(idx: Index, segments: Path, st: State)
    requires 1 <= st.pos <= |Effective(segments)|
    ensures var (pos, s) := Aim(idx, segments, st);
      && st.pos <= pos <= |Effective(segments)|
      && (st.pos < pos ==> st.all)
      && (if s == "" then st.all && pos == st.pos else s == Effective(segments)[pos-1])
      && (s != "" && st.all ==> Child(idx, st.node, s))
      && (st.all ==> PassedOver(idx, st.node, Effective(segments), st.pos - 1, if s == "" then |Effective(segments)| else pos - 1))
  {
    hide Effective, Skip, Child;
    var request := Effective(segments);
    SegmentsTaken(segments, st.pos);
    if st.all {
      var j := Skip(idx, st.node, segments, st.pos);
      assert GetPathSegment(segments, |request|) == "";
      SegmentsTaken(segments, j);
      forall m | st.pos - 1 <= m < j - 1 ensures !Child(idx, st.node, request[m]) {
        assert GetPathSegment(segments, m) == request[m];
      }
    }
  }

  lemma PassedFirst(idx: Index, node: Path, request: Path, from: nat, to: nat)
    requires from < to <= |request| && PassedOver(idx, node, request, from, to)
    ensures !Child(idx, node, request[from])
  {}

  /** Every round either moves or ends in this sense. */
  lemma StepMovesOrEnds(idx: Index, segments: Path, st: State) returns (pos: nat, s: Segment, key: Segment)
    requires 1 <= st.pos <= |Effective(segments)| + 1
    ensures match Step(idx, segments, st)
      case Next(st') => Moved(idx, Effective(segments), st, pos, s, key, st')
      case Stop(o) => Ended(idx, Effective(segments), st, o)
  {
    hide Effective, Skip, Aim, PassedOver;
    SegmentsTaken(segments, st.pos);
    pos, s, key := st.pos, "", "";
    if st.pos <= |Effective(segments)| {
      AimStaysInside(idx, segments, st);
      var aim := Aim(idx, segments, st);
      pos, s := aim.0, aim.1;
      if st.all && s == "" { PassedFirst(idx, st.node, Effective(segments), st.pos - 1, |Effective(segments)|); }
      key := Choice(idx, st.node, s);
    }
  }

  // ----- What every round keeps

  /** The node exists and, as long as no empty key was followed, its pattern is aligned with exactly
      the segments taken so far. */
  ghost predicate Tracks(idx: Index, request: Path, st: State, cut: seq<nat>)
  {
    && st.node in idx
    && 1 <= st.pos <= |request| + 1
    && (st.all ==> st.node != [] && st.node[|st.node|-1] == GLOB)
    && ("" !in st.node ==> Aligned(st.node, request[..st.pos-1], cut))
  }

  /** Until the first `**`, every key of the node is the one the loop prefers for its segment. */
  ghost predicate Chooses(idx: Index, request: Path, st: State)
  {
    && (GLOB !in st.node ==> st.pos == |st.node| + 1 && !st.all)
    && forall k | 0 <= k < |st.node| && GLOB !in st.node[..k] ::
         k < |request| && st.node[k] == Choice(idx, st.node[..k], request[k])
  }

  /** Key `k` was followed as the wildcard it is: the segment taken there is not spelled like it. */
  predicate AsWildcard(node: Path, request: Path, cut: seq<nat>, k: nat, key: Segment)
    requires k < |node| && k < |cut|
  {
    node[k] == key != GetPathSegment(request, cut[k])
  }

  /** The captured parameters are those of the named `*` nodes passed. */
  ghost predicate Collects(idx: Index, st: State, request: Path, cut: seq<nat>)
  {
    "" !in st.node ==>
      && |cut| == |st.node| + 1
      && st.params == Captures(idx, st.node, request, cut, |st.node|)
  }

  /** What a `*` at position `k` of the pattern captures: its segment, or nothing directly below `**`. */
  function CapturedAt(node: Path, request: Path, cut: seq<nat>, k: nat): Segment
    requires k < |node| && k < |cut|
  {
    if k > 0 && AsWildcard(node, request, cut, k - 1, GLOB) then "" else GetPathSegment(request, cut[k])
  }

  /** The captures of the first `k` keys of a pattern, a later one replacing an earlier one of the same name.
      A segment that is itself `*` is not captured. */
  function Captures(idx: Index, node: Path, request: Path, cut: seq<nat>, k: nat): Params
    requires k <= |node| && k <= |cut|
  {
    if k == 0 then map[]
    else
      var before := Captures(idx, node, request, cut, k - 1);
      if AsWildcard(node, request, cut, k - 1, STAR) then
        Captured(before, NameOf(idx, node[..k]), CapturedAt(node, request, cut, k - 1))
      else before
  }

  predicate NoWildcards(request: Path)
  {
    STAR !in request && GLOB !in request
  }

  /** The alignment after one more round. */
  function NextCut(st: State, pos: nat, cut: seq<nat>): seq<nat>
    requires pos >= 1
  {
    if |cut| != |st.node| + 1 then []
    else (if st.all then cut[|st.node| := pos - 1] else cut) + [pos]
  }

  lemma NextAligned(st: State, request: Path, pos: nat, cut: seq<nat>, key: Segment)
    requires 1 <= st.pos <= pos <= |request|
    requires Aligned(st.node, request[..st.pos-1], cut)
    requires if st.all then st.node != [] && st.node[|st.node|-1] == GLOB else pos == st.pos
    requires key == request[pos-1] || key == STAR || key == GLOB
    ensures Aligned(st.node + [key], request[..pos], NextCut(st, pos, cut))
  {
    var taken, more := request[..st.pos-1], request[st.pos-1..pos-1];
    assert taken + more == request[..pos-1];
    if st.all { AlignedAbsorb(st.node, taken, cut, more); }
    AlignedSnoc(st.node, request[..pos-1], if st.all then cut[|st.node| := pos - 1] else cut, key, request[pos-1]);
    assert request[..pos-1] + [request[pos-1]] == request[..pos];
  }

  lemma StepTracks(idx: Index, request: Path, st: State, cut: seq<nat>, pos: nat, s: Segment, key: Segment, st': State)
    requires Tracks(idx, request, st, cut) && Moved(idx, request, st, pos, s, key, st')
    ensures Tracks(idx, request, st', NextCut(st, pos, cut))
  {
    if "" !in st'.node {
      assert forall x | x in st.node :: x in st'.node;
      assert key in st'.node;
      NextAligned(st, request, pos, cut, key);
    }
  }

  lemma StepChooses(idx: Index, request: Path, st: State, pos: nat, s: Segment, key: Segment, st': State)
    requires Chooses(idx, request, st) && Moved(idx, request, st, pos, s, key, st')
    ensures Chooses(idx, request, st')
  {
    hide PassedOver, Child, Captured, Choice, NameOf;
    var n := |st.node|;
    assert forall k | 0 <= k <= n :: st'.node[..k] == st.node[..k];
    assert st'.node[..n] == st.node && st'.node[n] == key;
    assert GLOB in st.node ==> GLOB in st'.node;
  }

  lemma {:induction false} CapturesPrefix(idx: Index, node: Path, node': Path, request: Path, cut: seq<nat>, cut': seq<nat>, k: nat)
    requires k <= |node| && k <= |cut| && k <= |node'| && k <= |cut'|
    requires node[..k] == node'[..k] && cut[..k] == cut'[..k]
    ensures Captures(idx, node, request, cut, k) == Captures(idx, node', request, cut', k)
  {
    if k > 0 {
      assert node[..k-1] == node[..k][..k-1] && node'[..k-1] == node'[..k][..k-1];
      assert cut[..k-1] == cut[..k][..k-1] && cut'[..k-1] == cut'[..k][..k-1];
      CapturesPrefix(idx, node, node', request, cut, cut', k - 1);
      assert node[k-1] == node[..k][k-1] && cut[k-1] == cut[..k][k-1];
      assert node'[k-1] == node'[..k][k-1] && cut'[k-1] == cut'[..k][k-1];
      if k > 1 { assert node[k-2] == node[..k][k-2] && node'[k-2] == node'[..k][k-2]; }
    }
  }

  /** Following one more key adds that key's capture. */
  lemma CapturesSnoc(idx: Index, node: Path, request: Path, cut: seq<nat>, cut': seq<nat>, key: Segment)
    requires |cut| == |node| + 1 == |cut'| - 1 && cut[..|node|] == cut'[..|node|]
    ensures var before, node', n := Captures(idx, node, request, cut, |node|), node + [key], |node|;
      Captures(idx, node', request, cut', n + 1) ==
        if AsWildcard(node', request, cut', n, STAR) then Captured(before, NameOf(idx, node'), CapturedAt(node', request, cut', n))
        else before
  {
    var node', n := node + [key], |node|;
    assert node'[..n] == node[..n] && node'[..n+1] == node';
    CapturesPrefix(idx, node, node', request, cut, cut', n);
  }

  lemma SamePrefix(node: Path, node': Path, request: Path, cut: seq<nat>, cut': seq<nat>, k: nat, key: Segment)
    requires k < |node| <= |node'| && |node| <= |cut| && |node| <= |cut'|
    requires node'[..|node|] == node && cut[..|node|] == cut'[..|node|]
    ensures AsWildcard(node', request, cut', k, key) <==> AsWildcard(node, request, cut, k, key)
    ensures node'[k] == node[k] && cut'[k] == cut[k]
  {
    assert node'[k] == node'[..|node|][k] && cut[k] == cut[..|node|][k] == cut'[..|node|][k] == cut'[k];
  }

  /** A wildcard key is followed as such exactly when the segment at the new cut is not spelled like it. */
  lemma MovedAsWildcard(idx: Index, request: Path, st: State, pos: nat, s: Segment, key: Segment, st': State)
    requires Moved(idx, request, st, pos, s, key, st') && key != ""
    ensures s == key <==> GetPathSegment(request, pos - 1) == key
  {
    if s == "" {
      assert Child(idx, st.node, key);
      PassedFirst(idx, st.node, request, st.pos - 1, |request|);
    }
  }

  /** What a `*` followed in this round captures is the segment looked for. */
  lemma MovedCaptures(idx: Index, request: Path, st: State, cut: seq<nat>, pos: nat, s: Segment, key: Segment, st': State)
    requires Resumed(idx, st, request, cut) && Moved(idx, request, st, pos, s, key, st') && "" !in st.node && key != ""
    ensures var cut', n := NextCut(st, pos, cut), |st.node|;
      && |cut'| == n + 2 && cut'[..n] == cut[..n]
      && (AsWildcard(st'.node, request, cut', n, STAR) <==> key == STAR != s)
      && (key == STAR != s ==> CapturedAt(st'.node, request, cut', n) == s)
  {
    hide PassedOver, Child, FirstFit, Captured;
    var cut', n := NextCut(st, pos, cut), |st.node|;
    MovedAsWildcard(idx, request, st, pos, s, key, st');
    assert cut'[n] == pos - 1;
    if n > 0 { SamePrefix(st.node, st'.node, request, cut, cut', n - 1, GLOB); }
  }

  lemma StepCollects(idx: Index, request: Path, st: State, cut: seq<nat>, pos: nat, s: Segment, key: Segment, st': State)
    requires Collects(idx, st, request, cut) && Resumed(idx, st, request, cut)
    requires Moved(idx, request, st, pos, s, key, st')
    ensures Collects(idx, st', request, NextCut(st, pos, cut))
  {
    hide PassedOver, Captures, Child, FirstFit, AsWildcard, CapturedAt, Resumed, NextCut, Captured;
    if "" !in st'.node {
      assert forall x | x in st.node :: x in st'.node;
      assert key in st'.node;
      MovedCaptures(idx, request, st, cut, pos, s, key, st');
      CapturesSnoc(idx, st.node, request, cut, NextCut(st, pos, cut), key);
    }
  }

  /** Behind a `**`, a key that occurs further on stands for the first segment that is a child's key; a wildcard
      that does not stands for the very next segment, and then no later segment is a child's key. Behind a
      `**` that was spelled out, every key stands for the very next segment. */
  ghost predicate FirstFit(idx: Index, node: Path, request: Path, cut: seq<nat>)
    requires |cut| > |node|
  {
    forall k | 0 <= k < |node| - 1 && node[k] == GLOB ::
      Resumes(idx, node[..k+1], request, cut[k] + 1, cut[k+1], node[k+1], AsWildcard(node, request, cut, k, GLOB))
  }

  ghost predicate Resumes(idx: Index, node: Path, request: Path, from: nat, to: nat, key: Segment, skipping: bool)
  {
    && from <= to <= |request|
    && if !skipping then to == from
       else if GetPathSegment(request, to) == key then PassedOver(idx, node, request, from, to)
       else to == from && PassedOver(idx, node, request, from, |request|)
  }

  ghost predicate Resumed(idx: Index, st: State, request: Path, cut: seq<nat>)
  {
    "" !in st.node ==>
      && |cut| == |st.node| + 1 && cut[|st.node|] + 1 == st.pos
      && FirstFit(idx, st.node, request, cut)
      && (st.all <==> st.node != [] && AsWildcard(st.node, request, cut, |st.node| - 1, GLOB))
      && (st.node != [] && st.node[|st.node|-1] == GLOB ==> cut[|st.node|-1] + 2 == st.pos)
  }

  /** The round's own segment resumes the pattern behind a `**`. */
  lemma MoveResumes(idx: Index, request: Path, st: State, pos: nat, s: Segment, key: Segment, st': State)
    requires Moved(idx, request, st, pos, s, key, st') && key != ""
    ensures Resumes(idx, st.node, request, st.pos - 1, pos - 1, key, st.all)
  {
    MovedAsWildcard(idx, request, st, pos, s, key, st');
    hide Child, Captured;
  }

  lemma FirstFitSnoc(idx: Index, node: Path, request: Path, cut: seq<nat>, cut': seq<nat>, key: Segment)
    requires |cut| == |node| + 1 == |cut'| - 1 && cut[..|node|] == cut'[..|node|] && FirstFit(idx, node, request, cut)
    requires node != [] && node[|node|-1] == GLOB ==>
      Resumes(idx, node, request, cut[|node|-1] + 1, cut'[|node|], key, AsWildcard(node, request, cut, |node| - 1, GLOB))
    ensures FirstFit(idx, node + [key], request, cut')
  {
    hide Resumes, AsWildcard;
    var node' := node + [key];
    forall k | 0 <= k < |node| && node'[k] == GLOB
      ensures Resumes(idx, node'[..k+1], request, cut'[k] + 1, cut'[k+1], node'[k+1], AsWildcard(node', request, cut', k, GLOB))
    {
      assert node'[..k+1] == node[..k+1] && node[..|node|] == node;
      SamePrefix(node, node', request, cut, cut', k, GLOB);
      if k + 1 < |node| { SamePrefix(node, node', request, cut, cut', k + 1, GLOB); }
    }
  }

  lemma StepResumes(idx: Index, request: Path, st: State, cut: seq<nat>, pos: nat, s: Segment, key: Segment, st': State)
    requires Resumed(idx, st, request, cut) && Moved(idx, request, st, pos, s, key, st')
    ensures Resumed(idx, st', request, NextCut(st, pos, cut))
  {
    hide Captures, Child, Captured, Resumes, PassedOver, FirstFit;
    if "" !in st'.node {
      assert forall x | x in st.node :: x in st'.node;
      assert key in st'.node;
      MovedAsWildcard(idx, request, st, pos, s, key, st');
      MoveResumes(idx, request, st, pos, s, key, st');
      FirstFitSnoc(idx, st.node, request, cut, NextCut(st, pos, cut), key);
    }
  }

  ghost predicate Keeps(idx: Index, request: Path, st: State, cut: seq<nat>)
  {
    && Tracks(idx, request, st, cut)
    && Chooses(idx, request, st)
    && Collects(idx, st, request, cut)
    && Resumed(idx, st, request, cut)
  }

  /** One round keeps all of it. */
  lemma StepKeeps(idx: Index, request: Path, st: State, cut: seq<nat>, pos: nat, s: Segment, key: Segment, st': State)
    requires Keeps(idx, request, st, cut) && Moved(idx, request, st, pos, s, key, st')
    ensures Keeps(idx, request, st', NextCut(st, pos, cut))
  {
    StepChooses(idx, request, st, pos, s, key, st');
    StepTracks(idx, request, st, cut, pos, s, key, st');
    StepCollects(idx, request, st, cut, pos, s, key, st');
    StepResumes(idx, request, st, cut, pos, s, key, st');
  }

  /** Every walk keeps all of it up to its last round. */
  lemma {:induction false} RunKeeps(idx: Index, segments: Path, st: State, cut: seq<nat>) returns (last: State, lastCut: seq<nat>)
    requires Keeps(idx, Effective(segments), st, cut)
    ensures Keeps(idx, Effective(segments), last, lastCut)
    ensures Ended(idx, Effective(segments), last, Run(idx, segments, st))
    decreases |segments| + 1 - st.pos
  {
    var pos, s, key := StepMovesOrEnds(idx, segments, st);
    match Step(idx, segments, st) {
      case Stop(_) => last, lastCut := st, cut;
      case Next(st') =>
        StepKeeps(idx, Effective(segments), st, cut, pos, s, key, st');
        last, lastCut := RunKeeps(idx, segments, st', NextCut(st, pos, cut));
    }
  }

  lemma LastRound(idx: Index, segments: Path) returns (last: State, cut: seq<nat>)
    requires [] in idx
    ensures Keeps(idx, Effective(segments), last, cut)
    ensures Ended(idx, Effective(segments), last, Route(idx, segments))
  {
    last, cut := RunKeeps(idx, segments, START, [0]);
  }
}
