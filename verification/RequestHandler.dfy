/** The request handler as it works: it loads mock files into a fresh tree, and its loops route a
    request through the current one, choose an endpoint and record the result. */
module RequestHandler {
  import opened Paths
  import opened Endpoints
  import opened Index
  import opened Walk
  import opened Routing
  import opened Soundness
  import opened Selection
  import opened MatchStore
  import opened Serving
  import opened SearchTree
  import opened Loading

  /** The body of a request, which can be read once. */
  class BodyReader {
    var body: Body

    constructor (body: Body)
      ensures this.body == body
    {
      this.body := body;
    }

    method ReadAll() returns (content: Option<string>)
      modifies this
      ensures content == (if old(body).Readable? then Some(old(body).content) else None)
      ensures body == AfterReading(old(body))
      ensures body == if old(body).Readable? then Readable("") else Failing
    {
      if body.Readable? {
        content := Some(body.content);
        body := DRAINED;
      } else {
        content := None;
      }
    }
  }

  /** What loading one endpoint does to the index under construction. */
  ghost predicate LoadStep(idx: Index, source: Source, n: nat, idx': Index)
  {
    if source.templatesValid then [] in idx && idx' == Register(idx, Numbered(source.endpoint, n)) else idx' == idx
  }

  /** The indexes passed through while loading. */
  ghost predicate LoadTrace(sources: seq<Source>, trace: seq<Index>)
  {
    && |trace| == |sources| + 1 && trace[0] == EMPTY_INDEX
    && forall k | 0 <= k < |sources| :: LoadStep(trace[k], sources[k], k + 1, trace[k+1])
  }

  lemma {:induction false} LoadTraceBuilds(sources: seq<Source>, trace: seq<Index>)
    requires LoadTrace(sources, trace)
    ensures trace[|sources|] == Build(Loaded(sources))
  {
    hide Register;
    if sources != [] {
      var n := |sources| - 1;
      var before, ep := Loaded(sources[..n]), Numbered(sources[n].endpoint, n + 1);
      LoadTraceBuilds(sources[..n], trace[..n+1]);
      assert LoadStep(trace[n], sources[n], n + 1, trace[n+1]);
      if sources[n].templatesValid {
        assert Loaded(sources) == before + [ep];
        BuildSnoc(before, ep);
      } else {
        assert Loaded(sources) == before;
      }
    }
  }

  lemma BuildSnoc(eps: seq<Endpoint>, ep: Endpoint)
    ensures Build(eps + [ep]) == Register(Build(eps), ep)
  {
    hide Register;
    assert (eps + [ep])[..|eps|] == eps;
  }

  /** Registers one endpoint of a file in the tree under construction. */
  method LoadSource(source: Source, endPointCounter: nat, root: EpSearchNode, ghost tree: Nodes, ghost all: set<EpSearchNode>)
    returns (ghost tree': Nodes, ghost all': set<EpSearchNode>)
    requires IsTree(root, tree, all)
    modifies all
    ensures IsTree(root, tree', all') && all <= all' && forall n | n in all' :: n in all || fresh(n)
    ensures LoadStep(old(IndexOf(tree, all)), source, endPointCounter, IndexOf(tree', all'))
  {
    tree', all' := tree, all;
    if source.templatesValid {
      tree', all' := RegisterEndpoint(Numbered(source.endpoint, endPointCounter), root, tree, all);
    }
  }

  /** Registers the endpoints of one file in the tree under construction. */
  method LoadFile(endpoints: seq<Source>, counter: nat, root: EpSearchNode,
                  ghost tree: Nodes, ghost all: set<EpSearchNode>, ghost sources: seq<Source>, ghost trace: seq<Index>)
    returns (endPointCounter: nat, ghost tree': Nodes, ghost all': set<EpSearchNode>, ghost trace': seq<Index>)
    requires IsTree(root, tree, all) && counter == |sources|
    requires LoadTrace(sources, trace) && IndexOf(tree, all) == trace[|sources|]
    modifies all
    ensures IsTree(root, tree', all') && all <= all' && forall n | n in all' :: n in all || fresh(n)
    ensures endPointCounter == |sources + endpoints|
    ensures LoadTrace(sources + endpoints, trace') && IndexOf(tree', all') == trace'[|sources + endpoints|]
  {
    hide Register;
    endPointCounter, tree', all', trace' := counter, tree, all, trace;
    ghost var before := sources;
    for j := 0 to |endpoints|
      invariant IsTree(root, tree', all') && all <= all' && forall n | n in all' :: n in all || fresh(n)
      invariant before == sources + endpoints[..j] && endPointCounter == |before|
      invariant LoadTrace(before, trace') && IndexOf(tree', all') == trace'[|before|]
    {
      endPointCounter := endPointCounter + 1;
      tree', all' := LoadSource(endpoints[j], endPointCounter, root, tree', all');
      before, trace' := before + [endpoints[j]], trace' + [IndexOf(tree', all')];
    }
    assert before == sources + endpoints;
  }

  /** Loads all files into a fresh tree, unless one of them cannot be read. */
  method LoadTree(mockFiles: seq<MockFile>)
    returns (ok: bool, tmpSearchNode: EpSearchNode, ghost tree: Nodes, ghost all: set<EpSearchNode>, ghost trace: seq<Index>)
    ensures IsTree(tmpSearchNode, tree, all) && fresh(all)
    ensures ok <==> forall i | 0 <= i < |mockFiles| :: mockFiles[i].Some?
    ensures ok ==> LoadTrace(AllSources(mockFiles), trace) && IndexOf(tree, all) == trace[|AllSources(mockFiles)|]
  {
    tmpSearchNode, tree, all := NewTree();
    trace := [EMPTY_INDEX];
    assert LoadTrace([], trace);
    hide IsTree, IndexOf, LoadTrace;
    var endPointCounter := 0;
    ghost var sources: seq<Source> := [];
    for i := 0 to |mockFiles|
      invariant IsTree(tmpSearchNode, tree, all) && fresh(all)
      invariant sources == AllSources(mockFiles[..i]) && endPointCounter == |sources|
      invariant LoadTrace(sources, trace) && IndexOf(tree, all) == trace[|sources|]
      invariant forall j | 0 <= j < i :: mockFiles[j].Some?
    {
      if mockFiles[i].None? {
        ok := false;
        return;
      }
      endPointCounter, tree, all, trace :=
        LoadFile(mockFiles[i].value, endPointCounter, tmpSearchNode, tree, all, sources, trace);
      sources := sources + mockFiles[i].value;
      assert mockFiles[..i+1][..i] == mockFiles[..i];
    }
    assert mockFiles[..|mockFiles|] == mockFiles;
    ok := true;
  }

  /** A tree of linked nodes routes every request soundly if and only if its index is guarded. */
  lemma TreeSoundExactly(root: EpSearchNode, nodes: Nodes, repr: set<EpSearchNode>)
    requires IsTree(root, nodes, repr)
    ensures [] in IndexOf(nodes, repr)
    ensures Sound(IndexOf(nodes, repr)) <==> Guarded(IndexOf(nodes, repr))
  {
    TreePrefixClosed(root, nodes, repr);
    hide IsTree, IndexOf, Sound, Guarded;
    SoundIffGuarded(IndexOf(nodes, repr));
  }

  class RequestHandler {
    const accepts: Accepts
    const matchstore: InMemoryMatchstore
    var epSearchNode: EpSearchNode
    ghost var nodes: Nodes
    ghost var repr: set<EpSearchNode>

    ghost predicate Valid()
      reads this, repr
    {
      IsTree(epSearchNode, nodes, repr)
    }

    /** The index requests are routed through. */
    ghost function CurrentIndex(): (idx: Index)
      requires Valid()
      reads this, repr
      ensures [] in idx
    {
      IndexOf(nodes, repr)
    }

    constructor (accepts: Accepts, matchstore: InMemoryMatchstore)
      ensures Valid() && fresh(repr) && CurrentIndex() == EMPTY_INDEX
      ensures this.accepts == accepts && this.matchstore == matchstore
    {
      this.accepts := accepts;
      this.matchstore := matchstore;
      var root;
      ghost var tree, all;
      root, tree, all := NewTree();
      epSearchNode, nodes, repr := root, tree, all;
    }

    /** Replaces the current tree by one with the endpoints of all mock files; a file that cannot be read
        leaves the current one in place. */
    method LoadFiles(mockFiles: seq<MockFile>) returns (ok: bool)
      requires Valid()
      modifies this
      ensures Valid()
      ensures ok <==> forall i | 0 <= i < |mockFiles| :: mockFiles[i].Some?
      ensures ok ==> fresh(repr) && CurrentIndex() == Build(Loaded(AllSources(mockFiles)))
      ensures !ok ==> unchanged(this) && CurrentIndex() == old(CurrentIndex())
    {
      hide Build, Loaded, AllSources;
      var tmpSearchNode;
      ghost var tree, all, trace;
      ok, tmpSearchNode, tree, all, trace := LoadTree(mockFiles);
      if ok {
        LoadTraceBuilds(AllSources(mockFiles), trace);
        epSearchNode, nodes, repr := tmpSearchNode, tree, all;
      }
    }

    // ----- Routing

    /** The segment to look for; below a `**`, the skipping loop finds one that is a child's key. */
    method AimAt(sn: EpSearchNode, pathSegments: Path, ghost st: State, allMatch: bool, from: nat)
      returns (pos: nat, pathSegment: Segment)
      requires Valid() && st.node in nodes && nodes[st.node] == sn && st.all == allMatch && st.pos == from >= 1
      requires GetPathSegment(pathSegments, from - 1) != ""
      ensures (pos, pathSegment) == Aim(CurrentIndex(), pathSegments, st)
    {
      hide IsTree, IndexOf;
      ghost var idx := CurrentIndex();
      NodeLinks(epSearchNode, nodes, repr, st.node);
      pos, pathSegment := from, GetPathSegment(pathSegments, from - 1);
      if allMatch {
        var i := from;
        while pathSegment != ""
          invariant i >= from == pos && pathSegment == GetPathSegment(pathSegments, i - 1)
          invariant Skip(idx, st.node, pathSegments, from) == Skip(idx, st.node, pathSegments, i)
          decreases |pathSegments| + 1 - i
        {
          if pathSegment in sn.searchNodes {
            pos := i;
            break;
          }
          pathSegment := GetPathSegment(pathSegments, i);
          i := i + 1;
        }
      }
    }

    /** One segment down: the literal child first, then `*`, then `**`. */
    method FollowSegment(sn: EpSearchNode, pathSegment: Segment, pathParams: Params, ghost p: Path, ghost pos: nat)
      returns (child: EpSearchNode?, allMatch: bool, requestPathParams: Params, ghost q: Path)
      requires Valid() && p in nodes && nodes[p] == sn
      ensures if child == null then q == p else q in nodes && nodes[q] == child
      ensures Follow(CurrentIndex(), p, pathParams, pos, pathSegment) ==
        if child == null then Stop(Lost(p, pos, requestPathParams)) else Next(State(q, pos + 1, allMatch, requestPathParams))
    {
      hide IsTree, IndexOf;
      NodeLinks(epSearchNode, nodes, repr, p);
      child, allMatch, requestPathParams, q := null, false, pathParams, p;
      if pathSegment !in sn.searchNodes {
        if STAR !in sn.searchNodes {
          if GLOB in sn.searchNodes {
            allMatch := true;
            child, q := sn.searchNodes[GLOB], p + [GLOB];
          }
        } else {
          child, q := sn.searchNodes[STAR], p + [STAR];
          if |child.pathParamName| > 0 {
            requestPathParams := requestPathParams[child.pathParamName := pathSegment];
          }
        }
      } else {
        child, q := sn.searchNodes[pathSegment], p + [pathSegment];
      }
    }

    /** One round of the walk: either it ends here, or it goes on from a child. */
    method Round(sn: EpSearchNode, pathSegments: Path, at: nat, all: bool, pathParams: Params, ghost p: Path)
      returns (walked: Option<Walked>, child: EpSearchNode, pos: nat, allMatch: bool, requestPathParams: Params, ghost q: Path)
      requires Valid() && p in nodes && nodes[p] == sn
      requires at >= 1 && GetPathSegment(pathSegments, at - 1) != ""
      ensures q in nodes && nodes[q] == child
      ensures walked.None? ==> pos > at
      ensures Run(CurrentIndex(), pathSegments, State(p, at, all, pathParams)) ==
        if walked.Some? then OutcomeOf(walked.value, q, requestPathParams)
        else Run(CurrentIndex(), pathSegments, State(q, pos, allMatch, requestPathParams))
    {
      hide IsTree, IndexOf, Run, Aim, Follow;
      ghost var idx, st := CurrentIndex(), State(p, at, all, pathParams);
      NodeLinks(epSearchNode, nodes, repr, p);
      child, pos, allMatch, requestPathParams, q := sn, at, all, pathParams, p;
      if sn.searchNodes == map[] {
        RunEnds(idx, pathSegments, st);
        walked := Some(if all then Arrived else Stuck(at));
      } else {
        var pathSegment, next;
        pos, pathSegment := AimAt(sn, pathSegments, st, all, at);
        RunGoesOn(idx, pathSegments, st, (pos, pathSegment));
        next, allMatch, requestPathParams, q := FollowSegment(sn, pathSegment, pathParams, p, pos);
        if next == null {
          walked := Some(Stuck(pos));
        } else {
          walked, child, pos := None, next, pos + 1;
        }
      }
    }

    /** The walk from the root. */
    method FollowPath(pathSegments: Path) returns (walked: Walked, sn: EpSearchNode, requestPathParams: Params, ghost p: Path)
      requires Valid()
      ensures p in nodes && nodes[p] == sn
      ensures Route(CurrentIndex(), pathSegments) == OutcomeOf(walked, p, requestPathParams)
    {
      assert [] in nodes && nodes[[]] == epSearchNode;
      hide IsTree, IndexOf, Follow, Aim, Step, Skip, Captured, OutcomeOf, ViewOf;
      ghost var idx := CurrentIndex();
      ghost var target := Route(idx, pathSegments);
      assert Run(idx, pathSegments, START) == target;
      hide Run, Route;
      sn, p, requestPathParams := epSearchNode, [], map[];
      var allMatch, pos := false, 1;
      while GetPathSegment(pathSegments, pos - 1) != ""
        invariant pos >= 1 && p in nodes && nodes[p] == sn
        invariant Run(idx, pathSegments, State(p, pos, allMatch, requestPathParams)) == target
        decreases |pathSegments| + 1 - pos
      {
        var ended;
        ended, sn, pos, allMatch, requestPathParams, p := Round(sn, pathSegments, pos, allMatch, requestPathParams, p);
        if ended.Some? {
          walked := ended.value;
          return;
        }
      }
      RunEnds(idx, pathSegments, State(p, pos, allMatch, requestPathParams));
      walked := Arrived;
      ArrivedLands(p, requestPathParams);
    }

    // ----- Choosing

    method MatchValues(wanted: map<string, string>, actual: map<string, seq<string>>) returns (b: bool)
      ensures b == Wanted(wanted, actual)
      ensures b <==> forall key | key in wanted ::
        if key in actual && actual[key] != [] then actual[key][0] == wanted[key] else wanted[key] == ""
    {
      var keys := wanted.Keys;
      while keys != {}
        invariant keys <= wanted.Keys
        invariant forall key | key in wanted && key !in keys :: Get(actual, key) == wanted[key]
        decreases keys
      {
        var key :| key in keys;
        if Get(actual, key) != wanted[key] { return false; }
        keys := keys - {key};
      }
      return true;
    }

    method MatchBody(ep: Endpoint, stream: BodyReader) returns (b: bool)
      modifies stream
      ensures b == BodyMatches(accepts, ep, old(stream.body))
      ensures b <==> ep.request.bodyRegexp.Some? ==>
        old(stream.body).Readable? && accepts(ep.request.bodyRegexp.value, old(stream.body).content)
      ensures stream.body ==
        if ep.request.bodyRegexp.Some? && old(stream.body).Readable? then Readable("") else old(stream.body)
    {
      if ep.request.bodyRegexp.None? { return true; }
      var content := stream.ReadAll();
      return content.Some? && accepts(ep.request.bodyRegexp.value, content.value);
    }

    /** The checking loop over the candidates, which drains the body at its first reader. */
    method MatchEndPointsAttributes(endPoints: seq<Endpoint>, req: Request, stream: BodyReader) returns (chosen: Option<nat>)
      requires stream.body == req.body
      modifies stream
      ensures chosen == Select(accepts, endPoints, req, req.body, 0)
      ensures stream.body == Seen(endPoints, req, if chosen.Some? then chosen.value + 1 else |endPoints|)
    {
      for i := 0 to |endPoints|
        invariant stream.body == Seen(endPoints, req, i)
        invariant Select(accepts, endPoints, req, stream.body, i) == Select(accepts, endPoints, req, req.body, 0)
      {
        var ep := endPoints[i];
        SeenNext(endPoints, req, i);
        var wanted := MatchValues(ep.request.query, req.query);
        if wanted {
          wanted := MatchValues(ep.request.headers, req.header);
          if wanted {
            var passes := MatchBody(ep, stream);
            if passes { return Some(i); }
          }
        }
      }
      return None;
    }

    /** Chooses among the candidates at the node the walk arrived at, and records the result. */
    method MatchSearchNode(view: View, req: Request, stream: BodyReader, now: nat) returns (endPoint: Option<Endpoint>)
      requires stream.body == req.body
      modifies matchstore, stream
      ensures var candidates := if view.endpoints == map[] then [] else Candidates(view, req);
        var chosen := Select(accepts, candidates, req, req.body, 0);
        && endPoint == (if chosen.Some? then Some(candidates[chosen.value]) else None)
        && matchstore.State() == Apply(matchstore.size, old(matchstore.State()),
             if chosen.Some? then Op.AddMatch(candidates[chosen.value].id, Match(candidates[chosen.value].id, now))
             else Op.AddMismatch(Mismatch(ArrivedReport(view, req), now)))
        && stream.body == Seen(candidates, req, if chosen.Some? then chosen.value + 1 else |candidates|)
    {
      hide Candidates, Apply;
      endPoint := None;
      if view.endpoints == map[] {
        matchstore.AddMismatch(Mismatch(PathMismatch(req.path, req.path), now));
      } else {
        var candidates := Candidates(view, req);
        if candidates == [] {
          matchstore.AddMismatch(Mismatch(NoEndpointForMethod(req.path), now));
        } else {
          var chosen := MatchEndPointsAttributes(candidates, req, stream);
          if chosen.Some? {
            endPoint := Some(candidates[chosen.value]);
            matchstore.AddMatch(endPoint.value.id, Match(endPoint.value.id, now));
          } else {
            matchstore.AddMismatch(Mismatch(NoAttributeMatch(req.path), now));
          }
        }
      }
    }

    /** Routes a request, chooses an endpoint, and records a match or a mismatch. */
    method MatchRequestToEndpoint(req: Request, stream: BodyReader, now: nat)
      returns (endPoint: Option<Endpoint>, requestPathParams: Params)
      requires Valid() && stream.body == req.body
      modifies matchstore, stream
      ensures Valid() && CurrentIndex() == old(CurrentIndex())
      ensures endPoint == Chosen(accepts, CurrentIndex(), req)
      ensures requestPathParams == Route(CurrentIndex(), Paths.Segments(req.path)).params
      ensures matchstore.State() == Apply(matchstore.size, old(matchstore.State()), Recorded(accepts, CurrentIndex(), req, now))
      ensures stream.body == Seen(CandidatesFor(CurrentIndex(), req), req, Checked(accepts, CurrentIndex(), req))
    {
      hide IsTree, Candidates, Apply, Route, Select, Seen;
      var pathSegments := Paths.Segments(req.path);
      ghost var idx := CurrentIndex();
      DiagnosticsSound(idx, pathSegments);
      var walked, sn;
      ghost var p;
      walked, sn, requestPathParams, p := FollowPath(pathSegments);
      match walked
      case Stuck(pos) =>
        NothingToSelect(accepts, req);
        endPoint := None;
        var matchedSubPath := Join(pathSegments[..pos-1], '/');
        matchstore.AddMismatch(Mismatch(PathMismatch(req.path, matchedSubPath), now));
      case Arrived =>
        assert ViewOf(sn) == idx[p];
        endPoint := MatchSearchNode(View(sn.endpoints, sn.pathParamName), req, stream, now);
    }
  }

  lemma NothingToSelect(accepts: Accepts, req: Request)
    ensures Select(accepts, [], req, req.body, 0) == None && Seen([], req, 0) == req.body
  {}

  lemma ArrivedLands(p: Path, params: Params)
    ensures OutcomeOf(Arrived, p, params) == Landed(p, params)
  {}

  function OutcomeOf(walked: Walked, p: Path, params: Params): Outcome
  {
    match walked
    case Arrived => Landed(p, params)
    case Stuck(pos) => Lost(p, pos, params)
  }

  datatype Walked = Arrived | Stuck(pos: nat)
}
