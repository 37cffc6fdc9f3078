/** What one request leads to, end to end: the served endpoint or the reported mismatch,
    as a function of the index, and what that means for registered endpoints. */
module Serving {
  import opened Paths
  import opened Patterns
  import opened Endpoints
  import opened Buckets
  import opened Index
  import opened Walk
  import opened Routing
  import opened Requests
  import opened Soundness
  import opened Completeness
  import opened Exactness
  import opened Selection
  import opened MatchStore

  /** The node whose candidates are considered, if the walk lands. */
  ghost function LandedNode(idx: Index, req: Request): Option<Path>
  {
    var o := Route(idx, Paths.Segments(req.path));
    if o.Landed? then Some(o.node) else None
  }

  ghost function CandidatesFor(idx: Index, req: Request): seq<Endpoint>
    requires [] in idx
  {
    RoutingSoundExactly(idx, Paths.Segments(req.path));
    match LandedNode(idx, req)
    case Some(p) => if idx[p].endpoints == map[] then [] else Candidates(idx[p], req)
    case None => []
  }

  /** The position of the served candidate. */
  ghost function ChosenIndex(accepts: Accepts, idx: Index, req: Request): (r: Option<nat>)
    requires [] in idx
    ensures r.Some? ==> r.value < |CandidatesFor(idx, req)|
  {
    Select(accepts, CandidatesFor(idx, req), req, req.body, 0)
  }

  ghost function Chosen(accepts: Accepts, idx: Index, req: Request): Option<Endpoint>
    requires [] in idx
  {
    match ChosenIndex(accepts, idx, req)
    case Some(i) => Some(CandidatesFor(idx, req)[i])
    case None => None
  }

  /** How many candidates have been checked when the search ends. */
  ghost function Checked(accepts: Accepts, idx: Index, req: Request): (n: nat)
    requires [] in idx
    ensures n <= |CandidatesFor(idx, req)|
  {
    match ChosenIndex(accepts, idx, req)
    case Some(i) => i + 1
    case None => |CandidatesFor(idx, req)|
  }

  /** What is reported when nothing is served at a node. */
  function ArrivedReport(view: View, req: Request): Details
  {
    if view.endpoints == map[] then PathMismatch(req.path, req.path)
    else if Candidates(view, req) == [] then NoEndpointForMethod(req.path)
    else NoAttributeMatch(req.path)
  }

  /** What is reported when nothing is served. */
  ghost function Report(idx: Index, req: Request): Details
    requires [] in idx
  {
    var segments := Paths.Segments(req.path);
    RoutingSoundExactly(idx, segments);
    DiagnosticsSound(idx, segments);
    match Route(idx, segments)
    case Lost(_, pos, _) => PathMismatch(req.path, Join(segments[..pos-1], '/'))
    case Landed(p, _) => ArrivedReport(idx[p], req)
  }

  /** The one store operation a routed request leads to. */
  ghost function Recorded(accepts: Accepts, idx: Index, req: Request, now: nat): (op: Op)
    requires [] in idx
    ensures IsAdd(op)
  {
    match Chosen(accepts, idx, req)
    case Some(ep) => Op.AddMatch(ep.id, Match(ep.id, now))
    case None => Op.AddMismatch(Mismatch(Report(idx, req), now))
  }

  // ----- End to end

  predicate MatchesHost(ep: Endpoint, req: Request)
  {
    ep.request.host == "" || ep.request.host == HostName(req.host)
  }

  /** The documented criteria that do not concern the body. */
  predicate Concerns(ep: Endpoint, req: Request)
  {
    && Matches(Pattern(ep.request.path), Effective(Paths.Segments(req.path)))
    && ep.request.verb == req.verb
    && MatchesHost(ep, req)
    && Eligible(ep, req)
  }

  /** All documented criteria. */
  predicate Meets(accepts: Accepts, ep: Endpoint, req: Request)
  {
    Concerns(ep, req) && BodyMatches(accepts, ep, req.body)
  }

  /** Every criterion spelled out. */
  lemma MeetsExactly(accepts: Accepts, ep: Endpoint, req: Request)
    ensures Meets(accepts, ep, req) <==>
      && Matches(Pattern(ep.request.path), Effective(Paths.Segments(req.path)))
      && ep.request.verb == req.verb
      && (ep.request.host != "" ==> ep.request.host == Split(req.host, ':')[0])
      && (forall key | key in ep.request.query ::
            if key in req.query && req.query[key] != [] then req.query[key][0] == ep.request.query[key]
            else ep.request.query[key] == "")
      && (forall key | key in ep.request.headers ::
            if key in req.header && req.header[key] != [] then req.header[key][0] == ep.request.headers[key]
            else ep.request.headers[key] == "")
      && (ep.request.bodyRegexp.Some? ==> req.body != Failing && accepts(ep.request.bodyRegexp.value, req.body.content))
  {
    hide Matches, Pattern, Effective, Paths.Segments, Split, Eligible, BodyMatches;
    EligibleExactly(ep, req);
    BodyMatchesExactly(accepts, ep, req.body);
  }

  /** What a routed request leaves in the store: for a served endpoint one more match of its id, and otherwise one
      more mismatch with the report; nothing else changes. */
  lemma RecordedExactly(size: uint16, s: Store, accepts: Accepts, idx: Index, req: Request, now: nat)
    requires [] in idx
    ensures var s' := Apply(size, s, Recorded(accepts, idx, req, now));
      && (Chosen(accepts, idx, req).Some? ==> var id := Chosen(accepts, idx, req).value.id;
            && MatchesOf(s', id) == Push(size, MatchesOf(s, id), Match(id, now))
            && CountOf(s', id) == Increment(CountOf(s, id))
            && (forall other | other != id :: MatchesOf(s', other) == MatchesOf(s, other) && CountOf(s', other) == CountOf(s, other))
            && s'.mismatches == s.mismatches && s'.mismatchesCount == s.mismatchesCount)
      && (Chosen(accepts, idx, req).None? ==>
            && s'.mismatches == Push(size, s.mismatches, Mismatch(Report(idx, req), now))
            && s'.mismatchesCount == Increment(s.mismatchesCount)
            && s'.matches == s.matches && s'.matchesCount == s.matchesCount)
  {
    hide Push, Increment, Report, Chosen;
  }

  // ----- Methods and hosts as configured

  /** Every endpoint is found as it was configured, with GET for a missing method, in the bucket of its method or of
      its method and host. */
  lemma FiledAsConfigured(eps: seq<Endpoint>, i: nat)
    requires i < |eps|
    ensures var r := eps[i].request; var verb := if r.verb == "" then "GET" else r.verb;
      var ep := Endpoint(eps[i].id, eps[i].prio, MatchRequest(r.host, verb, r.path, r.query, r.headers, r.bodyRegexp));
      && Pattern(r.path) in Build(eps)
      && ep in BucketAt(Build(eps)[Pattern(r.path)], if r.host == "" then verb else "+" + verb + "-" + r.host)
      && (r.verb != "" ==> ep == eps[i])
  {
    hide Build, Pattern, BucketAt;
    DefaultedExactly(eps[i]);
    var ep := Defaulted(eps[i]);
    RegisteredHasNode(eps, ep);
    EveryEndpointInOneBucket(eps, ep, Pattern(ep.request.path), EndpointKey(ep));
  }

  /** Without a configured method and host an endpoint is offered to GET requests and to no others. */
  lemma DefaultMethodIsGet(eps: seq<Endpoint>, i: nat, req: Request)
    requires i < |eps| && eps[i].request.verb == "" && eps[i].request.host == ""
    ensures var r := eps[i].request;
      var ep := Endpoint(eps[i].id, eps[i].prio, MatchRequest("", "GET", r.path, r.query, r.headers, r.bodyRegexp));
      && Pattern(r.path) in Build(eps)
      && (ep in Candidates(Build(eps)[Pattern(r.path)], req) <==> req.verb == "GET")
  {
    hide Build, Pattern, BucketAt, HostName;
    FiledAsConfigured(eps, i);
    var r := eps[i].request;
    var ep := Endpoint(eps[i].id, eps[i].prio, MatchRequest("", "GET", r.path, r.query, r.headers, r.bodyRegexp));
    var hostKey := HostKey(req.verb, HostName(req.host));
    assert hostKey[0] == '+';
    EveryEndpointInOneBucket(eps, ep, Pattern(r.path), hostKey);
    EveryEndpointInOneBucket(eps, ep, Pattern(r.path), req.verb);
  }

  /** An endpoint that wants a host is offered to the requests of its method for that host, with any port or none. */
  lemma HostedIsCandidate(eps: seq<Endpoint>, ep: Endpoint, req: Request, port: string)
    requires Registered(eps, ep) && ep.request.host != "" && ':' !in ep.request.host
    requires req.verb == ep.request.verb && (req.host == ep.request.host || req.host == ep.request.host + ":" + port)
    ensures Pattern(ep.request.path) in Build(eps) && ep in Candidates(Build(eps)[Pattern(ep.request.path)], req)
  {
    hide Build, Pattern, BucketAt, HostName, HostKey;
    HostNameCutsPort(ep.request.host, port);
    RegisteredHasNode(eps, ep);
    EveryEndpointInOneBucket(eps, ep, Pattern(ep.request.path), EndpointKey(ep));
  }

  predicate OrdinaryVerbs(eps: seq<Endpoint>)
  {
    forall i | 0 <= i < |eps| :: OrdinaryVerb(Defaulted(eps[i]).request.verb)
  }

  /** The candidates at a node are the registered endpoints of its path, of the method and of the host. */
  lemma CandidatesExactly(eps: seq<Endpoint>, p: Path, req: Request, ep: Endpoint)
    requires OrdinaryVerbs(eps) && !Misleading(req.verb) && p in Build(eps)
    ensures ep in Candidates(Build(eps)[p], req) <==>
      Registered(eps, ep) && Pattern(ep.request.path) == p && ep.request.verb == req.verb && MatchesHost(ep, req)
  {
    hide Build, Pattern, EndpointKey, OrdinaryVerb, Misleading;
    var hostKey := HostKey(req.verb, HostName(req.host));
    EveryEndpointInOneBucket(eps, ep, p, hostKey);
    EveryEndpointInOneBucket(eps, ep, p, req.verb);
    if Registered(eps, ep) {
      var i :| 0 <= i < |eps| && Defaulted(eps[i]) == ep;
      FiledRightlyIffNotMisleading(req);
      assert ConsultedRightly(ep, req);
    }
  }

  /** Whatever is served was registered and meets the documented criteria; its body expression, if any,
      accepts what was left of the body when it was checked. */
  lemma ServedSoundly(accepts: Accepts, eps: seq<Endpoint>, req: Request)
    requires OrdinaryVerbs(eps) && !Misleading(req.verb) && GuardedPatterns(eps)
    requires Chosen(accepts, Build(eps), req).Some?
    ensures var ep := Chosen(accepts, Build(eps), req).value;
      && Registered(eps, ep) && Concerns(ep, req)
      && (BodyMatches(accepts, ep, req.body) || BodyMatches(accepts, ep, AfterReading(req.body)))
      && (forall key | key in ep.request.query ::
            if key in req.query && req.query[key] != [] then req.query[key][0] == ep.request.query[key]
            else ep.request.query[key] == "")
      && (forall key | key in ep.request.headers ::
            if key in req.header && req.header[key] != [] then req.header[key][0] == ep.request.headers[key]
            else ep.request.headers[key] == "")
  {
    hide Build, Pattern, GuardedPatterns, Paths.Segments, Effective, Matches, OrdinaryVerbs, Misleading, Candidates;
    var idx := Build(eps);
    var segments := Paths.Segments(req.path);
    BuildSoundExactly(eps);
    assert SoundFor(idx, segments);
    RoutingSoundExactly(idx, segments);
    var cands := CandidatesFor(idx, req);
    SelectsFirstPassing(accepts, cands, req, 0);
    var i := ChosenIndex(accepts, idx, req).value;
    assert cands[i] in cands;
    CandidatesExactly(eps, Route(idx, segments).node, req, cands[i]);
    EligibleExactly(cands[i], req);
  }

  /** With guarded and clear paths, and with at most one body to be read at the node, a request is served
      exactly when some registered endpoint meets all documented criteria. A request with a literal `**`
      segment needs paths free of `**`. */
  lemma ServedExactly(accepts: Accepts, eps: seq<Endpoint>, req: Request)
    requires OrdinaryVerbs(eps) && !Misleading(req.verb)
    requires GuardedPatterns(eps) && Clear(PatternsOf(eps))
    requires GLOB in Effective(Paths.Segments(req.path)) ==> FreeOfGlobs(PatternsOf(eps))
    requires OneReader(CandidatesFor(Build(eps), req), req)
    ensures Chosen(accepts, Build(eps), req).Some? <==> exists ep :: Registered(eps, ep) && Meets(accepts, ep, req)
  {
    hide Build, Pattern, Paths.Segments, Matches, Clear, Guarded, OrdinaryVerbs, Misleading, OneReader, Select,
      Effective, Registered, GuardedPatterns, Spans, FreeOfGlobs;
    var idx, segments := Build(eps), Paths.Segments(req.path);
    GuardedBuild(eps);
    RoutingSoundExactly(idx, segments);
    var cands := CandidatesFor(idx, req);
    OneReaderIsIdeal(accepts, cands, req);
    if Chosen(accepts, idx, req).Some? {
      ServedSoundly(accepts, eps, req);
      var ep := Chosen(accepts, idx, req).value;
      assert Meets(accepts, ep, req);
    }
    if ep :| Registered(eps, ep) && Meets(accepts, ep, req) {
      var p := Pattern(ep.request.path);
      RegisteredHasNode(eps, ep);
      FindsRegistered(idx, PatternsOf(eps), segments, p);
      CandidatesExactly(eps, p, req, ep);
      var k :| 0 <= k < |cands| && cands[k] == ep;
      assert Passes(accepts, cands[k], req, req.body);
    }
  }

  lemma FindsRegistered(idx: Index, patterns: set<Path>, segments: Path, p: Path)
    requires Spans(idx, patterns) && Guarded(idx) && Clear(patterns) && p in patterns && Matches(p, Effective(segments))
    requires GLOB in Effective(segments) ==> FreeOfGlobs(patterns)
    ensures LandsOn(idx, segments, p)
  {
    hide Spans, Guarded, Clear, GlobSafe, Matches;
    if "" in p { EmptyNeverMatches(p, Effective(segments)); }
    FindsMatch(idx, patterns, segments, p);
  }

  lemma RegisteredHasNode(eps: seq<Endpoint>, ep: Endpoint)
    requires Registered(eps, ep)
    ensures Pattern(ep.request.path) in Build(eps) && Pattern(ep.request.path) in PatternsOf(eps)
  {
    hide Build, Pattern;
    var i :| 0 <= i < |eps| && Defaulted(eps[i]) == ep;
    BuildNodes(eps, Pattern(ep.request.path));
    assert Pattern(ep.request.path) <= Pattern(eps[i].request.path);
  }

  // ----- Priority

  /** Where the bucket of a key stands among the candidates. */
  ghost predicate Stretch(eps: seq<Endpoint>, p: Path, req: Request, key: string, lo: nat, hi: nat)
    requires p in Build(eps)
  {
    var cands := Candidates(Build(eps)[p], req);
    && lo <= hi <= |cands| && cands[lo..hi] == Fill(Filed(eps, p, key))
    && forall k | 0 <= k < |cands| && EndpointKey(cands[k]) == key :: lo <= k < hi
  }

  lemma BucketStretch(eps: seq<Endpoint>, p: Path, req: Request, key: string) returns (lo: nat, hi: nat)
    requires p in Build(eps) && Consulted(key, req)
    ensures Stretch(eps, p, req, key, lo, hi)
  {
    hide Build, Pattern, EndpointKey, Fill, Filed, Registered, BucketAt;
    var hostKey := HostKey(req.verb, HostName(req.host));
    var hosted, plain := BucketAt(Build(eps)[p], hostKey), BucketAt(Build(eps)[p], req.verb);
    BuildBuckets(eps, p, hostKey);
    BuildBuckets(eps, p, req.verb);
    assert |hostKey| > |req.verb|;
    forall k | 0 <= k < |hosted| ensures EndpointKey(hosted[k]) == hostKey { EveryEndpointInOneBucket(eps, hosted[k], p, hostKey); }
    forall k | 0 <= k < |plain| ensures EndpointKey(plain[k]) == req.verb { EveryEndpointInOneBucket(eps, plain[k], p, req.verb); }
    if key == hostKey { lo, hi := 0, |hosted|; } else { lo, hi := |hosted|, |hosted + plain|; }
  }

  lemma FirstOfStretch(accepts: Accepts, cands: seq<Endpoint>, req: Request, i: nat, lo: nat, hi: nat, other: Endpoint)
    requires FirstIdeal(accepts, cands, req, Some(i))
    requires lo <= i < hi <= |cands| && Descending(cands[lo..hi]) && other in cands[lo..hi]
    requires Passes(accepts, other, req, req.body)
    ensures cands[i].prio >= other.prio
  {
    hide Passes;
    var k :| 0 <= k < hi - lo && cands[lo..hi][k] == other;
    assert Passes(accepts, cands[lo+k], req, req.body);
    assert cands[lo..hi][i-lo] == cands[i];
  }

  /** If the endpoints of the served endpoint's bucket arrived in an order that keeps it sorted, and one body is
      to be read at most, no endpoint of that bucket that meets the criteria has a higher priority. */
  lemma ServedHasTopPriority(accepts: Accepts, eps: seq<Endpoint>, req: Request, other: Endpoint)
    requires Chosen(accepts, Build(eps), req).Some? && OneReader(CandidatesFor(Build(eps), req), req)
    requires var ep, p := Chosen(accepts, Build(eps), req).value, LandedNode(Build(eps), req).value;
      && RegisteredAt(eps, p, other) && EndpointKey(other) == EndpointKey(ep)
      && (forall j | 0 <= j < |Filed(eps, p, EndpointKey(ep))| :: Arrives(Filed(eps, p, EndpointKey(ep)), j))
    requires Eligible(other, req) && BodyMatches(accepts, other, req.body)
    ensures Chosen(accepts, Build(eps), req).value.prio >= other.prio
  {
    hide Build, Pattern, EndpointKey, Select, OneReader, Consulted, Arrives, Eligible, BodyMatches, Descending, Registered, Fill, Filed, Candidates;
    var idx, p := Build(eps), LandedNode(Build(eps), req).value;
    var cands, i := CandidatesFor(idx, req), ChosenIndex(accepts, idx, req).value;
    var key := EndpointKey(cands[i]);
    RoutingSoundExactly(idx, Paths.Segments(req.path));
    CandidateIsConsulted(eps, p, req, cands[i]);
    var lo, hi := BucketStretch(eps, p, req, key);
    FillSortedExactly(Filed(eps, p, key));
    BuildBuckets(eps, p, key);
    EveryEndpointInOneBucket(eps, other, p, key);
    OneReaderIsIdeal(accepts, cands, req);
    FirstOfStretch(accepts, cands, req, i, lo, hi, other);
  }

  /** Both buckets a request consults were filled in an order that keeps them sorted, and every endpoint in that
      of the host has at least the priority of every one in that of the method. */
  ghost predicate InPriorityOrder(eps: seq<Endpoint>, p: Path, req: Request)
  {
    var hosted := Filed(eps, p, HostKey(req.verb, HostName(req.host)));
    var plain := Filed(eps, p, req.verb);
    && (forall j | 0 <= j < |hosted| :: Arrives(hosted, j))
    && (forall j | 0 <= j < |plain| :: Arrives(plain, j))
    && (forall a, b | a in hosted && b in plain :: a.prio >= b.prio)
  }

  lemma DescendingConcat(a: Bucket, b: Bucket)
    ensures Descending(a + b) <==> Descending(a) && Descending(b) && forall x, y | x in a && y in b :: x.prio >= y.prio
  {
    var ab := a + b;
    assert forall i | 0 <= i < |a| :: ab[i] == a[i];
    assert forall i | 0 <= i < |b| :: ab[|a|+i] == b[i];
    if Descending(ab) {
      forall x, y | x in a && y in b ensures x.prio >= y.prio {
        var i :| 0 <= i < |a| && a[i] == x;
        var j :| 0 <= j < |b| && b[j] == y;
        assert ab[i] == x && ab[|a|+j] == y;
      }
    }
    if Descending(a) && Descending(b) && forall x, y | x in a && y in b :: x.prio >= y.prio {
      forall i, j | 0 <= i < j < |ab| ensures ab[i].prio >= ab[j].prio {
        if i < |a| <= j { assert ab[i] in a && ab[j] == b[j-|a|] && ab[j] in b; }
      }
    }
  }

  /** What a request consults at a node is in descending priority, as documented, if and only if the endpoints
      were registered in priority order in this sense. */
  lemma CandidatesSortedExactly(eps: seq<Endpoint>, p: Path, req: Request)
    requires p in Build(eps)
    ensures Descending(Candidates(Build(eps)[p], req)) <==> InPriorityOrder(eps, p, req)
  {
    hide Build, Fill, Filed, Descending, Arrives, BucketAt, HostKey, HostName;
    var hostKey := HostKey(req.verb, HostName(req.host));
    var hosted, plain := Filed(eps, p, hostKey), Filed(eps, p, req.verb);
    BuildBuckets(eps, p, hostKey);
    BuildBuckets(eps, p, req.verb);
    FillSortedExactly(hosted);
    FillSortedExactly(plain);
    SameEntries(hosted);
    SameEntries(plain);
    DescendingConcat(Fill(hosted), Fill(plain));
  }

  /** Then, and with at most one body to be read, the documented precedence holds: no endpoint that the node
      offers to the request and that meets the criteria has a higher priority than the served one. */
  lemma ServedHasHighestPriority(accepts: Accepts, eps: seq<Endpoint>, req: Request, other: Endpoint)
    requires Chosen(accepts, Build(eps), req).Some? && OneReader(CandidatesFor(Build(eps), req), req)
    requires var p := LandedNode(Build(eps), req).value;
      InPriorityOrder(eps, p, req) && RegisteredAt(eps, p, other) && Consulted(EndpointKey(other), req)
    requires Eligible(other, req) && BodyMatches(accepts, other, req.body)
    ensures Chosen(accepts, Build(eps), req).value.prio >= other.prio
  {
    hide Build, Pattern, EndpointKey, Select, OneReader, InPriorityOrder, Eligible, BodyMatches, Descending, Registered, HostKey;
    var idx, p := Build(eps), LandedNode(Build(eps), req).value;
    var cands, i := CandidatesFor(idx, req), ChosenIndex(accepts, idx, req).value;
    RoutingSoundExactly(idx, Paths.Segments(req.path));
    CandidatesSortedExactly(eps, p, req);
    EveryEndpointInOneBucket(eps, other, p, EndpointKey(other));
    assert other in cands;
    OneReaderIsIdeal(accepts, cands, req);
    assert cands[0..|cands|] == cands;
    FirstOfStretch(accepts, cands, req, i, 0, |cands|, other);
  }

  /** In terms of method and host, for the methods that are looked up rightly. */
  lemma OfferedHasNoHigherPriority(accepts: Accepts, eps: seq<Endpoint>, req: Request, other: Endpoint)
    requires OrdinaryVerbs(eps) && !Misleading(req.verb)
    requires Chosen(accepts, Build(eps), req).Some? && OneReader(CandidatesFor(Build(eps), req), req)
    requires var p := LandedNode(Build(eps), req).value; InPriorityOrder(eps, p, req) && OffersTo(eps, p, req, other)
    requires Eligible(other, req) && BodyMatches(accepts, other, req.body)
    ensures Chosen(accepts, Build(eps), req).value.prio >= other.prio
  {
    hide Build, Pattern, EndpointKey, Select, OneReader, InPriorityOrder, Eligible, BodyMatches, HostKey, Misleading, OrdinaryVerb,
      Chosen, CandidatesFor, LandedNode;
    var i :| 0 <= i < |eps| && Defaulted(eps[i]) == other;
    FiledRightlyIffNotMisleading(req);
    assert ConsultedRightly(other, req);
    ServedHasHighestPriority(accepts, eps, req, other);
  }

  lemma CandidateIsConsulted(eps: seq<Endpoint>, p: Path, req: Request, ep: Endpoint)
    requires p in Build(eps) && ep in Candidates(Build(eps)[p], req)
    ensures Consulted(EndpointKey(ep), req)
  {
    hide Build, Pattern, EndpointKey;
    EveryEndpointInOneBucket(eps, ep, p, HostKey(req.verb, HostName(req.host)));
    EveryEndpointInOneBucket(eps, ep, p, req.verb);
  }

  /** Between the buckets priority does not count: whenever an endpoint that wants the request's host meets
      the criteria, one that wants it is served. */
  lemma HostComesFirst(accepts: Accepts, eps: seq<Endpoint>, req: Request, other: Endpoint)
    requires Chosen(accepts, Build(eps), req).Some? && OneReader(CandidatesFor(Build(eps), req), req)
    requires RegisteredAt(eps, LandedNode(Build(eps), req).value, other) && EndpointKey(other) == HostKey(req.verb, HostName(req.host))
    requires Eligible(other, req) && BodyMatches(accepts, other, req.body)
    ensures EndpointKey(Chosen(accepts, Build(eps), req).value) == HostKey(req.verb, HostName(req.host))
  {
    hide Build, Pattern, EndpointKey, Select, OneReader;
    var idx, p := Build(eps), LandedNode(Build(eps), req).value;
    var cands, i := CandidatesFor(idx, req), ChosenIndex(accepts, idx, req).value;
    var hostKey := HostKey(req.verb, HostName(req.host));
    RoutingSoundExactly(idx, Paths.Segments(req.path));
    EveryEndpointInOneBucket(eps, other, p, hostKey);
    var k :| 0 <= k < |BucketAt(idx[p], hostKey)| && BucketAt(idx[p], hostKey)[k] == other;
    OneReaderIsIdeal(accepts, cands, req);
    assert cands[k] == other && Passes(accepts, cands[k], req, req.body);
    assert cands[i] == BucketAt(idx[p], hostKey)[i];
    EveryEndpointInOneBucket(eps, cands[i], p, hostKey);
  }

  // ----- What is reported

  ghost predicate RegisteredAt(eps: seq<Endpoint>, p: Path, ep: Endpoint)
  {
    Registered(eps, ep) && Pattern(ep.request.path) == p
  }

  ghost predicate OffersTo(eps: seq<Endpoint>, p: Path, req: Request, ep: Endpoint)
  {
    RegisteredAt(eps, p, ep) && ep.request.verb == req.verb && MatchesHost(ep, req)
  }

  lemma NodeIsEmptyExactly(eps: seq<Endpoint>, p: Path)
    requires p in Build(eps)
    ensures Build(eps)[p].endpoints == map[] <==> !exists ep :: RegisteredAt(eps, p, ep)
  {
    hide Build, Pattern, Registered;
    var endpoints := Build(eps)[p].endpoints;
    if endpoints != map[] {
      var key :| key in endpoints;
      BuildBuckets(eps, p, key);
      var ep := Filed(eps, p, key)[0];
      FiledExactly(eps, p, key, ep);
      assert RegisteredAt(eps, p, ep);
    }
    if ep :| RegisteredAt(eps, p, ep) {
      FiledExactly(eps, p, EndpointKey(ep), ep);
      BuildBuckets(eps, p, EndpointKey(ep));
    }
  }

  /** When the walk lands and nothing is served, the report tells apart, exactly: nothing is registered for
      the path; something is, but not for this method and host; something is, but its attributes differ. */
  lemma ReportExactly(eps: seq<Endpoint>, req: Request)
    requires OrdinaryVerbs(eps) && !Misleading(req.verb) && LandedNode(Build(eps), req).Some?
    ensures var p, d := LandedNode(Build(eps), req).value, Report(Build(eps), req);
      && (d == PathMismatch(req.path, req.path) <==> !exists ep :: RegisteredAt(eps, p, ep))
      && (d == NoAttributeMatch(req.path) <==> exists ep :: OffersTo(eps, p, req, ep))
      && (d == NoEndpointForMethod(req.path) <==>
            (exists ep :: RegisteredAt(eps, p, ep)) && !exists ep :: OffersTo(eps, p, req, ep))
  {
    hide Build, Pattern, Registered, Candidates, Paths.Segments, Effective, OrdinaryVerbs, Misleading;
    var idx, p := Build(eps), LandedNode(Build(eps), req).value;
    RoutingSoundExactly(idx, Paths.Segments(req.path));
    NodeIsEmptyExactly(eps, p);
    var cands := Candidates(idx[p], req);
    if cands != [] {
      CandidatesExactly(eps, p, req, cands[0]);
      assert OffersTo(eps, p, req, cands[0]);
    }
    if ep :| OffersTo(eps, p, req, ep) { CandidatesExactly(eps, p, req, ep); }
  }

  /** When the walk fails below the root, the reported sub-path, cut at its slashes again, is matched by the
      pattern of the node where it failed. */
  lemma LostReportMatches(idx: Index, req: Request)
    requires [] in idx && Guarded(idx)
    requires var o := Route(idx, Paths.Segments(req.path)); o.Lost? && o.node != []
    ensures var o, d := Route(idx, Paths.Segments(req.path)), Report(idx, req);
      d.PathMismatch? && d.path == req.path && Matches(o.node, Split(d.matchedSubPath, '/'))
  {
    hide Matches, Guarded;
    var segments := Paths.Segments(req.path);
    var o := Route(idx, segments);
    StaysNonEmpty(idx, segments, START);
    DiagnosticsSound(idx, segments);
    SplitThenJoin(req.path, '/');
    var taken := segments[..o.pos-1];
    assert forall part | part in taken :: part in Split(req.path, '/');
    NonEmptyMatch(o.node, taken);
    JoinThenSplit(taken, '/');
  }

  /** When the walk fails at the root, nothing of the path is reported as matched. */
  lemma LostAtRootReport(idx: Index, req: Request)
    requires [] in idx
    requires var o := Route(idx, Paths.Segments(req.path)); o.Lost? && o.node == []
    ensures Report(idx, req) == PathMismatch(req.path, "")
  {
    var segments := Paths.Segments(req.path);
    hide Paths.Segments;
    match Step(idx, segments, START)
    case Next(st) => RunExtends(idx, segments, st);
    case Stop(o) => assert o == Lost([], 1, map[]);
  }

  lemma NonEmptyMatch(pattern: Path, request: Path)
    requires pattern != [] && Matches(pattern, request)
    ensures request != []
  {}

  /** Every routed request is counted once: over any run without deletes, all counts together number the
      requests routed, modulo 2^64, whatever was reloaded in between. */
  lemma RequestsConserved(size: uint16, accepts: Accepts, idxs: seq<Index>, reqs: seq<Request>, nows: seq<nat>, ops: seq<Op>)
    requires |idxs| == |reqs| == |nows| == |ops|
    requires forall k | 0 <= k < |ops| :: [] in idxs[k] && ops[k] == Recorded(accepts, idxs[k], reqs[k], nows[k])
    ensures var s := History(size, EMPTY_STORE, ops);
      (Total(s.matchesCount, s.matchesCount.Keys) + s.mismatchesCount as int) % UINT64 == |reqs| % UINT64
  {
    forall op | op in ops ensures IsAdd(op) {
      var k :| 0 <= k < |ops| && ops[k] == op;
    }
    Conservation(size, ops);
  }
}
