/** Configurations outside the exact classes: the endpoints, the request, and what goes wrong. */
module Witnesses {
  import opened Paths
  import opened Patterns
  import opened Endpoints
  import opened Buckets
  import opened Index
  import opened Walk
  import opened Routing
  import opened Requests
  import opened Soundness
  import opened Completeness
  import opened Exactness
  import opened Selection
  import opened Serving

  lemma ChildIff(idx: Index, node: Path, s: Segment, below: Path)
    requires node + [s] == below
    ensures Child(idx, node, s) <==> below in idx.Keys
  {}

  predicate Plain(s: Segment)
  {
    s != "" && s != STAR && s != GLOB
  }

  lemma RunNext(idx: Index, segments: Path, st: State, st': State)
    requires st.pos >= 1 && Step(idx, segments, st) == Next(st')
    ensures Run(idx, segments, st) == Run(idx, segments, st')
  {}

  lemma RunStop(idx: Index, segments: Path, st: State, o: Outcome)
    requires st.pos >= 1 && Step(idx, segments, st) == Stop(o)
    ensures Run(idx, segments, st) == o
  {}

  /** With `/a/b/x` and `/a/{..}/d` registered, `/a/b/d` is lost although the second pattern matches. */
  lemma LiteralHidesStar(idx: Index, a: Segment, b: Segment, x: Segment, d: Segment)
    requires Plain(a) && Plain(b) && Plain(x) && Plain(d) && x != d
    requires idx.Keys == {[], [a], [a, b], [a, b, x], [a, STAR], [a, STAR, d]}
    ensures Matches([a, STAR, d], [a, b, d])
    ensures Route(idx, [a, b, d]) == Lost([a, b], 3, map[])
  {
    hide Run, Matches, Aligned;
    var request := [a, b, d];
    StarMatches(a, b, d);
    var s1, s2 := State([a], 2, false, map[]), State([a, b], 3, false, map[]);
    assert Step(idx, request, START) == Next(s1) by { ChildIff(idx, [], a, [a]); }
    assert Step(idx, request, s1) == Next(s2) by { ChildIff(idx, [a], b, [a, b]); }
    assert Step(idx, request, s2) == Stop(Lost([a, b], 3, map[])) by {
      ChildIff(idx, [a, b], x, [a, b, x]);
      ChildIff(idx, [a, b], d, [a, b, d]);
      ChildIff(idx, [a, b], STAR, [a, b, STAR]);
      ChildIff(idx, [a, b], GLOB, [a, b, GLOB]);
    }
    RunNext(idx, request, START, s1);
    RunNext(idx, request, s1, s2);
    RunStop(idx, request, s2, Lost([a, b], 3, map[]));
  }

  lemma StarMatches(a: Segment, b: Segment, d: Segment)
    ensures Matches([a, STAR, d], [a, b, d])
  {
    assert Aligned([a, STAR, d], [a, b, d], [0, 1, 2, 3]);
    MatchesIffAligned([a, STAR, d], [a, b, d]);
  }

  /** The first two rounds below a literal whose only child is `**`. */
  lemma IntoGlob(idx: Index, p: Segment, request: Path)
    requires Plain(p) && |request| >= 2 && request[0] == p && Plain(request[1])
    requires [p] in idx.Keys && [p, GLOB] in idx.Keys && [p, request[1]] !in idx.Keys && [p, STAR] !in idx.Keys
    ensures Route(idx, request) == Run(idx, request, State([p, GLOB], 3, true, map[]))
  {
    hide Run;
    var s1, s2 := State([p], 2, false, map[]), State([p, GLOB], 3, true, map[]);
    assert Step(idx, request, START) == Next(s1) by { ChildIff(idx, [], p, [p]); }
    assert Step(idx, request, s1) == Next(s2) by {
      ChildIff(idx, [p], request[1], [p, request[1]]);
      ChildIff(idx, [p], STAR, [p, STAR]);
      ChildIff(idx, [p], GLOB, [p, GLOB]);
    }
    RunNext(idx, request, START, s1);
    RunNext(idx, request, s1, s2);
  }

  /** With `/p/../last` and a `**` in between, `/p/x/last/last` is lost: the first `last` is taken. */
  lemma SkippingStopsTooEarly(idx: Index, p: Segment, x: Segment, l: Segment)
    requires Plain(p) && Plain(x) && Plain(l)
    requires idx.Keys == {[], [p], [p, GLOB], [p, GLOB, l]}
    ensures Matches([p, GLOB, l], [p, x, l, l])
    ensures Route(idx, [p, x, l, l]) == Lost([p, GLOB, l], 4, map[])
  {
    hide Run, Matches, Aligned;
    var request := [p, x, l, l];
    GlobMatches(p, x, l);
    IntoGlob(idx, p, request);
    var s2, s3 := State([p, GLOB], 3, true, map[]), State([p, GLOB, l], 4, false, map[]);
    assert Step(idx, request, s2) == Next(s3) by {
      ChildIff(idx, [p, GLOB], l, [p, GLOB, l]);
      assert Skip(idx, [p, GLOB], request, 3) == 3;
    }
    assert Step(idx, request, s3) == Stop(Lost([p, GLOB, l], 4, map[])) by {
      forall s ensures !Child(idx, [p, GLOB, l], s) { ChildIff(idx, [p, GLOB, l], s, [p, GLOB, l, s]); }
    }
    RunNext(idx, request, s2, s3);
    RunStop(idx, request, s3, Lost([p, GLOB, l], 4, map[]));
  }

  lemma GlobMatches(p: Segment, x: Segment, l: Segment)
    ensures Matches([p, GLOB, l], [p, x, l, l])
  {
    assert Aligned([p, GLOB, l], [p, x, l, l], [0, 1, 3, 4]);
    MatchesIffAligned([p, GLOB, l], [p, x, l, l]);
  }

  /** With `/a/` followed by `**` and a trailing slash registered, `/a/b/c` lands on a pattern that does
      not match it: skipping ends in the empty segment, for which there is a child. */
  lemma EmptyKeyIsUnsound(idx: Index, a: Segment, b: Segment, c: Segment)
    requires Plain(a) && Plain(b) && Plain(c)
    requires idx.Keys == {[], [a], [a, GLOB], [a, GLOB, ""]}
    ensures Route(idx, [a, b, c]) == Landed([a, GLOB, ""], map[])
    ensures !Matches([a, GLOB, ""], [a, b, c])
  {
    hide Run, Matches;
    var request := [a, b, c];
    EmptyNeverMatches([a, GLOB, ""], request);
    IntoGlob(idx, a, request);
    var s2, s3 := State([a, GLOB], 3, true, map[]), State([a, GLOB, ""], 4, false, map[]);
    assert Step(idx, request, s2) == Next(s3) by {
      ChildIff(idx, [a, GLOB], "", [a, GLOB, ""]);
      ChildIff(idx, [a, GLOB], c, [a, GLOB, c]);
      assert Skip(idx, [a, GLOB], request, 4) == 4;
      assert Skip(idx, [a, GLOB], request, 3) == 4;
    }
    assert Step(idx, request, s3) == Stop(Landed([a, GLOB, ""], map[]));
    RunNext(idx, request, s2, s3);
    RunStop(idx, request, s3, Landed([a, GLOB, ""], map[]));
  }

  // ----- Endpoints and requests made to measure

  function PathTo(segments: Path): string
  {
    Join([""] + segments, '/')
  }

  function GetEndpoint(id: string, prio: int, host: string, segments: Path, bodyRegexp: Option<Regexp>): Endpoint
  {
    Endpoint(id, prio, MatchRequest(host, "GET", PathTo(segments), map[], map[], bodyRegexp))
  }

  function GetRequest(host: string, segments: Path, body: string): Request
  {
    Request("GET", host, PathTo(segments), map[], map[], Readable(body))
  }

  /** No slash and no braces. */
  predicate Spelled(segments: Path)
  {
    forall s | s in segments :: '/' !in s && !IsPathParam(s)
  }

  lemma {:induction false} KeysOfSpelled(segments: Path)
    requires Spelled(segments)
    ensures NodeKeys(segments) == segments
  {
    if segments != [] {
      assert segments[0] in segments;
      KeysOfSpelled(segments[1..]);
    }
  }

  lemma SpelledPath(segments: Path)
    requires Spelled(segments)
    ensures Paths.Segments(PathTo(segments)) == segments && Pattern(PathTo(segments)) == segments
  {
    JoinThenSplit([""] + segments, '/');
    assert ([""] + segments)[1..] == segments;
    KeysOfSpelled(segments);
  }

  lemma LostIsUnserved(accepts: Accepts, idx: Index, req: Request)
    requires [] in idx && Route(idx, Paths.Segments(req.path)).Lost?
    ensures Chosen(accepts, idx, req) == None
  {}

  lemma UpToThree(p: Path, a: Segment, b: Segment, c: Segment)
    ensures p <= [a, b, c] <==> p in {[], [a], [a, b], [a, b, c]}
  {
    var whole := [a, b, c];
    assert whole[..0] == [] && whole[..1] == [a] && whole[..2] == [a, b] && whole[..3] == whole;
    if p <= whole { assert p == whole[..|p|]; }
  }

  lemma KeysOfOne(eps: seq<Endpoint>, a: Segment, b: Segment, c: Segment)
    requires |eps| == 1 && Pattern(eps[0].request.path) == [a, b, c]
    ensures Build(eps).Keys == {[], [a], [a, b], [a, b, c]}
  {
    hide Build, Pattern;
    forall p ensures p in Build(eps).Keys <==> p in {[], [a], [a, b], [a, b, c]} {
      BuildNodes(eps, p);
      OnePass(eps, p);
      UpToThree(p, a, b, c);
    }
  }

  lemma KeysOfTwo(eps: seq<Endpoint>, a: Segment, b: Segment, c: Segment, d: Segment, e: Segment)
    requires |eps| == 2 && Pattern(eps[0].request.path) == [a, b, c] && Pattern(eps[1].request.path) == [a, d, e]
    ensures Build(eps).Keys == {[], [a], [a, b], [a, b, c], [a, d], [a, d, e]}
  {
    hide Build, Pattern;
    forall p ensures p in Build(eps).Keys <==> p in {[], [a], [a, b], [a, b, c], [a, d], [a, d, e]} {
      BuildNodes(eps, p);
      TwoPass(eps, p);
      UpToThree(p, a, b, c);
      UpToThree(p, a, d, e);
    }
  }

  lemma NothingElseWanted(accepts: Accepts, id: string, prio: int, segments: Path, req: Request)
    requires Spelled(segments) && req.verb == "GET"
    requires Matches(segments, Effective(Paths.Segments(req.path)))
    ensures Meets(accepts, GetEndpoint(id, prio, "", segments, None), req)
  {
    SpelledPath(segments);
  }

  /** `/a/b/x` keeps requests from the endpoint at `/a/..` with `*` followed by `d`. */
  lemma LiteralHidesEndpoint(accepts: Accepts, a: Segment, b: Segment, x: Segment, d: Segment)
    requires Plain(a) && Plain(b) && Plain(x) && Plain(d) && x != d && Spelled([a, b, x, d])
    ensures var eps, req := [GetEndpoint("1", 0, "", [a, b, x], None), GetEndpoint("2", 0, "", [a, STAR, d], None)],
        GetRequest("h", [a, b, d], "");
      && Registered(eps, eps[1]) && Meets(accepts, eps[1], req)
      && Chosen(accepts, Build(eps), req) == None
  {
    hide Build, PathTo, Matches, Route, Effective;
    var eps := [GetEndpoint("1", 0, "", [a, b, x], None), GetEndpoint("2", 0, "", [a, STAR, d], None)];
    var req, idx := GetRequest("h", [a, b, d], ""), Build(eps);
    assert Spelled([a, b, x]) && Spelled([a, STAR, d]) && Spelled([a, b, d]) by { assert a in [a, b, x, d] && b in [a, b, x, d] && x in [a, b, x, d] && d in [a, b, x, d]; }
    SpelledPath([a, b, x]);
    SpelledPath([a, STAR, d]);
    SpelledPath([a, b, d]);
    KeysOfTwo(eps, a, b, x, STAR, d);
    LiteralHidesStar(idx, a, b, x, d);
    LostIsUnserved(accepts, idx, req);
    EffectiveWhole([a, b, d]);
    NothingElseWanted(accepts, "2", 0, [a, STAR, d], req);
    assert Defaulted(eps[1]) == eps[1];
  }

  lemma TwoPass(eps: seq<Endpoint>, p: Path)
    requires |eps| == 2
    ensures PassedBy(eps, p) <==> p <= Pattern(eps[0].request.path) || p <= Pattern(eps[1].request.path)
  {
    hide Pattern;
  }

  /** The endpoint at `/p/../l` with a `**` in the gap misses `/p/x/l/l`. */
  lemma SkippingMissesEndpoint(accepts: Accepts, p: Segment, x: Segment, l: Segment)
    requires Plain(p) && Plain(x) && Plain(l) && Spelled([p, x, l])
    ensures var eps, req := [GetEndpoint("1", 0, "", [p, GLOB, l], None)], GetRequest("h", [p, x, l, l], "");
      && Registered(eps, eps[0]) && Meets(accepts, eps[0], req)
      && Chosen(accepts, Build(eps), req) == None
  {
    hide Build, PathTo, Matches, Route, Effective, Pattern;
    var eps := [GetEndpoint("1", 0, "", [p, GLOB, l], None)];
    var req, idx := GetRequest("h", [p, x, l, l], ""), Build(eps);
    assert Spelled([p, GLOB, l]) && Spelled([p, x, l, l]) by { assert p in [p, x, l] && x in [p, x, l] && l in [p, x, l]; }
    SpelledPath([p, GLOB, l]);
    SpelledPath([p, x, l, l]);
    KeysOfOne(eps, p, GLOB, l);
    SkippingStopsTooEarly(idx, p, x, l);
    LostIsUnserved(accepts, idx, req);
    EffectiveWhole([p, x, l, l]);
    NothingElseWanted(accepts, "1", 0, [p, GLOB, l], req);
    assert Defaulted(eps[0]) == eps[0];
  }

  lemma OnePass(eps: seq<Endpoint>, p: Path)
    requires |eps| == 1
    ensures PassedBy(eps, p) <==> p <= Pattern(eps[0].request.path)
  {
    hide Pattern;
  }

  /** The endpoint at `/a/`, `**`, and a trailing slash is served for `/a/b/c`, which its path does not match. */
  lemma TrailingSlashServesWrongly(accepts: Accepts, a: Segment, b: Segment, c: Segment)
    requires Plain(a) && Plain(b) && Plain(c) && Spelled([a, b, c])
    ensures var eps, req := [GetEndpoint("1", 0, "", [a, GLOB, ""], None)], GetRequest("h", [a, b, c], "");
      && Chosen(accepts, Build(eps), req) == Some(eps[0])
      && !Matches(Pattern(eps[0].request.path), Effective(Paths.Segments(req.path)))
  {
    hide Build, PathTo, Matches, Route, Effective, Candidates, OrdinaryVerbs;
    var eps := [GetEndpoint("1", 0, "", [a, GLOB, ""], None)];
    var req, idx, node := GetRequest("h", [a, b, c], ""), Build(eps), [a, GLOB, ""];
    assert Spelled(node) && Spelled([a, b, c]) by { assert a in [a, b, c] && b in [a, b, c] && c in [a, b, c]; }
    SpelledPath(node);
    SpelledPath([a, b, c]);
    KeysOfOne(eps, a, GLOB, "");
    EmptyKeyIsUnsound(idx, a, b, c);
    EffectiveWhole([a, b, c]);
    OnlyCandidate(accepts, eps, node, req);
  }

  lemma OnlyCandidate(accepts: Accepts, eps: seq<Endpoint>, node: Path, req: Request)
    requires |eps| == 1 && eps[0] == GetEndpoint("1", 0, "", node, None) && Pattern(eps[0].request.path) == node && req.verb == "GET"
    requires LandedNode(Build(eps), req) == Some(node)
    ensures Chosen(accepts, Build(eps), req) == Some(eps[0])
  {
    hide Build, Pattern, PathTo, Route;
    RoutingSoundExactly(Build(eps), Paths.Segments(req.path));
    SameBucket(eps, node, req);
  }

  // ----- Endpoints of one path and method

  /** All for one path, without method or host conditions of their own. */
  predicate OnePath(eps: seq<Endpoint>, p: Path)
  {
    forall i | 0 <= i < |eps| :: eps[i].request.verb == "GET" && eps[i].request.host == "" && Pattern(eps[i].request.path) == p
  }

  lemma {:induction false} AllFiled(eps: seq<Endpoint>, p: Path, key: string)
    requires OnePath(eps, p)
    ensures Filed(eps, p, key) == if key == "GET" then eps else []
  {
    hide Pattern, HostKey;
    if eps != [] {
      var n := |eps| - 1;
      assert forall i | 0 <= i < n :: eps[..n][i] == eps[i];
      AllFiled(eps[..n], p, key);
      assert eps == eps[..n] + [eps[n]];
    }
  }

  /** The candidates of such endpoints are one bucket. */
  lemma SameBucket(eps: seq<Endpoint>, p: Path, req: Request)
    requires OnePath(eps, p) && p in Build(eps) && req.verb == "GET"
    ensures Candidates(Build(eps)[p], req) == Fill(eps)
    ensures eps != [] ==> Build(eps)[p].endpoints != map[]
  {
    hide Build, Pattern, OnePath, Filed;
    var hostKey := HostKey("GET", HostName(req.host));
    assert hostKey[0] == '+';
    AllFiled(eps, p, hostKey);
    AllFiled(eps, p, "GET");
    BuildBuckets(eps, p, hostKey);
    BuildBuckets(eps, p, "GET");
  }

  /** A path without wildcards is landed on. */
  lemma PlainLands(eps: seq<Endpoint>, p: Path, req: Request)
    requires eps != [] && (forall i | 0 <= i < |eps| :: Pattern(eps[i].request.path) == p)
    requires (forall s | s in p :: Plain(s)) && Paths.Segments(req.path) == p
    ensures LandedNode(Build(eps), req) == Some(p)
  {
    hide Build, Pattern, Route, Paths.Segments;
    assert PatternsOf(eps) == {p} by { assert Pattern(eps[0].request.path) in PatternsOf(eps); }
    GuardedPlain(eps, p);
    GuardedBuild(eps);
    PlainIsClear(p);
    hide Spans, Guarded, Clear;
    EffectiveWhole(p);
    InstanceMatches(p, "x");
    PlainInstance(p);
    FindsMatch(Build(eps), {p}, p, p);
  }

  lemma PlainIsClear(p: Path)
    requires forall s | s in p :: Plain(s)
    ensures Clear({p}) && Effective(p) == p
  {
    hide Spares, Effective;
    forall k | 0 <= k < |p| ensures GLOB !in p[..k] { assert forall s | s in p[..k] :: s in p; }
    EffectiveWhole(p);
    SparesItself(p);
  }

  lemma GuardedPlain(eps: seq<Endpoint>, p: Path)
    requires (forall i | 0 <= i < |eps| :: Pattern(eps[i].request.path) == p) && (forall s | s in p :: Plain(s))
    ensures GuardedPatterns(eps)
  {
    hide Pattern, PassedBy;
    assert forall k | 0 <= k < |p| :: p[k] in p;
  }

  lemma PlainInstance(p: Path)
    requires forall s | s in p :: Plain(s)
    ensures Instance(p, "x") == p && GLOB !in p
  {
    assert forall k | 0 <= k < |p| :: p[k] in p;
  }

  predicate SameText(re: Regexp, content: string)
  {
    re == content
  }

  /** Two endpoints of one path that want the bodies `b` and `a`: a request with the body `b` is not served,
      because the expression of the second one has used up the body. */
  lemma BodyIsUsedUp(p: Path, a: string, b: string)
    requires Spelled(p) && (forall s | s in p :: Plain(s)) && a != b && b != ""
    ensures var eps, req := [GetEndpoint("1", 0, "", p, Some(b)), GetEndpoint("2", 0, "", p, Some(a))], GetRequest("h", p, b);
      && Registered(eps, eps[0]) && Meets(SameText, eps[0], req)
      && Chosen(SameText, Build(eps), req) == None
  {
    hide Build, PathTo, Matches, Route, Candidates, Fill, Pattern, Effective, Select;
    var eps := [GetEndpoint("1", 0, "", p, Some(b)), GetEndpoint("2", 0, "", p, Some(a))];
    var req := GetRequest("h", p, b);
    SpelledPath(p);
    PlainLands(eps, p, req);
    RoutingSoundExactly(Build(eps), p);
    SameBucket(eps, p, req);
    FillTwo(eps);
    UsedUp(eps, req);
    PlainMatches(p);
    assert Defaulted(eps[0]) == eps[0];
  }

  lemma PlainMatches(p: Path)
    requires forall s | s in p :: Plain(s)
    ensures Matches(p, Effective(p))
  {
    EffectiveWhole(p);
    InstanceMatches(p, "x");
    PlainInstance(p);
  }

  lemma UsedUp(eps: seq<Endpoint>, req: Request)
    requires |eps| == 2 && req.body.Readable? && Reads(eps[0], req) && Reads(eps[1], req)
    requires eps[1].request.bodyRegexp.value != req.body.content && eps[0].request.bodyRegexp.value != ""
    ensures Select(SameText, [eps[1], eps[0]], req, req.body, 0) == None
  {}

  /** Without a higher priority the newcomer is put in front. */
  lemma FillTwo(eps: seq<Endpoint>)
    requires |eps| == 2 && eps[1].prio <= eps[0].prio
    ensures Fill(eps) == [eps[1], eps[0]]
  {
    hide InsertIndex;
    var one := [eps[0]];
    assert eps[..1] == one && one[..0] == [];
    assert Fill(one) == Insert([], eps[0]) == one;
    InsertIndexExactly(one, eps[1].prio, 0);
    assert Fill(eps) == Insert(one, eps[1]);
  }

  /** Two endpoints of one path, the first of the higher priority: the bucket is not in descending order, and
      the one of the lower priority is served. */
  lemma LowerPriorityIsServed(accepts: Accepts, p: Path, high: int, low: int)
    requires Spelled(p) && (forall s | s in p :: Plain(s)) && low < high
    ensures var eps, req := [GetEndpoint("1", high, "", p, None), GetEndpoint("2", low, "", p, None)], GetRequest("h", p, "");
      && !Descending(Fill(eps))
      && Meets(accepts, eps[0], req) && Chosen(accepts, Build(eps), req) == Some(eps[1])
  {
    hide Build, PathTo, Matches, Route, Candidates, Fill, Pattern, Effective;
    var eps := [GetEndpoint("1", high, "", p, None), GetEndpoint("2", low, "", p, None)];
    var req := GetRequest("h", p, "");
    SpelledPath(p);
    PlainLands(eps, p, req);
    RoutingSoundExactly(Build(eps), p);
    SameBucket(eps, p, req);
    FillTwo(eps);
    assert Fill(eps)[0].prio < Fill(eps)[1].prio;
    PlainMatches(p);
  }

  /** An endpoint that wants the request's host is served before one of any higher priority that does not. */
  lemma HostOutranksPriority(accepts: Accepts, p: Path, high: int, low: int)
    requires Spelled(p) && (forall s | s in p :: Plain(s)) && low < high
    ensures var eps, req := [GetEndpoint("1", high, "", p, None), GetEndpoint("2", low, "h", p, None)], GetRequest("h", p, "");
      && Meets(accepts, eps[0], req) && Chosen(accepts, Build(eps), req) == Some(eps[1])
  {
    hide Build, PathTo, Matches, Route, HostKey;
    var eps := [GetEndpoint("1", high, "", p, None), GetEndpoint("2", low, "h", p, None)];
    var req := GetRequest("h", p, "");
    SpelledPath(p);
    PlainLands(eps, p, req);
    RoutingSoundExactly(Build(eps), p);
    HostedBucket(eps, p);
    PlainMatches(p);
  }

  lemma HostedBucket(eps: seq<Endpoint>, p: Path)
    requires |eps| == 2 && p in Build(eps) && Pattern(eps[0].request.path) == p == Pattern(eps[1].request.path)
    requires eps[0].request.verb == "GET" == eps[1].request.verb && eps[0].request.host == "" && eps[1].request.host == "h"
    ensures HostName("h") == "h"
    ensures BucketAt(Build(eps)[p], HostKey("GET", "h")) == [eps[1]] && Build(eps)[p].endpoints != map[]
  {
    hide Build, Pattern;
    SplitPart("h", "", ':');
    assert "h" + "" == "h";
    var key := HostKey("GET", "h");
    assert key[0] == '+';
    assert eps[..1][..0] == [] && eps[..1] == [eps[0]];
    assert Filed(eps[..1], p, key) == [];
    assert Filed(eps, p, key) == [eps[1]];
    BuildBuckets(eps, p, key);
  }
}
