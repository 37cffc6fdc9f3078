/** The documented path parameters, as the walk binds them for a server with the one endpoint of the row. */
module Documented {
  import opened Paths
  import opened Endpoints
  import opened Index
  import opened Walk
  import opened Witnesses

  /** The nodes of the index are the prefixes of one pattern. */
  ghost predicate Chain(idx: Index, p: Path)
  {
    forall q :: q in idx <==> q <= p
  }

  lemma ChainChild(idx: Index, p: Path, k: nat)
    requires Chain(idx, p) && k <= |p|
    ensures forall s :: Child(idx, p[..k], s) <==> k < |p| && s == p[k]
    ensures k < |p| ==> p[..k] + [p[k]] == p[..k+1] && p[..k+1] in idx
  {
    forall s ensures Child(idx, p[..k], s) <==> k < |p| && s == p[k] {
      var q := p[..k] + [s];
      if q <= p { assert q[k] == p[k]; }
      if k < |p| && s == p[k] { assert q == p[..k+1]; }
    }
  }

  /** The round at node `k` of the chain. */
  lemma ChainStep(idx: Index, p: Path, segments: Path, st: State, k: nat)
    requires Chain(idx, p) && k < |p| && st.node == p[..k] && st.pos >= 1 && GetPathSegment(segments, st.pos - 1) != ""
    ensures p[..k+1] in idx
    ensures var (pos, s) := Aim(idx, segments, st);
      && (p[k] == s ==> Step(idx, segments, st) == Next(State(p[..k+1], pos + 1, false, st.params)))
      && (p[k] == STAR != s ==>
            Step(idx, segments, st) == Next(State(p[..k+1], pos + 1, false, Captured(st.params, idx[p[..k+1]].param, s))))
      && (p[k] == GLOB != s ==> Step(idx, segments, st) == Next(State(p[..k+1], pos + 1, true, st.params)))
  {
    hide Chain, Aim, Captured;
    ChainChild(idx, p, k);
    assert Child(idx, p[..k], p[k]);
  }

  lemma AimsHere(idx: Index, segments: Path, st: State)
    requires st.pos >= 1 && !st.all
    ensures Aim(idx, segments, st) == (st.pos, GetPathSegment(segments, st.pos - 1))
  {}

  /** Below a `**`, the round looks for the one key there is. */
  lemma AimsAhead(idx: Index, p: Path, segments: Path, st: State, k: nat, j: nat)
    requires Chain(idx, p) && k < |p| && st.node == p[..k] && st.all && 1 <= st.pos <= j
    requires forall m | st.pos - 1 <= m < j - 1 :: GetPathSegment(segments, m) != "" && GetPathSegment(segments, m) != p[k]
    requires GetPathSegment(segments, j - 1) == "" || GetPathSegment(segments, j - 1) == p[k]
    ensures Aim(idx, segments, st) ==
      if GetPathSegment(segments, j - 1) == "" then (st.pos, "") else (j, p[k])
  {
    hide Skip, Chain;
    ChainChild(idx, p, k);
    var i := Skip(idx, st.node, segments, st.pos);
    assert i <= j by { assert GetPathSegment(segments, j - 1) == "" || Child(idx, st.node, GetPathSegment(segments, j - 1)); }
    assert i >= j;
  }

  ghost predicate Named(idx: Index, p: Path, names: seq<string>)
    requires |names| == |p|
  {
    Chain(idx, p) && forall k | 0 <= k < |p| :: p[..k+1] in idx && idx[p[..k+1]].param == names[k]
  }

  /** The index of a server with one endpoint is a chain whose nodes carry that endpoint's names. */
  lemma OneEndpoint(ep: Endpoint, p: Path, names: seq<string>)
    requires Pattern(ep.request.path) == p && ParamNames(ep.request.path) == names
    ensures Named(Build([ep]), p, names)
  {
    hide Build, Pattern, ParamNames;
    var eps, idx := [ep], Build([ep]);
    forall q ensures q in idx <==> q <= p {
      BuildNodes(eps, q);
      OnePass(eps, q);
    }
    forall k | 0 <= k < |p| ensures p[..k+1] in idx && idx[p[..k+1]].param == names[k] {
      var j := OwnNameExactly(eps, 0, k);
    }
  }

  /** A round that takes the next segment for a literal or a `*`. */
  lemma Takes(idx: Index, p: Path, names: seq<string>, segments: Path, st: State, k: nat) returns (st': State)
    requires |names| == |p| && Named(idx, p, names) && k < |p| && st.node == p[..k] && !st.all
    requires st.pos >= 1 && GetPathSegment(segments, st.pos - 1) != ""
    requires p[k] == GetPathSegment(segments, st.pos - 1) || p[k] == STAR || p[k] == GLOB
    ensures var s := GetPathSegment(segments, st.pos - 1);
      st' == State(p[..k+1], st.pos + 1, p[k] == GLOB != s, if p[k] == STAR != s then Captured(st.params, names[k], s) else st.params)
    ensures Run(idx, segments, st) == Run(idx, segments, st')
  {
    hide Chain, Captured, Step;
    AimsHere(idx, segments, st);
    ChainStep(idx, p, segments, st, k);
    st' := Step(idx, segments, st).state;
    RunNext(idx, segments, st, st');
  }

  /** A round below a `**`, for the key in round `j` or, if there is none, for a `*`. */
  lemma TakesAhead(idx: Index, p: Path, names: seq<string>, segments: Path, st: State, k: nat, j: nat) returns (st': State)
    requires |names| == |p| && Named(idx, p, names) && k < |p| && st.node == p[..k] && st.all && 1 <= st.pos <= j
    requires GetPathSegment(segments, st.pos - 1) != ""
    requires forall m | st.pos - 1 <= m < j - 1 :: GetPathSegment(segments, m) != "" && GetPathSegment(segments, m) != p[k]
    requires GetPathSegment(segments, j - 1) == "" != p[k] || GetPathSegment(segments, j - 1) == p[k]
    requires GetPathSegment(segments, j - 1) == "" ==> p[k] == STAR
    ensures st' == if GetPathSegment(segments, j - 1) == "" then State(p[..k+1], st.pos + 1, false, Captured(st.params, names[k], ""))
      else State(p[..k+1], j + 1, false, st.params)
    ensures Run(idx, segments, st) == Run(idx, segments, st')
  {
    hide Chain, Captured, Step;
    AimsAhead(idx, p, segments, st, k, j);
    ChainStep(idx, p, segments, st, k);
    st' := Step(idx, segments, st).state;
    RunNext(idx, segments, st, st');
  }

  lemma Ends(idx: Index, segments: Path, st: State)
    requires st.pos >= 1 && GetPathSegment(segments, st.pos - 1) == ""
    ensures Run(idx, segments, st) == Landed(st.node, st.params)
  {}

  /** `/foo/{foo}/bar` on `/foo/bar/bar` binds `foo` to `bar`. */
  lemma ParameterInside(idx: Index)
    requires Named(idx, ["foo", STAR, "bar"], ["", "foo", ""])
    ensures Route(idx, ["foo", "bar", "bar"]) == Landed(["foo", STAR, "bar"], map["foo" := "bar"])
  {
    hide Named, Run;
    var p, names, segments := ["foo", STAR, "bar"], ["", "foo", ""], ["foo", "bar", "bar"];
    var s1 := Takes(idx, p, names, segments, START, 0);
    var s2 := Takes(idx, p, names, segments, s1, 1);
    var s3 := Takes(idx, p, names, segments, s2, 2);
    Ends(idx, segments, s3);
    assert s3.node == p;
  }

  /** A `*` and a `{bar}` after `/foo` on `/foo/bar/bar`: `bar` is bound to `bar`. */
  lemma ParameterAtEnd(idx: Index)
    requires Named(idx, ["foo", STAR, STAR], ["", "", "bar"])
    ensures Route(idx, ["foo", "bar", "bar"]) == Landed(["foo", STAR, STAR], map["bar" := "bar"])
  {
    hide Named, Run;
    var p, names, segments := ["foo", STAR, STAR], ["", "", "bar"], ["foo", "bar", "bar"];
    var s1 := Takes(idx, p, names, segments, START, 0);
    var s2 := Takes(idx, p, names, segments, s1, 1);
    var s3 := Takes(idx, p, names, segments, s2, 2);
    Ends(idx, segments, s3);
    assert s3.node == p;
  }

  /** A `**` and a `{bar}` after `/foo` on `/foo/bar/1`: it matches, and `bar` is bound to nothing. */
  lemma ParameterBelowGlob(idx: Index)
    requires Named(idx, ["foo", GLOB, STAR], ["", "", "bar"])
    ensures Route(idx, ["foo", "bar", "1"]) == Landed(["foo", GLOB, STAR], map["bar" := ""])
  {
    hide Named, Run;
    var p, names, segments := ["foo", GLOB, STAR], ["", "", "bar"], ["foo", "bar", "1"];
    var s1 := Takes(idx, p, names, segments, START, 0);
    var s2 := Takes(idx, p, names, segments, s1, 1);
    var s3 := TakesAhead(idx, p, names, segments, s2, 2, 4);
    Ends(idx, segments, s3);
    assert s3.node == p;
  }

  /** A `**`, a `foo` and a `{bar}` after `/foo` on `/foo/bar/1/2/foo/3`: `bar` is bound to `3`. */
  lemma ParameterBehindGlob(idx: Index)
    requires Named(idx, ["foo", GLOB, "foo", STAR], ["", "", "", "bar"])
    ensures Route(idx, ["foo", "bar", "1", "2", "foo", "3"]) == Landed(["foo", GLOB, "foo", STAR], map["bar" := "3"])
  {
    hide Named, Run;
    var p, names, segments := ["foo", GLOB, "foo", STAR], ["", "", "", "bar"], ["foo", "bar", "1", "2", "foo", "3"];
    var s1 := Takes(idx, p, names, segments, START, 0);
    var s2 := Takes(idx, p, names, segments, s1, 1);
    var s3 := TakesAhead(idx, p, names, segments, s2, 2, 5);
    var s4 := Takes(idx, p, names, segments, s3, 3);
    Ends(idx, segments, s4);
    assert s4.node == p;
  }

  lemma PatternOfPath(segments: Path, p: Path, names: seq<string>)
    requires (forall s | s in segments :: '/' !in s) && |p| == |segments| == |names|
    requires forall k | 0 <= k < |p| :: p[k] == NodeKey(segments[k]) && names[k] == ParamName(segments[k])
    ensures Paths.Segments(PathTo(segments)) == segments
    ensures Pattern(PathTo(segments)) == p && ParamNames(PathTo(segments)) == names
  {
    hide NodeKey, ParamName;
    JoinThenSplit([""] + segments, '/');
    assert ([""] + segments)[1..] == segments;
    forall k | 0 <= k < |p| ensures NodeKeys(segments)[k] == p[k] && NodeNames(segments)[k] == names[k] { NodeKeysAt(segments, k); }
  }

  /** What a request leads to when the only endpoint has this path. */
  ghost function RouteWith(segments: Path, request: Path): Outcome
  {
    Route(Build([GetEndpoint("1", 0, "", segments, Endpoints.None)]), request)
  }

  lemma OneNamed(segments: Path, p: Path, names: seq<string>)
    requires (forall s | s in segments :: '/' !in s) && |p| == |segments| == |names|
    requires forall k | 0 <= k < |p| :: p[k] == NodeKey(segments[k]) && names[k] == ParamName(segments[k])
    ensures Named(Build([GetEndpoint("1", 0, "", segments, Endpoints.None)]), p, names)
  {
    hide Pattern, ParamNames, Build, PathTo, NodeKey, ParamName, Chain;
    var ep := GetEndpoint("1", 0, "", segments, Endpoints.None);
    PatternOfPath(segments, p, names);
    OneEndpoint(ep, p, names);
  }

  lemma DocumentedKeys()
    ensures NodeKey("{foo}") == STAR && ParamName("{foo}") == "foo" && '/' !in "{foo}"
    ensures NodeKey("{bar}") == STAR && ParamName("{bar}") == "bar" && '/' !in "{bar}"
    ensures NodeKey("foo") == "foo" && ParamName("foo") == "" && '/' !in "foo"
    ensures NodeKey("bar") == "bar" && ParamName("bar") == "" && '/' !in "bar"
    ensures NodeKey("*") == STAR && ParamName("*") == "" && '/' !in "*"
    ensures NodeKey("**") == GLOB && ParamName("**") == "" && '/' !in "**"
  {
    var foo, bar := "{foo}", "{bar}";
    assert foo == ['{', 'f', 'o', 'o', '}'] && bar == ['{', 'b', 'a', 'r', '}'];
    assert foo[1..4] == ['f', 'o', 'o'] && bar[1..4] == ['b', 'a', 'r'];
  }

  /** The parameter column of the documented table. */
  lemma DocumentedParameters()
    ensures RouteWith(["foo", "{foo}", "bar"], ["foo", "bar", "bar"]) == Landed(["foo", STAR, "bar"], map["foo" := "bar"])
    ensures RouteWith(["foo", "*", "{bar}"], ["foo", "bar", "bar"]) == Landed(["foo", STAR, STAR], map["bar" := "bar"])
    ensures RouteWith(["foo", "**", "{bar}"], ["foo", "bar", "1"]) == Landed(["foo", GLOB, STAR], map["bar" := ""])
    ensures RouteWith(["foo", "**", "foo", "{bar}"], ["foo", "bar", "1", "2", "foo", "3"])
      == Landed(["foo", GLOB, "foo", STAR], map["bar" := "3"])
  {
    hide Build, Route, Named, NodeKey, ParamName;
    DocumentedKeys();
    OneNamed(["foo", "{foo}", "bar"], ["foo", STAR, "bar"], ["", "foo", ""]);
    ParameterInside(Build([GetEndpoint("1", 0, "", ["foo", "{foo}", "bar"], Endpoints.None)]));
    OneNamed(["foo", "*", "{bar}"], ["foo", STAR, STAR], ["", "", "bar"]);
    ParameterAtEnd(Build([GetEndpoint("1", 0, "", ["foo", "*", "{bar}"], Endpoints.None)]));
    OneNamed(["foo", "**", "{bar}"], ["foo", GLOB, STAR], ["", "", "bar"]);
    ParameterBelowGlob(Build([GetEndpoint("1", 0, "", ["foo", "**", "{bar}"], Endpoints.None)]));
    OneNamed(["foo", "**", "foo", "{bar}"], ["foo", GLOB, "foo", STAR], ["", "", "", "bar"]);
    ParameterBehindGlob(Build([GetEndpoint("1", 0, "", ["foo", "**", "foo", "{bar}"], Endpoints.None)]));
  }
}
