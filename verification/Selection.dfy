/** Choosing an endpoint at the node the walk landed on: the candidate list, the
    attribute checks, and the request body, which only one check gets to read. */
module Selection {
  import opened Paths
  import opened Endpoints
  import opened Buckets
  import opened Index

  /** Reading drains a body; a body that fails goes on failing. */
  datatype Body = Readable(content: string) | Failing

  datatype Request = Request(
    verb: string,
    host: string,
    path: string,
    query: map<string, seq<string>>,
    header: map<string, seq<string>>,
    body: Body)

  /** What a regular expression accepts. */
  type Accepts = (Regexp, string) -> bool

  const DRAINED := Readable("")

  /** `url.Values.Get` and `http.Header.Get`: the first value, or the empty string. */
  function Get(values: map<string, seq<string>>, key: string): string
  {
    if key in values && |values[key]| > 0 then values[key][0] else ""
  }

  predicate Wanted(wanted: map<string, string>, actual: map<string, seq<string>>)
  {
    forall key | key in wanted :: Get(actual, key) == wanted[key]
  }

  /** Query and header checks, which come before the body is touched. */
  predicate Eligible(ep: Endpoint, req: Request)
  {
    Wanted(ep.request.query, req.query) && Wanted(ep.request.headers, req.header)
  }

  predicate Reads(ep: Endpoint, req: Request)
  {
    Eligible(ep, req) && ep.request.bodyRegexp.Some?
  }

  predicate BodyMatches(accepts: Accepts, ep: Endpoint, body: Body)
  {
    match ep.request.bodyRegexp
    case None => true
    case Some(re) => body.Readable? && accepts(re, body.content)
  }

  predicate Passes(accepts: Accepts, ep: Endpoint, req: Request, body: Body)
  {
    Eligible(ep, req) && BodyMatches(accepts, ep, body)
  }

  function AfterReading(body: Body): Body
  {
    if body.Readable? then DRAINED else body
  }

  /** Both the query and the headers are checked: each wanted key must come with the wanted value first, and a
      key that is missing counts as coming with an empty value. */
  lemma EligibleExactly(ep: Endpoint, req: Request)
    ensures Eligible(ep, req) <==>
      && (forall key | key in ep.request.query ::
            if key in req.query && req.query[key] != [] then req.query[key][0] == ep.request.query[key]
            else ep.request.query[key] == "")
      && (forall key | key in ep.request.headers ::
            if key in req.header && req.header[key] != [] then req.header[key][0] == ep.request.headers[key]
            else ep.request.headers[key] == "")
  {
    WantedExactly(ep.request.query, req.query);
    WantedExactly(ep.request.headers, req.header);
  }

  lemma WantedExactly(wanted: map<string, string>, actual: map<string, seq<string>>)
    ensures Wanted(wanted, actual) <==> forall key | key in wanted ::
      if key in actual && actual[key] != [] then actual[key][0] == wanted[key] else wanted[key] == ""
  {
    forall key | key in wanted
      ensures Get(actual, key) == if key in actual && actual[key] != [] then actual[key][0] else ""
    {
    }
  }

  /** An endpoint without an expression takes any body; otherwise the body must be readable and accepted. */
  lemma BodyMatchesExactly(accepts: Accepts, ep: Endpoint, body: Body)
    ensures BodyMatches(accepts, ep, body) <==>
      (ep.request.bodyRegexp.Some? ==> body != Failing && accepts(ep.request.bodyRegexp.value, body.content))
  {}

  /** The checking loop from candidate `i` on, with what is left of the body. */
  function Select(accepts: Accepts, eps: seq<Endpoint>, req: Request, body: Body, i: nat): (r: Option<nat>)
    requires i <= |eps|
    ensures r.Some? ==> i <= r.value < |eps|
    decreases |eps| - i
  {
    if i == |eps| then None
    else if Passes(accepts, eps[i], req, body) then Some(i)
    else Select(accepts, eps, req, if Reads(eps[i], req) then AfterReading(body) else body, i + 1)
  }

  /** The body candidate `i` gets to see: the real one for the first reader, a drained one after it. */
  function Seen(eps: seq<Endpoint>, req: Request, i: nat): Body
    requires i <= |eps|
  {
    if exists j | 0 <= j < i :: Reads(eps[j], req) then AfterReading(req.body) else req.body
  }

  lemma SeenNext(eps: seq<Endpoint>, req: Request, i: nat)
    requires i < |eps|
    ensures Seen(eps, req, i + 1) == if Reads(eps[i], req) then AfterReading(Seen(eps, req, i)) else Seen(eps, req, i)
  {
    if j :| 0 <= j < i && Reads(eps[j], req) { assert 0 <= j < i + 1 && Reads(eps[j], req); }
  }

  ghost predicate FirstPassing(accepts: Accepts, eps: seq<Endpoint>, req: Request, i: nat)
  {
    && i < |eps|
    && Passes(accepts, eps[i], req, Seen(eps, req, i))
    && forall j | 0 <= j < i :: !Passes(accepts, eps[j], req, Seen(eps, req, j))
  }

  /** The loop finds the first candidate that passes with the body it gets to see, if there is one. */
  lemma {:induction false} SelectsFirstPassing(accepts: Accepts, eps: seq<Endpoint>, req: Request, i: nat)
    requires i <= |eps|
    requires forall j | 0 <= j < i :: !Passes(accepts, eps[j], req, Seen(eps, req, j))
    ensures match Select(accepts, eps, req, Seen(eps, req, i), i)
      case Some(k) => FirstPassing(accepts, eps, req, k)
      case None => forall j | 0 <= j < |eps| :: !Passes(accepts, eps[j], req, Seen(eps, req, j))
    decreases |eps| - i
  {
    if i < |eps| && !Passes(accepts, eps[i], req, Seen(eps, req, i)) {
      SelectsFirstPassing(accepts, eps, req, i + 1);
    }
  }

  /** A body that cannot be read passes no endpoint with an expression, wherever it stands. */
  lemma FailingBodyPassesNone(accepts: Accepts, eps: seq<Endpoint>, req: Request, i: nat)
    requires req.body == Failing && i < |eps| && eps[i].request.bodyRegexp.Some?
    ensures Select(accepts, eps, req, req.body, 0) != Some(i)
  {
    SelectsFirstPassing(accepts, eps, req, 0);
    assert Seen(eps, req, 0) == Failing == Seen(eps, req, i);
  }

  /** When the stretch of candidates that comes from one bucket is in descending order, no other passing
      endpoint of that bucket has a higher priority than the chosen one. */
  lemma ChosenHasHighestPriority(accepts: Accepts, eps: seq<Endpoint>, req: Request, i: nat, j: nat, lo: nat, hi: nat)
    requires FirstPassing(accepts, eps, req, i)
    requires lo <= i < hi <= |eps| && lo <= j < hi && Descending(eps[lo..hi])
    requires Passes(accepts, eps[j], req, Seen(eps, req, j))
    ensures eps[i].prio >= eps[j].prio
  {
    assert eps[i] == eps[lo..hi][i-lo] && eps[j] == eps[lo..hi][j-lo];
  }

  // ----- The body is read once

  /** The documented choice: every candidate is checked against the request as it came. */
  ghost predicate FirstIdeal(accepts: Accepts, eps: seq<Endpoint>, req: Request, r: Option<nat>)
  {
    match r
    case Some(i) =>
      && i < |eps| && Passes(accepts, eps[i], req, req.body)
      && forall j | 0 <= j < i :: !Passes(accepts, eps[j], req, req.body)
    case None => forall j | 0 <= j < |eps| :: !Passes(accepts, eps[j], req, req.body)
  }

  /** Candidate `k` is reached whatever the body: nothing in front of it accepts every body. */
  ghost predicate Reached(eps: seq<Endpoint>, req: Request, k: nat)
    requires k < |eps|
  {
    forall j | 0 <= j < k :: Eligible(eps[j], req) ==> eps[j].request.bodyRegexp.Some?
  }

  ghost predicate OneReader(eps: seq<Endpoint>, req: Request)
  {
    forall j, k | 0 <= j < k < |eps| && Reads(eps[j], req) && Reads(eps[k], req) :: !Reached(eps, req, k)
  }

  ghost predicate AlwaysIdeal(eps: seq<Endpoint>, req: Request)
  {
    forall accepts: Accepts, body: Body :: IdealWith(accepts, eps, req.(body := body))
  }

  ghost predicate IdealWith(accepts: Accepts, eps: seq<Endpoint>, req: Request)
  {
    FirstIdeal(accepts, eps, req, Select(accepts, eps, req, req.body, 0))
  }

  /** The choice is the documented one for every body and all regular expressions if and only if at most
      one candidate with a body expression can be reached. */
  lemma IdealIffOneReader(eps: seq<Endpoint>, req: Request)
    ensures AlwaysIdeal(eps, req) <==> OneReader(eps, req)
  {
    if OneReader(eps, req) {
      forall accepts: Accepts, body: Body ensures IdealWith(accepts, eps, req.(body := body)) {
        OneReaderIsIdeal(accepts, eps, req.(body := body));
      }
    }
    if AlwaysIdeal(eps, req) {
      forall j, k | 0 <= j < k < |eps| && Reads(eps[j], req) && Reads(eps[k], req) ensures !Reached(eps, req, k) {
        if Reached(eps, req, k) {
          assert IdealWith(OnlyEmpty, eps, req.(body := Readable("x")));
          SecondReaderSeesNothing(eps, req, j, k);
        }
      }
    }
  }

  predicate OnlyEmpty(re: Regexp, content: string)
  {
    content == ""
  }

  /** A candidate that is reached and reads the body is the first to read it. */
  lemma ReachedSeesBody(accepts: Accepts, eps: seq<Endpoint>, req: Request, k: nat)
    requires OneReader(eps, req) && k < |eps|
    requires forall j | 0 <= j < k :: !Passes(accepts, eps[j], req, Seen(eps, req, j))
    ensures Reads(eps[k], req) ==> Seen(eps, req, k) == req.body
  {
    forall j | 0 <= j < k && Eligible(eps[j], req) ensures eps[j].request.bodyRegexp.Some? {
      assert !Passes(accepts, eps[j], req, Seen(eps, req, j));
    }
    assert Reached(eps, req, k);
  }

  lemma OneReaderIsIdeal(accepts: Accepts, eps: seq<Endpoint>, req: Request)
    requires OneReader(eps, req)
    ensures IdealWith(accepts, eps, req)
  {
    SelectsFirstPassing(accepts, eps, req, 0);
    var r := Select(accepts, eps, req, req.body, 0);
    var n := if r.Some? then r.value + 1 else |eps|;
    forall k | 0 <= k < n
      ensures Passes(accepts, eps[k], req, Seen(eps, req, k)) <==> Passes(accepts, eps[k], req, req.body)
    {
      ReachedSeesBody(accepts, eps, req, k);
    }
  }

  lemma SecondReaderSeesNothing(eps: seq<Endpoint>, req: Request, j: nat, k: nat)
    requires j < k < |eps| && Reads(eps[j], req) && Reads(eps[k], req) && Reached(eps, req, k)
    ensures !IdealWith(OnlyEmpty, eps, req.(body := Readable("x")))
  {
    var req' := req.(body := Readable("x"));
    SelectsFirstPassing(OnlyEmpty, eps, req', 0);
    assert Reads(eps[j], req') && Passes(OnlyEmpty, eps[k], req', Seen(eps, req', k));
    var r := Select(OnlyEmpty, eps, req', req'.body, 0);
    assert r.Some? && r.value <= k;
    assert Reads(eps[r.value], req') ==> !Passes(OnlyEmpty, eps[r.value], req', req'.body);
    assert Eligible(eps[r.value], req) && eps[r.value].request.bodyRegexp.Some?;
  }

  // ----- Buckets of other methods and hosts

  /** What is consulted at a node: the bucket of the method and host, then that of the method. */
  function Candidates(view: View, req: Request): seq<Endpoint>
  {
    BucketAt(view, HostKey(req.verb, HostName(req.host))) + BucketAt(view, req.verb)
  }

  /** The host without its port. */
  function HostName(host: string): string
  {
    Split(host, ':')[0]
  }

  /** A host is found under its own name with any port or none. */
  lemma HostNameCutsPort(host: string, port: string)
    requires ':' !in host
    ensures HostName(host) == host && HostName(host + ":" + port) == host
  {
    SplitPart(host, "", ':');
    SplitPart(host, ":" + port, ':');
    assert host + "" == host && host + (":" + port) == host + ":" + port;
    assert (":" + port)[0] == ':';
  }

  predicate OrdinaryVerb(verb: string)
  {
    '-' !in verb && (verb == "" || verb[0] != '+')
  }

  predicate Consulted(key: string, req: Request)
  {
    key == HostKey(req.verb, HostName(req.host)) || key == req.verb
  }

  lemma HostKeysDiffer(v: string, h: string, w: string, g: string)
    requires '-' !in v && '-' !in w && HostKey(v, h) == HostKey(w, g)
    ensures v == w && h == g
  {
    var key := HostKey(v, h);
    assert forall i | 0 <= i < |v| :: v[i] in v && key[i+1] == v[i];
    assert forall i | 0 <= i < |w| :: w[i] in w && key[i+1] == w[i];
    assert key[|v|+1] == '-' && key[|w|+1] == '-';
    assert key[1..|v|+1] == v && key[1..|w|+1] == w;
    assert key[|v|+2..] == h && key[|w|+2..] == g;
  }

  /** For ordinary methods an endpoint is consulted exactly when its method is the requested one and its
      host, if it wants one, is the requested one. */
  lemma ConsultedExactly(ep: Endpoint, req: Request)
    requires OrdinaryVerb(ep.request.verb) && OrdinaryVerb(req.verb)
    ensures Consulted(EndpointKey(ep), req) <==>
      && ep.request.verb == req.verb
      && (ep.request.host == "" || ep.request.host == HostName(req.host))
  {
    var v, h := ep.request.verb, ep.request.host;
    if h != "" {
      assert HostKey(v, h)[0] == '+';
      if HostKey(v, h) == HostKey(req.verb, HostName(req.host)) {
        HostKeysDiffer(v, h, req.verb, HostName(req.host));
      }
    } else {
      assert HostKey(req.verb, HostName(req.host))[0] == '+';
    }
  }

  // ----- Methods that mislead

  predicate ConsultedRightly(ep: Endpoint, req: Request)
  {
    Consulted(EndpointKey(ep), req) <==>
      && ep.request.verb == req.verb
      && (ep.request.host == "" || ep.request.host == HostName(req.host))
  }

  /** All endpoints with ordinary methods are consulted rightly. */
  ghost predicate AllConsultedRightly(req: Request)
  {
    forall ep: Endpoint | OrdinaryVerb(ep.request.verb) :: ConsultedRightly(ep, req)
  }

  /** The same for endpoints as they are filed, with a method filled in. */
  ghost predicate FiledConsultedRightly(req: Request)
  {
    forall ep: Endpoint | OrdinaryVerb(ep.request.verb) && ep.request.verb != "" :: ConsultedRightly(ep, req)
  }

  lemma {:induction false} FirstPart(s: string, sep: char)
    requires sep in s
    ensures var part := Split(s, sep)[0]; sep !in part && |part| < |s| && s[|part|] == sep && part == s[..|part|]
  {
    if s[0] != sep {
      FirstPart(s[1..], sep);
      var part := Split(s[1..], sep)[0];
      assert Split(s, sep)[0] == [s[0]] + part;
      assert [s[0]] + s[1..][..|part|] == s[..|part|+1];
    }
  }

  lemma CutAt(s: string, sep: char)
    requires sep in s
    ensures var part := Split(s, sep)[0]; sep !in part && |part| < |s| && s == part + [sep] + s[|part|+1..]
  {
    hide Split;
    FirstPart(s, sep);
    var n := |Split(s, sep)[0]|;
    assert s == s[..n] + [s[n]] + s[n+1..];
  }

  /** The endpoint of host `rest-h` and method `w` is filed where method `w-rest` on host `h` is looked up. */
  function Misfiled(verb: string, host: string): Endpoint
    requires '-' in verb
  {
    var w := Split(verb, '-')[0];
    CutAt(verb, '-');
    Endpoint("", 0, MatchRequest(verb[|w|+1..] + "-" + host, w, "/", map[], map[], None))
  }

  lemma Regroup(w: string, rest: string, host: string)
    ensures HostKey(w, rest + "-" + host) == HostKey(w + "-" + rest, host)
  {
    assert "+" + w + "-" + (rest + "-" + host) == "+" + (w + "-" + rest) + "-" + host;
  }

  lemma DashMisleads(req: Request)
    requires '-' in req.verb && req.verb[0] != '+'
    ensures var ep := Misfiled(req.verb, HostName(req.host));
      && OrdinaryVerb(ep.request.verb) && (ep.request.verb != "" <==> req.verb[0] != '-')
      && !ConsultedRightly(ep, req)
  {
    hide Split, HostKey, HostName;
    var ep := Misfiled(req.verb, HostName(req.host));
    var w := ep.request.verb;
    CutAt(req.verb, '-');
    Regroup(w, req.verb[|w|+1..], HostName(req.host));
    assert req.verb[0] == (w + "-" + req.verb[|w|+1..])[0];
  }

  /** For a request method that does not begin with `+`, all endpoints with ordinary methods are consulted
      rightly if and only if it has no dash. */
  lemma RightlyIffNoDash(req: Request)
    requires req.verb == "" || req.verb[0] != '+'
    ensures AllConsultedRightly(req) <==> '-' !in req.verb
  {
    if '-' in req.verb {
      DashMisleads(req);
    } else {
      forall ep: Endpoint | OrdinaryVerb(ep.request.verb) ensures ConsultedRightly(ep, req) { ConsultedExactly(ep, req); }
    }
  }

  predicate SpelledAsKey(s: string)
  {
    '-' in s && var w := Split(s, '-')[0]; w != "" && w[0] != '+' && |w| + 1 < |s|
  }

  /** For instance `A` on host `B-c` is filed where `A-B` on host `c` is looked up. */
  lemma DashesConfuseBuckets(ep: Endpoint, req: Request)
    requires ep.request.verb == "A" && ep.request.host == "B-c"
    requires req.verb == "A-B" && req.host == "c"
    ensures Consulted(EndpointKey(ep), req) && ep.request.verb != req.verb
  {
    SplitPart("c", "", ':');
    assert "c" + "" == "c";
    assert "+" + "A" + "-" + "B-c" == "+" + "A-B" + "-" + "c";
  }

  /** A method that looks like another method's key: it has a dash behind something else, or it is spelled
      like a key of a method and a host. */
  predicate Misleading(verb: string)
  {
    && '-' in verb && verb[0] != '-'
    && (verb[0] == '+' ==> SpelledAsKey(verb[1..]))
  }

  /** For every request method: the filed endpoints are consulted rightly if and only if it is not misleading. */
  lemma FiledRightlyIffNotMisleading(req: Request)
    ensures FiledConsultedRightly(req) <==> !Misleading(req.verb)
  {
    if Misleading(req.verb) {
      if req.verb[0] == '+' { KeyMisleads(req); } else { DashMisleads(req); }
    } else {
      forall ep: Endpoint | OrdinaryVerb(ep.request.verb) && ep.request.verb != "" ensures ConsultedRightly(ep, req) {
        RightUnlessMisleading(ep, req);
      }
    }
  }

  lemma KeyMisleads(req: Request)
    requires Misleading(req.verb) && req.verb[0] == '+'
    ensures !FiledConsultedRightly(req)
  {
    hide Split, FiledConsultedRightly;
    var tail := req.verb[1..];
    assert req.verb == "+" + tail;
    CutAt(tail, '-');
    var w := Split(tail, '-')[0];
    SpelledLikeKey(req, w, tail[|w|+1..]);
  }

  lemma SpelledLikeKey(req: Request, w: string, rest: string)
    requires req.verb == "+" + (w + "-" + rest)
    requires '-' !in w && w != "" && w[0] != '+' && rest != ""
    ensures !FiledConsultedRightly(req)
  {
    hide HostKey, HostName;
    var ep := Endpoint("", 0, MatchRequest(rest, w, "/", map[], map[], None));
    HostKeyParts(w, rest);
    assert |req.verb| > |w|;
    assert Consulted(EndpointKey(ep), req) && !ConsultedRightly(ep, req);
  }

  lemma HostKeyParts(verb: string, host: string)
    ensures HostKey(verb, host) == "+" + (verb + "-" + host)
  {}

  lemma RightUnlessMisleading(ep: Endpoint, req: Request)
    requires OrdinaryVerb(ep.request.verb) && ep.request.verb != "" && !Misleading(req.verb)
    ensures ConsultedRightly(ep, req)
  {
    var v, h, g := ep.request.verb, ep.request.host, HostName(req.host);
    assert HostKey(req.verb, g)[0] == '+';
    assert HostKey(req.verb, g)[1] == (req.verb + "-" + g)[0];
    if h != "" {
      var key := HostKey(v, h);
      assert key[0] == '+' && key[1] == v[0] && v[0] in v;
      if key == HostKey(req.verb, g) {
        HostKeysDiffer(v, h, req.verb, g);
      } else if key == req.verb {
        assert req.verb[1..] == v + ("-" + h);
        assert req.verb[1..][|v|] == '-';
        SplitPart(v, "-" + h, '-');
      }
    }
  }
}
