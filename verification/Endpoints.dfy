/** The configuration model of a mock endpoint and the keys it is registered under. */
module Endpoints {
  import opened Paths

  datatype Option<+T> = None | Some(value: T) {
    function GetOr(default: T): T {
      match this
      case Some(v) => v
      case None => default
    }
  }

  /** A regular expression is kept as its source text; what it accepts is a parameter of the model. */
  type Regexp = string

  datatype MatchRequest = MatchRequest(
    host: string,
    verb: string,
    path: string,
    query: map<string, string>,
    headers: map<string, string>,
    bodyRegexp: Option<Regexp>)

  datatype Endpoint = Endpoint(id: string, prio: int, request: MatchRequest)

  /** Registration fills in the default method. */
  function Defaulted(ep: Endpoint): Endpoint
  {
    if ep.request.verb == "" then ep.(request := ep.request.(verb := "GET")) else ep
  }

  /** Without a configured method it is GET; nothing else of the endpoint changes. */
  lemma DefaultedExactly(ep: Endpoint)
    ensures var r := ep.request; Defaulted(ep) == Endpoint(ep.id, ep.prio,
      MatchRequest(r.host, if |r.verb| == 0 then "GET" else r.verb, r.path, r.query, r.headers, r.bodyRegexp))
  {}

  /** The bucket an endpoint is filed under inside its node. */
  function EndpointKey(ep: Endpoint): string
  {
    if |ep.request.host| > 0 then HostKey(ep.request.verb, ep.request.host) else ep.request.verb
  }

  function HostKey(verb: string, host: string): string
  {
    "+" + verb + "-" + host
  }

  predicate IsPathParam(s: Segment)
  {
    |s| > 0 && s[0] == '{' && s[|s|-1] == '}'
  }

  function NodeKey(s: Segment): Segment
  {
    if IsPathParam(s) then STAR else s
  }

  function ParamName(s: Segment): string
  {
    if IsPathParam(s) then s[1..|s|-1] else ""
  }

  /** A name in braces becomes `*` with that name, whatever the name, the empty one included. */
  lemma BracedKey(name: string)
    ensures NodeKey("{" + name + "}") == "*" && ParamName("{" + name + "}") == name
  {
    var s := "{" + name + "}";
    assert s[1..|s|-1] == name;
  }

  /** Any other segment is its own key and gives no name. */
  lemma PlainKey(s: Segment)
    requires forall name: string :: s != "{" + name + "}"
    ensures NodeKey(s) == s && ParamName(s) == ""
  {
    if |s| >= 2 {
      assert s != "{" + s[1..|s|-1] + "}";
      assert s == [s[0]] + s[1..|s|-1] + [s[|s|-1]];
    }
  }

  function NodeKeys(segments: Path): (p: Path)
    ensures |p| == |segments|
  {
    if segments == [] then [] else [NodeKey(segments[0])] + NodeKeys(segments[1..])
  }

  function NodeNames(segments: Path): (names: seq<string>)
    ensures |names| == |segments|
  {
    if segments == [] then [] else [ParamName(segments[0])] + NodeNames(segments[1..])
  }

  lemma {:induction false} NodeKeysAt(segments: Path, k: nat)
    requires k < |segments|
    ensures NodeKeys(segments)[k] == NodeKey(segments[k]) && NodeNames(segments)[k] == ParamName(segments[k])
  {
    if k > 0 { NodeKeysAt(segments[1..], k - 1); }
  }

  /** The node an endpoint is filed at, and the names the nodes on the way are given. */
  function Pattern(path: string): Path
  {
    NodeKeys(Segments(path))
  }

  function ParamNames(path: string): (names: seq<string>)
    ensures |names| == |Pattern(path)|
  {
    NodeNames(Segments(path))
  }
}
