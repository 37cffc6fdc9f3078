/** The endpoint index as a value: one view per node, keyed by the path of the node.
    `Register` is what one registration does to it, `Build` a whole history. */
module Index {
  import opened Paths
  import opened Endpoints
  import opened Buckets

  datatype View = View(endpoints: map<string, Bucket>, param: string)

  type Index = map<Path, View>

  const EMPTY_VIEW := View(map[], "")

  const EMPTY_INDEX: Index := map[[] := EMPTY_VIEW]

  function BucketAt(view: View, key: string): Bucket
  {
    if key in view.endpoints then view.endpoints[key] else []
  }

  ghost predicate Child(idx: Index, p: Path, s: Segment)
  {
    p + [s] in idx
  }

  ghost predicate Leaf(idx: Index, p: Path)
  {
    forall s :: !Child(idx, p, s)
  }

  ghost predicate PrefixClosed(idx: Index)
  {
    && [] in idx
    && forall p, s | Child(idx, p, s) :: p in idx
  }

  /** Passing through a node creates it when missing and overwrites its parameter name. */
  function Touch(idx: Index, p: Path, name: string): Index
  {
    idx[p := View(if p in idx then idx[p].endpoints else map[], name)]
  }

  /** Passing through the first `depth` nodes below the root on the way to `p`. */
  function Descend(idx: Index, p: Path, names: seq<string>, depth: nat): Index
    requires depth <= |p| == |names|
  {
    if depth == 0 then idx
    else Touch(Descend(idx, p, names, depth - 1), p[..depth], names[depth-1])
  }

  function File(view: View, ep: Endpoint): View
  {
    var key := EndpointKey(ep);
    view.(endpoints := view.endpoints[key := Insert(BucketAt(view, key), ep)])
  }

  function RegisterAt(idx: Index, p: Path, names: seq<string>, ep: Endpoint): (idx': Index)
    requires [] in idx && |p| == |names|
    ensures [] in idx'
  {
    DescendExactly(idx, p, names, |p|, p);
    DescendExactly(idx, p, names, |p|, []);
    var touched := Descend(idx, p, names, |p|);
    touched[p := File(touched[p], ep)]
  }

  function Register(idx: Index, ep: Endpoint): (idx': Index)
    requires [] in idx
    ensures [] in idx'
  {
    RegisterAt(idx, Pattern(ep.request.path), ParamNames(ep.request.path), Defaulted(ep))
  }

  function Build(eps: seq<Endpoint>): (idx: Index)
    ensures [] in idx
  {
    if eps == [] then EMPTY_INDEX else Register(Build(eps[..|eps|-1]), eps[|eps|-1])
  }

  /** The nodes, buckets and names after descending: only the nodes passed are created or renamed. */
  lemma {:induction false} DescendExactly(idx: Index, p: Path, names: seq<string>, depth: nat, q: Path)
    requires [] in idx && depth <= |p| == |names|
    ensures var d, passed := Descend(idx, p, names, depth), q != [] && q <= p && |q| <= depth;
      && (q in d <==> q in idx || passed)
      && (q in d ==> d[q].endpoints == if q in idx then idx[q].endpoints else map[])
      && (q in d ==> d[q].param == if passed then names[|q|-1] else idx[q].param)
  {
    if depth > 0 {
      DescendExactly(idx, p, names, depth - 1, q);
      DescendExactly(idx, p, names, depth - 1, p[..depth]);
      if q <= p && |q| == depth { assert q == p[..depth]; }
    }
  }

  /** The registered endpoints that belong into one bucket, in registration order. */
  function Filed(eps: seq<Endpoint>, p: Path, key: string): seq<Endpoint>
  {
    if eps == [] then []
    else
      var ep := Defaulted(eps[|eps|-1]);
      Filed(eps[..|eps|-1], p, key) + if Pattern(ep.request.path) == p && EndpointKey(ep) == key then [ep] else []
  }

  ghost predicate PassedBy(eps: seq<Endpoint>, p: Path)
  {
    exists i | 0 <= i < |eps| :: p <= Pattern(eps[i].request.path)
  }

  /** The name a node carries: the one written by the last registration that passed through it. */
  function LastName(eps: seq<Endpoint>, p: Path): string
    requires p != []
  {
    if eps == [] then ""
    else
      var path := eps[|eps|-1].request.path;
      if p <= Pattern(path) then ParamNames(path)[|p|-1] else LastName(eps[..|eps|-1], p)
  }

  lemma PassedBySnoc(eps: seq<Endpoint>, p: Path)
    requires eps != []
    ensures var n := |eps| - 1;
      PassedBy(eps, p) <==> PassedBy(eps[..n], p) || p <= Pattern(eps[n].request.path)
  {
    var n := |eps| - 1;
    assert forall i | 0 <= i < n :: eps[..n][i] == eps[i];
    if i :| 0 <= i < n && p <= Pattern(eps[i].request.path) {
      assert p <= Pattern(eps[..n][i].request.path);
    }
  }

  /** What one registration does to the node at `q`. */
  lemma RegisterExactly(idx: Index, p: Path, names: seq<string>, ep: Endpoint, q: Path)
    requires [] in idx && |p| == |names|
    ensures var idx' := RegisterAt(idx, p, names, ep);
      && (q in idx' <==> q in idx || q <= p)
      && (q in idx' ==>
            && idx'[q].param == (if q != [] && q <= p then names[|q|-1] else idx[q].param)
            && var was := if q in idx then idx[q] else EMPTY_VIEW;
              idx'[q].endpoints == if q == p then File(was, ep).endpoints else was.endpoints)
  {
    DescendExactly(idx, p, names, |p|, p);
    DescendExactly(idx, p, names, |p|, q);
  }

  /** After any history: which nodes exist. */
  lemma {:induction false} BuildNodes(eps: seq<Endpoint>, p: Path)
    ensures p in Build(eps) <==> p == [] || PassedBy(eps, p)
  {
    if eps != [] {
      var n := |eps| - 1;
      BuildNodes(eps[..n], p);
      RegisterExactly(Build(eps[..n]), Pattern(eps[n].request.path), ParamNames(eps[n].request.path), Defaulted(eps[n]), p);
      PassedBySnoc(eps, p);
    }
  }

  /** Every node but the root hangs below its parent. */
  lemma BuildPrefixClosed(eps: seq<Endpoint>)
    ensures PrefixClosed(Build(eps))
  {
    hide Pattern, Build;
    forall p, s | Child(Build(eps), p, s) ensures p in Build(eps) {
      BuildNodes(eps, p + [s]);
      BuildNodes(eps, p);
      var i :| 0 <= i < |eps| && p + [s] <= Pattern(eps[i].request.path);
      assert p <= Pattern(eps[i].request.path);
    }
  }

  /** After any history: what every bucket holds, entry by entry, and that none is left empty. */
  lemma {:induction false} BuildBuckets(eps: seq<Endpoint>, p: Path, key: string)
    requires p in Build(eps)
    ensures BucketAt(Build(eps)[p], key) == Fill(Filed(eps, p, key))
    ensures key in Build(eps)[p].endpoints <==> Filed(eps, p, key) != []
  {
    hide RegisterAt, Pattern, ParamNames, EndpointKey, Insert;
    assert forall ep :: Defaulted(ep).request.path == ep.request.path;
    if eps != [] {
      var n := |eps| - 1;
      var ep, before := eps[n], Build(eps[..n]);
      RegisterExactly(before, Pattern(ep.request.path), ParamNames(ep.request.path), Defaulted(ep), p);
      if p in before { BuildBuckets(eps[..n], p, key); } else { NothingFiled(eps[..n], p, key); }
      FiledSnoc(eps, p, key);
    }
  }

  lemma FiledSnoc(eps: seq<Endpoint>, p: Path, key: string)
    requires eps != []
    ensures var n := |eps| - 1; var ep := Defaulted(eps[n]);
      if Pattern(ep.request.path) == p && EndpointKey(ep) == key
      then Filed(eps, p, key) != [] && Fill(Filed(eps, p, key)) == Insert(Fill(Filed(eps[..n], p, key)), ep)
      else Filed(eps, p, key) == Filed(eps[..n], p, key)
  {
    var filed := Filed(eps, p, key);
    if filed != [] { assert filed[..|filed|-1] + [filed[|filed|-1]] == filed; }
    var n := |eps| - 1;
    var ep := Defaulted(eps[n]);
    if Pattern(ep.request.path) == p && EndpointKey(ep) == key {
      assert filed[..|filed|-1] == Filed(eps[..n], p, key);
    }
  }

  lemma {:induction false} NothingFiled(eps: seq<Endpoint>, p: Path, key: string)
    requires p !in Build(eps)
    ensures Filed(eps, p, key) == []
  {
    if eps != [] {
      var n := |eps| - 1;
      RegisterExactly(Build(eps[..n]), Pattern(eps[n].request.path), ParamNames(eps[n].request.path), Defaulted(eps[n]), p);
      NothingFiled(eps[..n], p, key);
    }
  }

  /** After any history: what every node is called. */
  lemma {:induction false} BuildNames(eps: seq<Endpoint>, p: Path)
    requires p in Build(eps) && p != []
    ensures Build(eps)[p].param == LastName(eps, p)
  {
    if eps != [] {
      var n := |eps| - 1;
      RegisterExactly(Build(eps[..n]), Pattern(eps[n].request.path), ParamNames(eps[n].request.path), Defaulted(eps[n]), p);
      if p in Build(eps[..n]) { BuildNames(eps[..n], p); }
    }
  }

  /** The last registration that passes through `p`. */
  ghost predicate PassedLast(eps: seq<Endpoint>, p: Path, j: nat)
  {
    && j < |eps| && p <= Pattern(eps[j].request.path)
    && forall k | j < k < |eps| :: !(p <= Pattern(eps[k].request.path))
  }

  lemma {:induction false} LastNameExactly(eps: seq<Endpoint>, p: Path, j: nat)
    requires p != [] && PassedLast(eps, p, j)
    ensures LastName(eps, p) == ParamNames(eps[j].request.path)[|p|-1]
  {
    hide Pattern, ParamNames;
    if j < |eps| - 1 {
      assert forall k | 0 <= k < |eps| - 1 :: eps[..|eps|-1][k] == eps[k];
      LastNameExactly(eps[..|eps|-1], p, j);
    }
  }

  lemma {:induction false} PassedLastExists(eps: seq<Endpoint>, p: Path, i: nat) returns (j: nat)
    requires i < |eps| && p <= Pattern(eps[i].request.path)
    ensures i <= j && PassedLast(eps, p, j)
    decreases |eps| - i
  {
    hide Pattern;
    j := i;
    if k :| i < k < |eps| && p <= Pattern(eps[k].request.path) { j := PassedLastExists(eps, p, k); }
  }

  /** The node of an endpoint's segment `k` carries the name the endpoint gives it if and only if the last
      registration that passes through it gives it the same name. */
  lemma OwnNameExactly(eps: seq<Endpoint>, i: nat, k: nat) returns (j: nat)
    requires i < |eps| && k < |Pattern(eps[i].request.path)|
    ensures Pattern(eps[i].request.path)[..k+1] in Build(eps)
    ensures i <= j && PassedLast(eps, Pattern(eps[i].request.path)[..k+1], j)
    ensures Build(eps)[Pattern(eps[i].request.path)[..k+1]].param == ParamNames(eps[i].request.path)[k] <==>
      ParamNames(eps[j].request.path)[k] == ParamNames(eps[i].request.path)[k]
  {
    hide Pattern, ParamNames, Build, LastName;
    var p := Pattern(eps[i].request.path)[..k+1];
    j := PassedLastExists(eps, p, i);
    BuildNodes(eps, p);
    BuildNames(eps, p);
    LastNameExactly(eps, p, j);
  }

  /** `ep` is a registered endpoint, with its method filled in. */
  ghost predicate Registered(eps: seq<Endpoint>, ep: Endpoint)
  {
    exists i | 0 <= i < |eps| :: Defaulted(eps[i]) == ep
  }

  lemma RegisteredSnoc(eps: seq<Endpoint>, ep: Endpoint)
    requires eps != []
    ensures var n := |eps| - 1; Registered(eps, ep) <==> Registered(eps[..n], ep) || Defaulted(eps[n]) == ep
  {
    var n := |eps| - 1;
    if i :| 0 <= i < n && Defaulted(eps[i]) == ep { assert Defaulted(eps[..n][i]) == ep; }
    if i :| 0 <= i < n && Defaulted(eps[..n][i]) == ep { assert Defaulted(eps[i]) == ep; }
  }

  /** The filed endpoints are the registered ones of that path and key. */
  lemma {:induction false} FiledExactly(eps: seq<Endpoint>, p: Path, key: string, ep: Endpoint)
    ensures ep in Filed(eps, p, key) <==>
      Registered(eps, ep) && Pattern(ep.request.path) == p && EndpointKey(ep) == key
  {
    hide Registered, Pattern, EndpointKey, Defaulted;
    if eps != [] {
      FiledExactly(eps[..|eps|-1], p, key, ep);
      RegisteredSnoc(eps, ep);
    } else {
      NoneRegistered(ep);
    }
  }

  lemma NoneRegistered(ep: Endpoint)
    ensures !Registered([], ep)
  {}

  /** Every registered endpoint is found in the bucket of its own path and key, and in no other one. */
  lemma EveryEndpointInOneBucket(eps: seq<Endpoint>, ep: Endpoint, p: Path, key: string)
    requires p in Build(eps)
    ensures ep in BucketAt(Build(eps)[p], key) <==>
      && Registered(eps, ep)
      && p == Pattern(ep.request.path) && key == EndpointKey(ep)
    ensures multiset(BucketAt(Build(eps)[p], key)) == multiset(Filed(eps, p, key))
  {
    BuildBuckets(eps, p, key);
    FiledExactly(eps, p, key, ep);
    FillKeepsEntries(Filed(eps, p, key));
    SameEntries(Filed(eps, p, key));
  }
}
