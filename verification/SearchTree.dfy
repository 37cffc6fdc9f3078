/** The tree of linked nodes that registrations change in place, and the index it represents. */
module SearchTree {
  import opened Paths
  import opened Endpoints
  import opened Buckets
  import opened Index

  /** A nil map of the original is an empty map here: none is ever left allocated but empty.
      The ghost constant `at` is the path that leads to the node. */
  class EpSearchNode {
    var searchNodes: map<Segment, EpSearchNode>
    var endpoints: map<string, Bucket>
    var pathParamName: string
    ghost const at: Path

    constructor (ghost at: Path)
      ensures searchNodes == map[] && endpoints == map[] && pathParamName == "" && this.at == at
    {
      searchNodes := map[];
      endpoints := map[];
      pathParamName := "";
      this.at := at;
    }
  }

  /** Which node stands at which path. */
  type Nodes = map<Path, EpSearchNode>

  /** The links of the node at `p` lead exactly to the nodes one segment further. */
  ghost predicate Linked(nodes: Nodes, p: Path)
    requires p in nodes
    reads nodes[p]
  {
    && nodes[p].at == p
    && forall s ::
         && (s in nodes[p].searchNodes <==> p + [s] in nodes)
         && (s in nodes[p].searchNodes ==> nodes[p].searchNodes[s] == nodes[p + [s]])
  }

  ghost predicate Within(nodes: Nodes, repr: set<EpSearchNode>)
  {
    forall p | p in nodes :: nodes[p] in repr
  }

  /** The nodes form a tree without sharing: every node knows the one path it stands at, and can be
      reached from the root on that path only. */
  ghost predicate IsTree(root: EpSearchNode, nodes: Nodes, repr: set<EpSearchNode>)
    reads repr
  {
    && [] in nodes && nodes[[]] == root
    && Within(nodes, repr)
    && (forall p | p in nodes :: Linked(nodes, p))
    && (forall p, s | p + [s] in nodes :: p in nodes)
  }

  ghost function ViewOf(node: EpSearchNode): View
    reads node
  {
    View(node.endpoints, node.pathParamName)
  }

  /** The index a tree represents. */
  ghost function IndexOf(nodes: Nodes, repr: set<EpSearchNode>): Index
    requires Within(nodes, repr)
    reads repr
  {
    map p | p in nodes :: ViewOf(nodes[p])
  }

  lemma TreePrefixClosed(root: EpSearchNode, nodes: Nodes, repr: set<EpSearchNode>)
    requires IsTree(root, nodes, repr)
    ensures PrefixClosed(IndexOf(nodes, repr))
  {
    forall p, s | Child(IndexOf(nodes, repr), p, s) ensures p in IndexOf(nodes, repr) { assert p + [s] in nodes; }
  }

  method NewTree() returns (root: EpSearchNode, ghost nodes: Nodes, ghost repr: set<EpSearchNode>)
    ensures IsTree(root, nodes, repr) && fresh(repr) && IndexOf(nodes, repr) == EMPTY_INDEX
  {
    root := new EpSearchNode([]);
    nodes, repr := map[[] := root], {root};
  }

  lemma SameLastStep(p: Path, s: Segment, q: Path, t: Segment)
    requires p + [s] == q + [t]
    ensures p == q && s == t
  {
    assert (p + [s])[..|p|] == p && (q + [t])[..|q|] == q;
    assert (p + [s])[|p|] == s && (q + [t])[|q|] == t;
  }

  lemma NoSharing(nodes: Nodes, p: Path)
    requires p in nodes && forall q | q in nodes :: Linked(nodes, q)
    ensures forall q | q in nodes && q != p :: nodes[q] != nodes[p]
  {
    assert Linked(nodes, p);
    forall q | q in nodes && q != p ensures nodes[q] != nodes[p] { assert Linked(nodes, q); }
  }

  /** The links of a node and the children of its view are the same. */
  lemma NodeLinks(root: EpSearchNode, nodes: Nodes, repr: set<EpSearchNode>, p: Path)
    requires IsTree(root, nodes, repr) && p in nodes
    ensures var idx, sn := IndexOf(nodes, repr), nodes[p];
      && (forall s :: s in sn.searchNodes <==> Child(idx, p, s))
      && (sn.searchNodes == map[] <==> Leaf(idx, p))
      && (forall s | s in sn.searchNodes ::
            p + [s] in nodes && sn.searchNodes[s] == nodes[p + [s]] && sn.searchNodes[s].pathParamName == idx[p + [s]].param)
  {
    assert Linked(nodes, p);
    var idx, sn := IndexOf(nodes, repr), nodes[p];
    assert forall s :: Child(idx, p, s) <==> p + [s] in nodes;
    if Leaf(idx, p) { assert forall s :: s !in sn.searchNodes; }
  }

  /** Hangs an empty node below the one at `p`. */
  method AddChild(root: EpSearchNode, sn: EpSearchNode, key: Segment,
                  ghost nodes: Nodes, ghost repr: set<EpSearchNode>, ghost p: Path)
    returns (node: EpSearchNode)
    requires IsTree(root, nodes, repr) && p in nodes && nodes[p] == sn && key !in sn.searchNodes
    modifies sn
    ensures fresh(node) && ViewOf(node) == EMPTY_VIEW
    ensures IsTree(root, nodes[p + [key] := node], repr + {node})
    ensures ViewOf(sn) == old(ViewOf(sn)) && key in sn.searchNodes && sn.searchNodes[key] == node
  {
    ghost var q := p + [key];
    assert Linked(nodes, p);
    node := new EpSearchNode(q);
    NoSharing(nodes, p);
    sn.searchNodes := sn.searchNodes[key := node];
    ghost var nodes' := nodes[q := node];
    forall r | r in nodes' ensures Linked(nodes', r) {
      forall s ensures r + [s] == q <==> r == p && s == key {
        if r + [s] == q { SameLastStep(r, s, p, key); }
      }
      if r == q {
        forall s ensures q + [s] !in nodes' { assert q + [s] in nodes ==> q in nodes; }
      } else {
        assert old(Linked(nodes, r));
      }
    }
    forall r, s | r + [s] in nodes' ensures r in nodes' {
      if r + [s] == q { SameLastStep(r, s, p, key); }
    }
  }

  /** Overwrites the parameter name of the node at `p`. */
  method Rename(root: EpSearchNode, sn: EpSearchNode, name: string,
                ghost nodes: Nodes, ghost repr: set<EpSearchNode>, ghost p: Path)
    requires IsTree(root, nodes, repr) && p in nodes && nodes[p] == sn
    modifies sn`pathParamName
    ensures IsTree(root, nodes, repr)
    ensures IndexOf(nodes, repr) == old(IndexOf(nodes, repr))[p := View(old(sn.endpoints), name)]
  {
    NoSharing(nodes, p);
    assert Linked(nodes, p);
    sn.pathParamName := name;
    assert Linked(nodes, p);
    assert IndexOf(nodes, repr) == old(IndexOf(nodes, repr))[p := View(old(sn.endpoints), name)];
  }

  /** Puts an endpoint into its bucket at the node at `p`. */
  method FileEndpoint(root: EpSearchNode, sn: EpSearchNode, ep: Endpoint,
                      ghost nodes: Nodes, ghost repr: set<EpSearchNode>, ghost p: Path)
    requires IsTree(root, nodes, repr) && p in nodes && nodes[p] == sn
    modifies sn`endpoints
    ensures IsTree(root, nodes, repr)
    ensures IndexOf(nodes, repr) == old(IndexOf(nodes, repr))[p := File(old(ViewOf(sn)), ep)]
  {
    var endpointKey := EndpointKey(ep);
    var bucket := if endpointKey in sn.endpoints then sn.endpoints[endpointKey] else [];
    var filled := InsertEndpoint(bucket, ep);
    NoSharing(nodes, p);
    assert Linked(nodes, p);
    sn.endpoints := sn.endpoints[endpointKey := filled];
    assert Linked(nodes, p);
    assert IndexOf(nodes, repr) == old(IndexOf(nodes, repr))[p := File(old(ViewOf(sn)), ep)];
  }

  function Ensured(idx: Index, p: Path): (idx': Index)
    ensures p in idx'
  {
    if p in idx then idx else idx[p := EMPTY_VIEW]
  }

  lemma TouchCreates(idx: Index, p: Path, name: string)
    ensures Ensured(idx, p)[p := View(Ensured(idx, p)[p].endpoints, name)] == Touch(idx, p, name)
  {}

  /** The child under `key` of the node at `p`, created when missing. */
  method GetOrAddChild(root: EpSearchNode, sn: EpSearchNode, key: Segment,
                       ghost nodes: Nodes, ghost repr: set<EpSearchNode>, ghost p: Path)
    returns (child: EpSearchNode, ghost nodes': Nodes, ghost repr': set<EpSearchNode>)
    requires IsTree(root, nodes, repr) && p in nodes && nodes[p] == sn
    modifies sn
    ensures IsTree(root, nodes', repr') && repr <= repr' && forall n | n in repr' :: n in repr || fresh(n)
    ensures p + [key] in nodes' && nodes'[p + [key]] == child
    ensures IndexOf(nodes', repr') ==
      Ensured(old(IndexOf(nodes, repr)), p + [key])
  {
    assert Linked(nodes, p);
    if key in sn.searchNodes {
      child, nodes', repr' := sn.searchNodes[key], nodes, repr;
    } else {
      NoSharing(nodes, p);
      child := AddChild(root, sn, key, nodes, repr, p);
      nodes', repr' := nodes[p + [key] := child], repr + {child};
      assert IndexOf(nodes', repr') == old(IndexOf(nodes, repr))[p + [key] := EMPTY_VIEW];
    }
  }

  /** One step down from the node at `p`: folds a `{name}` into `*`, creates the child when it is missing,
      and names it. */
  method Enter(root: EpSearchNode, sn: EpSearchNode, segment: Segment,
               ghost nodes: Nodes, ghost repr: set<EpSearchNode>, ghost p: Path)
    returns (child: EpSearchNode, ghost nodes': Nodes, ghost repr': set<EpSearchNode>)
    requires IsTree(root, nodes, repr) && p in nodes && nodes[p] == sn
    modifies repr
    ensures IsTree(root, nodes', repr') && repr <= repr' && forall n | n in repr' :: n in repr || fresh(n)
    ensures p + [NodeKey(segment)] in nodes' && nodes'[p + [NodeKey(segment)]] == child
    ensures IndexOf(nodes', repr') == Touch(old(IndexOf(nodes, repr)), p + [NodeKey(segment)], ParamName(segment))
  {
    var pathParamName, pathSegment := "", segment;
    if IsPathParam(segment) {
      pathParamName := segment[1..|segment|-1];
      pathSegment := STAR;
    }
    assert pathSegment == NodeKey(segment) && pathParamName == ParamName(segment);
    TouchCreates(IndexOf(nodes, repr), p + [pathSegment], pathParamName);
    child, nodes', repr' := GetOrAddChild(root, sn, pathSegment, nodes, repr, p);
    Rename(root, child, pathParamName, nodes', repr', p + [pathSegment]);
  }

  lemma DescendStep(idx: Index, p: Path, names: seq<string>, i: nat, s: Segment)
    requires i < |p| == |names| && p[i] == NodeKey(s) && names[i] == ParamName(s)
    ensures p[..i+1] == p[..i] + [NodeKey(s)]
    ensures Descend(idx, p, names, i + 1) == Touch(Descend(idx, p, names, i), p[..i] + [NodeKey(s)], ParamName(s))
  {
    assert p[..i+1] == p[..i] + [NodeKey(s)];
  }

  /** Follows a path from the root, segment by segment. */
  method EnterPath(root: EpSearchNode, pathSegments: Path, ghost pattern: Path, ghost names: seq<string>,
                   ghost nodes: Nodes, ghost repr: set<EpSearchNode>)
    returns (sn: EpSearchNode, ghost nodes': Nodes, ghost repr': set<EpSearchNode>)
    requires IsTree(root, nodes, repr)
    requires |pathSegments| == |pattern| == |names|
    requires forall i | 0 <= i < |pattern| :: pattern[i] == NodeKey(pathSegments[i]) && names[i] == ParamName(pathSegments[i])
    modifies repr
    ensures IsTree(root, nodes', repr') && repr <= repr' && forall n | n in repr' :: n in repr || fresh(n)
    ensures pattern in nodes' && nodes'[pattern] == sn
    ensures IndexOf(nodes', repr') == Descend(old(IndexOf(nodes, repr)), pattern, names, |pattern|)
  {
    ghost var idx := IndexOf(nodes, repr);
    sn, nodes', repr' := root, nodes, repr;
    ghost var p: Path, reached := [], idx;
    for i := 0 to |pathSegments|
      invariant p == pattern[..i] && reached == Descend(idx, pattern, names, i)
      invariant IsTree(root, nodes', repr') && repr <= repr' && forall n | n in repr' :: n in repr || fresh(n)
      invariant p in nodes' && sn == nodes'[p] && IndexOf(nodes', repr') == reached
    {
      var pathSegment := pathSegments[i];
      DescendStep(idx, pattern, names, i, pathSegment);
      sn, nodes', repr' := Enter(root, sn, pathSegment, nodes', repr', p);
      p := p + [NodeKey(pathSegment)];
      reached := Touch(reached, p, ParamName(pathSegment));
    }
    assert p == pattern;
  }

  /** Files one endpoint in the tree. */
  method RegisterEndpoint(endpoint: Endpoint, root: EpSearchNode, ghost nodes: Nodes, ghost repr: set<EpSearchNode>)
    returns (ghost nodes': Nodes, ghost repr': set<EpSearchNode>)
    requires IsTree(root, nodes, repr)
    modifies repr
    ensures IsTree(root, nodes', repr') && repr <= repr' && forall n | n in repr' :: n in repr || fresh(n)
    ensures IndexOf(nodes', repr') == Register(old(IndexOf(nodes, repr)), endpoint)
  {
    var sn;
    var path := endpoint.request.path;
    forall i | 0 <= i < |Paths.Segments(path)|
      ensures Pattern(path)[i] == NodeKey(Paths.Segments(path)[i]) && ParamNames(path)[i] == ParamName(Paths.Segments(path)[i])
    {
      NodeKeysAt(Paths.Segments(path), i);
    }
    sn, nodes', repr' := EnterPath(root, Paths.Segments(path), Pattern(path), ParamNames(path), nodes, repr);
    FileEndpoint(root, sn, Defaulted(endpoint), nodes', repr', Pattern(path));
  }
}
