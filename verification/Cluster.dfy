/** Operations that visit the nodes of a cluster one after the other while the nodes
    go on recording requests: counting and deleting. */
module Cluster {
  import opened MatchStore
  import opened ClusterMerge
  import opened Remote

  // ----- The visiting loops

  /** The matchstore of one server, with the clients of all nodes in the configured order. */
  class GrpcMatchstore {
    const clients: seq<InMemoryMatchstore>

    constructor (clients: seq<InMemoryMatchstore>)
      ensures this.clients == clients
    {
      this.clients := clients;
    }

    ghost function States(): (states: seq<Store>)
      reads clients
      ensures |states| == |clients| && forall i | 0 <= i < |clients| :: states[i] == clients[i].State()
    {
      seq(|clients|, i requires 0 <= i < |clients| reads clients => clients[i].State())
    }

    ghost function Lists(id: string): (lists: seq<seq<Match>>)
      reads clients
      ensures |lists| == |clients| && forall i | 0 <= i < |clients| :: lists[i] == MatchesOf(clients[i].State(), id)
    {
      seq(|clients|, i requires 0 <= i < |clients| reads clients => MatchesOf(clients[i].State(), id))
    }

    /** Fetches the matches of all clients and merges them. */
    method GetMatches(endpointID: string, rpcs: seq<Rpc>) returns (ok: bool, result: seq<Match>)
      requires |rpcs| == |clients|
      ensures ok <==> forall i | 0 <= i < |rpcs| :: rpcs[i] == Done
      ensures ok ==> result == Merged(Lists(endpointID), 0)
    {
      var matchesFromClients: seq<seq<Match>> := [];
      for i := 0 to |clients|
        invariant forall j | 0 <= j < i :: rpcs[j] == Done
        invariant matchesFromClients == Lists(endpointID)[..i]
      {
        if rpcs[i] != Done { return false, []; }
        var matches := clients[i].GetMatches(endpointID);
        matchesFromClients := matchesFromClients + [matches];
      }
      assert matchesFromClients == Lists(endpointID);
      result := MergeLists(matchesFromClients);
      return true, result;
    }

    /** Adds up the counts the clients answer with; `rpcs` says how the calls go. */
    method GetMatchesCount(endpointID: string, rpcs: seq<Rpc>) returns (ok: bool, matchesCount: uint64)
      requires |rpcs| == |clients|
      ensures ok <==> forall i | 0 <= i < |rpcs| :: rpcs[i] == Done
      ensures ok ==> matchesCount as int == SumOf(States(), endpointID) % UINT64
    {
      matchesCount := 0;
      ghost var states := States();
      for i := 0 to |clients|
        invariant forall j | 0 <= j < i :: rpcs[j] == Done
        invariant matchesCount as int == SumOf(states[..i], endpointID) % UINT64
      {
        if rpcs[i] != Done { return false, 0; }
        var count := clients[i].GetMatchesCount(endpointID);
        SumOfSnoc(states, i, endpointID);
        AddWraps(matchesCount, count, SumOf(states[..i], endpointID));
        matchesCount := AddUint64(matchesCount, count);
      }
      assert states[..|clients|] == states;
      return true, matchesCount;
    }

    /** Clears the clients in order and stops at the first call that fails. */
    method DeleteMatches(endpointID: string, rpcs: seq<Rpc>) returns (ok: bool, reached: nat)
      requires |rpcs| == |clients|
      requires forall i, j | 0 <= i < j < |clients| :: clients[i] != clients[j]
      modifies clients
      ensures ok <==> forall i | 0 <= i < |rpcs| :: rpcs[i] == Done
      ensures if ok then reached == |clients| else reached < |clients| && rpcs[reached] != Done
      ensures forall i | 0 <= i < |clients| ::
        clients[i].State() == Visited(clients[i].size, old(clients[i].State()), endpointID,
          i < reached || (i == reached && rpcs[i] == LostReply))
      ensures forall i | 0 <= i < |clients| && (i < reached || (i == reached && rpcs[i] == LostReply)) ::
        && MatchesOf(clients[i].State(), endpointID) == [] && CountOf(clients[i].State(), endpointID) == 0
        && (forall other | other != endpointID ::
              && MatchesOf(clients[i].State(), other) == old(MatchesOf(clients[i].State(), other))
              && CountOf(clients[i].State(), other) == old(CountOf(clients[i].State(), other)))
        && clients[i].mismatches == old(clients[i].mismatches) && clients[i].mismatchesCount == old(clients[i].mismatchesCount)
      ensures forall i | 0 <= i < |clients| && !(i < reached || (i == reached && rpcs[i] == LostReply)) ::
        clients[i].State() == old(clients[i].State())
    {
      reached := 0;
      while reached < |clients|
        invariant reached <= |clients|
        invariant forall i | 0 <= i < reached :: rpcs[i] == Done
        invariant forall i | 0 <= i < |clients| ::
          clients[i].State() == Visited(clients[i].size, old(clients[i].State()), endpointID, i < reached)
      {
        if rpcs[reached] == Done || rpcs[reached] == LostReply {
          clients[reached].DeleteMatches(endpointID);
        }
        if rpcs[reached] != Done { return false, reached; }
        reached := reached + 1;
      }
      return true, reached;
    }
  }

  function Visited(size: uint16, s: Store, id: string, cleared: bool): Store
  {
    if cleared then Apply(size, s, Op.DeleteMatches(id)) else s
  }

  /** Nothing differs but what is held about one endpoint. */
  ghost predicate SameBut(s: Store, s': Store, id: string)
  {
    && s'.mismatches == s.mismatches && s'.mismatchesCount == s.mismatchesCount
    && forall other | other != id :: MatchesOf(s', other) == MatchesOf(s, other) && CountOf(s', other) == CountOf(s, other)
  }

  function AddUint64(a: uint64, b: uint64): uint64
  {
    ((a as int + b as int) % UINT64) as uint64
  }

  lemma AddWraps(a: uint64, b: uint64, n: int)
    requires a as int == n % UINT64
    ensures AddUint64(a, b) as int == (n + b as int) % UINT64
  {
    assert n == UINT64 * (n / UINT64) + a as int;
    assert n + b as int == UINT64 * (n / UINT64) + (a as int + b as int);
  }

  /** The counts of all nodes. */
  function SumOf(nodes: seq<Store>, id: string): nat
  {
    if nodes == [] then 0 else CountOf(nodes[0], id) as nat + SumOf(nodes[1..], id)
  }

  lemma {:induction false} SumOfSnoc(nodes: seq<Store>, i: nat, id: string)
    requires i < |nodes|
    ensures SumOf(nodes[..i+1], id) == SumOf(nodes[..i], id) + CountOf(nodes[i], id) as nat
  {
    if i == 0 {
      assert nodes[..1] == [nodes[0]] && nodes[..0] == [];
      assert [nodes[0]][1..] == [];
    } else {
      assert nodes[..i+1][1..] == nodes[1..][..i] && nodes[..i][1..] == nodes[1..][..i-1];
      SumOfSnoc(nodes[1..], i - 1, id);
    }
  }

  // ----- Counting while the nodes record

  /** A node records something of its own, or the visiting operation takes its next step. */
  datatype Event = Local(node: nat, op: Op) | Visit | VisitFails(applied: bool)

  /** A count in progress: the nodes, the number visited, the sum so far, and whether it has given up. */
  datatype Counting = Counting(nodes: seq<Store>, next: nat, sum: uint64, failed: bool)

  function CountStep(size: uint16, id: string, c: Counting, e: Event): Counting
  {
    match e
    case Local(n, op) => if n < |c.nodes| then c.(nodes := c.nodes[n := Apply(size, c.nodes[n], op)]) else c
    case Visit =>
      if !c.failed && c.next < |c.nodes| then c.(next := c.next + 1, sum := AddUint64(c.sum, CountOf(c.nodes[c.next], id)))
      else c
    case VisitFails(_) => if c.next < |c.nodes| then c.(failed := true) else c
  }

  function CountRun(size: uint16, id: string, nodes: seq<Store>, events: seq<Event>): Counting
  {
    if events == [] then Counting(nodes, 0, 0, false)
    else CountStep(size, id, CountRun(size, id, nodes, events[..|events|-1]), events[|events|-1])
  }

  predicate OnlyAdds(events: seq<Event>)
  {
    forall e | e in events && e.Local? :: IsAdd(e.op)
  }

  /** What holds at every moment of a count. */
  ghost predicate Between(id: string, start: seq<Store>, c: Counting, steps: nat)
  {
    && |c.nodes| == |start| && c.next <= |start|
    && (forall j | 0 <= j < |start| :: CountOf(start[j], id) <= CountOf(c.nodes[j], id))
    && SumOf(start[..c.next], id) <= c.sum as int <= SumOf(c.nodes[..c.next], id)
    && SumOf(c.nodes, id) <= SumOf(start, id) + steps
  }

  lemma {:induction false} SumOfPrefix(nodes: seq<Store>, k: nat, id: string)
    requires k <= |nodes|
    ensures SumOf(nodes[..k], id) <= SumOf(nodes, id)
    ensures k < |nodes| ==> SumOf(nodes[..k], id) + CountOf(nodes[k], id) as nat <= SumOf(nodes, id)
    decreases |nodes| - k
  {
    if k == |nodes| {
      assert nodes[..k] == nodes;
    } else {
      SumOfSnoc(nodes, k, id);
      SumOfPrefix(nodes, k + 1, id);
    }
  }

  lemma {:induction false} SumOfUpdate(nodes: seq<Store>, n: nat, s: Store, id: string)
    requires n < |nodes|
    ensures SumOf(nodes[n := s], id) == SumOf(nodes, id) - CountOf(nodes[n], id) as int + CountOf(s, id) as int
  {
    if n == 0 {
      assert nodes[0 := s][1..] == nodes[1..];
    } else {
      assert nodes[n := s][1..] == nodes[1..][n-1 := s];
      SumOfUpdate(nodes[1..], n - 1, s, id);
    }
  }

  lemma CountGrows(size: uint16, s: Store, op: Op, id: string)
    requires IsAdd(op) && CountOf(s, id) as int + 1 < UINT64
    ensures CountOf(s, id) <= CountOf(Apply(size, s, op), id) <= CountOf(s, id) + 1
  {}

  lemma LocalStaysBetween(size: uint16, id: string, start: seq<Store>, c: Counting, n: nat, op: Op, steps: nat)
    requires Between(id, start, c, steps) && IsAdd(op) && SumOf(start, id) + steps + 1 < UINT64
    ensures Between(id, start, CountStep(size, id, c, Local(n, op)), steps + 1)
  {
    if n < |c.nodes| {
      var s := Apply(size, c.nodes[n], op);
      SumOfPrefix(c.nodes, n, id);
      CountGrows(size, c.nodes[n], op, id);
      SumOfUpdate(c.nodes, n, s, id);
      if n < c.next {
        SumOfUpdate(c.nodes[..c.next], n, s, id);
        assert c.nodes[n := s][..c.next] == c.nodes[..c.next][n := s];
      } else {
        assert c.nodes[n := s][..c.next] == c.nodes[..c.next];
      }
    }
  }

  lemma VisitStaysBetween(size: uint16, id: string, start: seq<Store>, c: Counting, steps: nat)
    requires Between(id, start, c, steps) && SumOf(start, id) + steps + 1 < UINT64
    ensures Between(id, start, CountStep(size, id, c, Visit), steps + 1)
  {
    hide SumOf, CountOf;
    if c.next < |c.nodes| {
      SumOfSnoc(start, c.next, id);
      SumOfSnoc(c.nodes, c.next, id);
      SumOfPrefix(c.nodes, c.next + 1, id);
      var sum := c.sum as int + CountOf(c.nodes[c.next], id) as int;
      assert sum < UINT64;
      assert AddUint64(c.sum, CountOf(c.nodes[c.next], id)) as int == sum;
    }
  }

  lemma {:induction false} AlwaysBetween(size: uint16, id: string, start: seq<Store>, events: seq<Event>)
    requires OnlyAdds(events) && SumOf(start, id) + |events| < UINT64
    ensures Between(id, start, CountRun(size, id, start, events), |events|)
  {
    if events == [] {
      assert start[..0] == [];
    } else {
      var n := |events| - 1;
      assert events[n] in events;
      AlwaysBetween(size, id, start, events[..n]);
      var c := CountRun(size, id, start, events[..n]);
      match events[n] {
        case Local(node, op) => LocalStaysBetween(size, id, start, c, node, op, n);
        case Visit => VisitStaysBetween(size, id, start, c, n);
        case VisitFails(_) =>
      }
    }
  }

  /** A finished count lies between the cluster's total when it began and the total when it ended; without
      interleaved records it is the total. */
  lemma CountIsBetween(size: uint16, id: string, start: seq<Store>, events: seq<Event>)
    requires OnlyAdds(events) && SumOf(start, id) + |events| < UINT64
    requires CountRun(size, id, start, events).next == |start|
    ensures var c := CountRun(size, id, start, events);
      SumOf(start, id) <= c.sum as int <= SumOf(c.nodes, id)
    ensures (forall e | e in events :: !e.Local?) ==> CountRun(size, id, start, events).sum as int == SumOf(start, id)
  {
    AlwaysBetween(size, id, start, events);
    var c := CountRun(size, id, start, events);
    assert start[..|start|] == start && c.nodes[..|start|] == c.nodes;
    if forall e | e in events :: !e.Local? { Undisturbed(size, id, start, events); }
  }

  lemma {:induction false} Undisturbed(size: uint16, id: string, start: seq<Store>, events: seq<Event>)
    requires forall e | e in events :: !e.Local?
    ensures CountRun(size, id, start, events).nodes == start
  {
    if events != [] {
      assert events[|events|-1] in events;
      Undisturbed(size, id, start, events[..|events|-1]);
    }
  }

  // ----- Deleting while the nodes record

  /** A delete in progress: the nodes, the number cleared, and whether it has given up. */
  datatype Deleting = Deleting(nodes: seq<Store>, next: nat, failed: bool)

  predicate Visiting(d: Deleting)
  {
    !d.failed && d.next < |d.nodes|
  }

  function DeleteStep(size: uint16, id: string, d: Deleting, e: Event): Deleting
  {
    match e
    case Local(n, op) => if n < |d.nodes| then d.(nodes := d.nodes[n := Apply(size, d.nodes[n], op)]) else d
    case Visit => if Visiting(d) then d.(nodes := Cleared(size, id, d), next := d.next + 1) else d
    case VisitFails(applied) =>
      if Visiting(d) then d.(nodes := if applied then Cleared(size, id, d) else d.nodes, failed := true) else d
  }

  function Cleared(size: uint16, id: string, d: Deleting): seq<Store>
    requires d.next < |d.nodes|
  {
    d.nodes[d.next := Apply(size, d.nodes[d.next], Op.DeleteMatches(id))]
  }

  function DeleteRun(size: uint16, id: string, nodes: seq<Store>, events: seq<Event>): Deleting
  {
    if events == [] then Deleting(nodes, 0, false)
    else DeleteStep(size, id, DeleteRun(size, id, nodes, events[..|events|-1]), events[|events|-1])
  }

  function Visits(r: nat): seq<Event>
  {
    seq(r, _ => Visit)
  }

  /** The node has forgotten the endpoint, and nothing else. */
  ghost predicate Forgot(s: Store, s': Store, id: string)
  {
    MatchesOf(s', id) == [] && CountOf(s', id) == 0 && SameBut(s, s', id)
  }

  /** Without interference the steps of a delete do what the loop of `GrpcMatchstore.DeleteMatches` does: `r`
      visits make the first `r` nodes forget that endpoint and nothing else. */
  lemma {:induction false} VisitsAreDelete(size: uint16, id: string, start: seq<Store>, r: nat)
    requires r <= |start|
    ensures var d := DeleteRun(size, id, start, Visits(r));
      && |d.nodes| == |start| && d.next == r && !d.failed
      && (forall i | 0 <= i < r :: Forgot(start[i], d.nodes[i], id))
      && (forall i | r <= i < |start| :: d.nodes[i] == start[i])
  {
    hide Forgot, Apply;
    if r > 0 {
      VisitsAreDelete(size, id, start, r - 1);
      assert Visits(r) == Visits(r - 1) + [Visit];
      hide DeleteRun, Visits;
      DeleteRunSnoc(size, id, start, Visits(r - 1), Visit);
      ClearsOnly(size, id, start[r-1]);
    }
  }

  /** And a failure makes at most one more forget it. */
  lemma FailureIsDelete(size: uint16, id: string, start: seq<Store>, r: nat, applied: bool)
    requires r < |start|
    ensures var d := DeleteRun(size, id, start, Visits(r) + [VisitFails(applied)]);
      && |d.nodes| == |start| && d.next == r && d.failed
      && (forall i | 0 <= i < r || (i == r && applied) :: Forgot(start[i], d.nodes[i], id))
      && (forall i | r < i < |start| || (i == r && !applied) :: d.nodes[i] == start[i])
  {
    hide Forgot, Apply, DeleteRun, Visits;
    VisitsAreDelete(size, id, start, r);
    ClearsOnly(size, id, start[r]);
    DeleteRunSnoc(size, id, start, Visits(r), VisitFails(applied));
  }

  lemma DeleteRunSnoc(size: uint16, id: string, start: seq<Store>, events: seq<Event>, e: Event)
    ensures DeleteRun(size, id, start, events + [e]) == DeleteStep(size, id, DeleteRun(size, id, start, events), e)
  {
    assert (events + [e])[..|events|] == events;
  }

  lemma ClearsOnly(size: uint16, id: string, s: Store)
    ensures Forgot(s, Apply(size, s, Op.DeleteMatches(id)), id)
  {}

  /** What node `j` recorded by itself, and of that, what it recorded after the delete cleared it. */
  function LocalOps(events: seq<Event>, j: nat): seq<Op>
  {
    if events == [] then []
    else
      var e := events[|events|-1];
      LocalOps(events[..|events|-1], j) + if e.Local? && e.node == j then [e.op] else []
  }

  function OpsSinceCleared(size: uint16, id: string, nodes: seq<Store>, events: seq<Event>, j: nat): seq<Op>
  {
    if events == [] then []
    else
      var before, e := events[..|events|-1], events[|events|-1];
      var d := DeleteRun(size, id, nodes, before);
      if Visiting(d) && d.next == j && (e.Visit? || (e.VisitFails? && e.applied)) then []
      else OpsSinceCleared(size, id, nodes, before, j) + if e.Local? && e.node == j then [e.op] else []
  }

  /** The matches for `id` among a node's own operations. */
  function AddedTo(ops: seq<Op>, id: string): seq<Match>
  {
    if ops == [] then []
    else
      var op := ops[|ops|-1];
      AddedTo(ops[..|ops|-1], id) + if op.AddMatch? && op.endpointId == id then [op.match_] else []
  }

  ghost predicate JustAdded(size: uint16, id: string, s: Store, added: seq<Match>)
  {
    MatchesOf(s, id) == Window(size, added) && CountOf(s, id) as int == |added| % UINT64
  }

  lemma AddAfterClear(size: uint16, id: string, s: Store, added: seq<Match>, op: Op)
    requires JustAdded(size, id, s, added) && IsAdd(op)
    ensures JustAdded(size, id, Apply(size, s, op),
              added + if op.AddMatch? && op.endpointId == id then [op.match_] else [])
  {
    if op.AddMatch? && op.endpointId == id {
      PushKeepsWindow(size, added, op.match_);
      IncrementCounts(CountOf(s, id), |added|);
    } else {
      assert added + [] == added;
    }
  }

  lemma ClearedIsEmpty(size: uint16, id: string, s: Store)
    ensures JustAdded(size, id, Apply(size, s, Op.DeleteMatches(id)), AddedTo([], id))
  {}

  lemma AddedToSnoc(ops: seq<Op>, op: Op, id: string)
    ensures AddedTo(ops + [op], id) == AddedTo(ops, id) + if op.AddMatch? && op.endpointId == id then [op.match_] else []
  {
    assert (ops + [op])[..|ops|] == ops;
  }

  /** At every moment of a delete with only adds interleaved: a cleared node holds exactly what it recorded
      since its own clear step, and a node the delete has not reached is as its own records left it. */
  lemma {:induction false} DeleteExactly(size: uint16, id: string, start: seq<Store>, events: seq<Event>, j: nat)
    requires OnlyAdds(events) && j < |start|
    ensures var d := DeleteRun(size, id, start, events);
      && |d.nodes| == |start| && d.next <= |start| && (d.failed ==> d.next < |start|)
      && (j < d.next ==> JustAdded(size, id, d.nodes[j], AddedTo(OpsSinceCleared(size, id, start, events, j), id)))
      && (j > d.next || (j == d.next && !d.failed) ==> d.nodes[j] == History(size, start[j], LocalOps(events, j)))
  {
    hide Apply, JustAdded, AddedTo;
    if events != [] {
      var n := |events| - 1;
      var before, e := events[..n], events[n];
      assert e in events;
      DeleteExactly(size, id, start, before, j);
      var d := DeleteRun(size, id, start, before);
      match e {
        case Local(node, op) =>
          if node == j {
            var ops, own := OpsSinceCleared(size, id, start, before, j), LocalOps(before, j);
            if j < d.next { AddAfterClear(size, id, d.nodes[j], AddedTo(ops, id), op); }
            AddedToSnoc(ops, op, id);
            assert (own + [op])[..|own|] == own;
          } else {
            SameWithoutOp(size, id, start, before, e, j);
          }
        case Visit =>
          SameWithoutOp(size, id, start, before, e, j);
          if Visiting(d) && d.next == j { ClearedIsEmpty(size, id, d.nodes[j]); }
        case VisitFails(_) =>
          SameWithoutOp(size, id, start, before, e, j);
      }
    }
  }

  lemma SameWithoutOp(size: uint16, id: string, start: seq<Store>, before: seq<Event>, e: Event, j: nat)
    requires !e.Local? || e.node != j
    ensures LocalOps(before + [e], j) == LocalOps(before, j)
    ensures var d := DeleteRun(size, id, start, before); !(Visiting(d) && d.next == j) || e.Local? ==>
      OpsSinceCleared(size, id, start, before + [e], j) == OpsSinceCleared(size, id, start, before, j)
  {
    assert (before + [e])[..|before|] == before;
    assert LocalOps(before, j) + [] == LocalOps(before, j);
    assert OpsSinceCleared(size, id, start, before, j) + [] == OpsSinceCleared(size, id, start, before, j);
  }

  /** After a successful delete, whatever is left on any node was recorded while the delete ran. */
  lemma NothingOldSurvives(size: uint16, id: string, start: seq<Store>, events: seq<Event>, j: nat, m: Match)
    requires OnlyAdds(events) && j < |start|
    requires DeleteRun(size, id, start, events).next == |start|
    requires var nodes := DeleteRun(size, id, start, events).nodes; j < |nodes| && m in MatchesOf(nodes[j], id)
    ensures Local(j, Op.AddMatch(id, m)) in events
  {
    DeleteExactly(size, id, start, events, j);
    var ops := OpsSinceCleared(size, id, start, events, j);
    assert m in AddedTo(ops, id);
    AddedWasOp(ops, id, m);
    OpWasEvent(size, id, start, events, j, Op.AddMatch(id, m));
  }

  lemma {:induction false} AddedWasOp(ops: seq<Op>, id: string, m: Match)
    requires m in AddedTo(ops, id)
    ensures Op.AddMatch(id, m) in ops
  {
    var n := |ops| - 1;
    if m in AddedTo(ops[..n], id) { AddedWasOp(ops[..n], id, m); }
  }

  lemma {:induction false} OpWasEvent(size: uint16, id: string, start: seq<Store>, events: seq<Event>, j: nat, op: Op)
    requires op in OpsSinceCleared(size, id, start, events, j)
    ensures Local(j, op) in events
  {
    var n := |events| - 1;
    if op in OpsSinceCleared(size, id, start, events[..n], j) { OpWasEvent(size, id, start, events[..n], j, op); }
    else { assert events[n] == Local(j, op); }
  }
}
