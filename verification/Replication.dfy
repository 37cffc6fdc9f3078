/** Writes to the replicated key-value store as a protocol: every remote write is one step,
    and the writes of different puts interleave. */
module Replication {
  import opened KeyValueStore

  /** One key of one store. */
  datatype Slot = Slot(store: string, key: string)

  datatype Status = InFlight | Finished | GaveUp

  /** A put and how many replicas have taken it. */
  datatype Put = Put(slot: Slot, val: Value, reach: nat, status: Status)

  /** The replicas, and all puts in the order they began. */
  datatype System = System(replicas: seq<Contents>, puts: seq<Put>)

  datatype Event =
    | Begin(slot: Slot, val: Value)
    | Deliver(put: nat)
    | Fail(put: nat, applied: bool)

  function Write(replicas: seq<Contents>, i: nat, p: Put): seq<Contents>
    requires i < |replicas|
  {
    replicas[i := Stored(replicas[i], p.slot.store, p.slot.key, p.val)]
  }

  predicate Running(s: System, k: nat)
  {
    k < |s.puts| && s.puts[k].status == InFlight
  }

  /** A put goes through the replicas in order; it is finished after the last and gives up at the first
      failure, whose write may have taken effect. A step that is not due changes nothing. */
  function Do(s: System, e: Event): System
  {
    match e
    case Begin(slot, val) =>
      s.(puts := s.puts + [Put(slot, val, 0, if |s.replicas| == 0 then Finished else InFlight)])
    case Deliver(k) =>
      if !Running(s, k) || s.puts[k].reach >= |s.replicas| then s else
        var p := s.puts[k];
        var p' := p.(reach := p.reach + 1, status := if p.reach + 1 == |s.replicas| then Finished else InFlight);
        System(Write(s.replicas, p.reach, p), s.puts[k := p'])
    case Fail(k, applied) =>
      if !Running(s, k) || s.puts[k].reach >= |s.replicas| then s else
        var p := s.puts[k];
        var p' := p.(reach := p.reach + (if applied then 1 else 0), status := GaveUp);
        System(if applied then Write(s.replicas, p.reach, p) else s.replicas, s.puts[k := p'])
  }

  // ----- One put on its own

  function Delivered(s: System, k: nat, r: nat): System
  {
    if r == 0 then s else Do(Delivered(s, k, r - 1), Deliver(k))
  }

  /** Without interference the steps of a put do what the loop of `GrpcStorage.Put` does: `r` deliveries
      write the next `r` replicas, and a failure writes at most one more. */
  lemma {:induction false} DeliveredIsPut(s: System, k: nat, r: nat, applied: bool)
    requires Running(s, k) && s.puts[k].reach < |s.replicas| && s.puts[k].reach + r <= |s.replicas|
    ensures var s', p := Delivered(s, k, r), s.puts[k];
      && |s'.replicas| == |s.replicas|
      && s'.puts == s.puts[k := p.(reach := p.reach + r, status := if p.reach + r == |s.replicas| then Finished else InFlight)]
      && forall i | 0 <= i < |s.replicas| ::
        s'.replicas[i] == Written(s.replicas[i], p.slot.store, p.slot.key, p.val, p.reach <= i < p.reach + r)
    ensures s.puts[k].reach + r < |s.replicas| ==> var s', p := Do(Delivered(s, k, r), Fail(k, applied)), s.puts[k];
      && |s'.replicas| == |s.replicas| && s'.puts[k].status == GaveUp
      && forall i | 0 <= i < |s.replicas| ::
        s'.replicas[i] == Written(s.replicas[i], p.slot.store, p.slot.key, p.val,
          p.reach <= i < p.reach + r || (i == p.reach + r && applied))
  {
    hide Stored;
    if r > 0 { DeliveredIsPut(s, k, r - 1, applied); }
  }

  function Initial(n: nat): System
  {
    System(seq(n, _ => map[]), [])
  }

  function Execute(n: nat, events: seq<Event>): System
  {
    if events == [] then Initial(n) else Do(Execute(n, events[..|events|-1]), events[|events|-1])
  }

  /** No put begins while another put to the same slot is in flight. */
  predicate Serial(n: nat, events: seq<Event>)
  {
    events == [] ||
    var before, e := events[..|events|-1], events[|events|-1];
    && Serial(n, before)
    && (e.Begin? ==> forall k | 0 <= k < |Execute(n, before).puts| ::
          Running(Execute(n, before), k) ==> Execute(n, before).puts[k].slot != e.slot)
  }

  // ----- What every replica holds

  /** The value of the latest put to `slot` that has reached replica `i`. */
  function Latest(puts: seq<Put>, slot: Slot, i: nat): Value
  {
    if puts == [] then Nil
    else
      var p := puts[|puts|-1];
      if p.slot == slot && p.reach > i then p.val else Latest(puts[..|puts|-1], slot, i)
  }

  function Holds(s: System, i: nat, slot: Slot): Value
    requires i < |s.replicas|
  {
    Read(s.replicas[i], slot.store, slot.key)
  }

  /** Whoever is in flight is the latest put to its slot. */
  ghost predicate InFlightIsLast(s: System)
  {
    forall j, k | 0 <= j < k < |s.puts| && s.puts[j].slot == s.puts[k].slot :: s.puts[j].status != InFlight
  }

  ghost predicate Consistent(n: nat, s: System)
  {
    && |s.replicas| == n
    && InFlightIsLast(s)
    && (forall k | 0 <= k < |s.puts| :: Placed(n, s.puts[k]))
    && (forall i, slot | 0 <= i < n :: Holds(s, i, slot) == Latest(s.puts, slot, i))
  }

  predicate Placed(n: nat, p: Put)
  {
    && p.reach <= n
    && (p.status == InFlight ==> p.reach < n)
    && (p.status == Finished ==> p.reach == n)
  }

  lemma LatestBegin(puts: seq<Put>, p: Put, slot: Slot, i: nat)
    requires p.reach == 0
    ensures Latest(puts + [p], slot, i) == Latest(puts, slot, i)
  {
    assert (puts + [p])[..|puts|] == puts;
  }

  /** Moving the latest put to a slot one replica on changes what that replica should hold, and nothing else. */
  lemma {:induction false} LatestAdvance(puts: seq<Put>, k: nat, p': Put, slot: Slot, i: nat)
    requires k < |puts| && p'.slot == puts[k].slot && p'.val == puts[k].val
    requires puts[k].reach <= p'.reach <= puts[k].reach + 1
    requires forall j | k < j < |puts| :: puts[j].slot != puts[k].slot
    ensures Latest(puts[k := p'], slot, i)
      == if slot == p'.slot && i == puts[k].reach < p'.reach then p'.val else Latest(puts, slot, i)
    decreases |puts|
  {
    var n := |puts| - 1;
    if k < n {
      assert puts[k := p'][..n] == puts[..n][k := p'];
      LatestAdvance(puts[..n], k, p', slot, i);
    } else {
      assert puts[k := p'][..n] == puts[..n];
    }
  }

  lemma RunningIsLast(s: System, k: nat)
    requires InFlightIsLast(s) && Running(s, k)
    ensures forall j | k < j < |s.puts| :: s.puts[j].slot != s.puts[k].slot
  {}

  lemma BeginConsistent(n: nat, s: System, slot: Slot, val: Value)
    requires Consistent(n, s)
    requires forall k | 0 <= k < |s.puts| :: Running(s, k) ==> s.puts[k].slot != slot
    ensures Consistent(n, Do(s, Begin(slot, val)))
  {
    var p := Put(slot, val, 0, if |s.replicas| == 0 then Finished else InFlight);
    assert forall k | 0 <= k < |s.puts| && s.puts[k].slot == slot :: !Running(s, k);
    forall i, sl | 0 <= i < n ensures Holds(Do(s, Begin(slot, val)), i, sl) == Latest(s.puts + [p], sl, i) {
      LatestBegin(s.puts, p, sl, i);
    }
  }

  lemma MoveConsistent(n: nat, s: System, k: nat, p': Put, written: bool)
    requires Consistent(n, s) && Running(s, k)
    requires p' == s.puts[k].(reach := s.puts[k].reach + (if written then 1 else 0), status := p'.status)
    requires Placed(n, p')
    ensures Consistent(n, System(if written then Write(s.replicas, s.puts[k].reach, s.puts[k]) else s.replicas, s.puts[k := p']))
  {
    var p := s.puts[k];
    var s' := System(if written then Write(s.replicas, p.reach, p) else s.replicas, s.puts[k := p']);
    RunningIsLast(s, k);
    forall i, slot | 0 <= i < n ensures Holds(s', i, slot) == Latest(s'.puts, slot, i) {
      LatestAdvance(s.puts, k, p', slot, i);
      assert Holds(s, i, slot) == Latest(s.puts, slot, i);
      if written && i == p.reach { ReadAfterPut(s.replicas[i], p.slot.store, p.slot.key, p.val, slot.store, slot.key); }
    }
  }

  lemma DoConsistent(n: nat, s: System, e: Event)
    requires Consistent(n, s)
    requires e.Begin? ==> forall k | 0 <= k < |s.puts| :: Running(s, k) ==> s.puts[k].slot != e.slot
    ensures Consistent(n, Do(s, e))
  {
    hide Consistent;
    match e {
      case Begin(slot, val) => BeginConsistent(n, s, slot, val);
      case Deliver(k) =>
        if Do(s, e) != s {
          ConsistentSize(n, s);
          MoveConsistent(n, s, k, Do(s, e).puts[k], true);
        }
      case Fail(k, applied) =>
        if Do(s, e) != s {
          ConsistentSize(n, s);
          MoveConsistent(n, s, k, Do(s, e).puts[k], applied);
        }
    }
  }

  lemma ConsistentSize(n: nat, s: System)
    requires Consistent(n, s)
    ensures |s.replicas| == n
  {}

  /** In every run whose puts to the same slot do not overlap, every replica holds, for every slot, the value
      of the latest put that has reached it. */
  lemma {:induction false} AlwaysConsistent(n: nat, events: seq<Event>)
    requires Serial(n, events)
    ensures Consistent(n, Execute(n, events))
  {
    if events != [] {
      AlwaysConsistent(n, events[..|events|-1]);
      DoConsistent(n, Execute(n, events[..|events|-1]), events[|events|-1]);
    }
  }

  // ----- What that means for readers

  /** While a put is in flight, a prefix of the replicas holds the new value and the others hold what the
      earlier puts left there. */
  lemma NewPrefixOldSuffix(n: nat, events: seq<Event>, k: nat, i: nat)
    requires Serial(n, events) && Running(Execute(n, events), k) && i < n
    ensures var s := Execute(n, events); var p := s.puts[k];
      && |s.replicas| == n && p.reach < n
      && Holds(s, i, p.slot) == if i < p.reach then p.val else Latest(s.puts[..k], p.slot, i)
  {
    AlwaysConsistent(n, events);
    var s := Execute(n, events);
    RunningIsLast(s, k);
    SkipOthers(s.puts, k, s.puts[k].slot, i);
  }

  lemma {:induction false} SkipOthers(puts: seq<Put>, k: nat, slot: Slot, i: nat)
    requires k < |puts| && forall j | k < j < |puts| :: puts[j].slot != slot
    ensures Latest(puts, slot, i) == Latest(puts[..k+1], slot, i)
    ensures Latest(puts[..k+1], slot, i) ==
      if puts[k].slot == slot && puts[k].reach > i then puts[k].val else Latest(puts[..k], slot, i)
  {
    assert puts[..k+1][..k] == puts[..k];
    if k + 1 < |puts| {
      assert puts[..|puts|-1][..k+1] == puts[..k+1] && puts[..|puts|-1][..k] == puts[..k];
      SkipOthers(puts[..|puts|-1], k, slot, i);
    } else {
      assert puts[..k+1] == puts;
    }
  }

  /** Once the last put to a slot has finished, all replicas hold its value, whatever failed before. */
  lemma LastPutHeals(n: nat, events: seq<Event>, k: nat, i: nat)
    requires Serial(n, events) && i < n
    requires var s := Execute(n, events);
      k < |s.puts| && s.puts[k].status == Finished && forall j | k < j < |s.puts| :: s.puts[j].slot != s.puts[k].slot
    ensures var s := Execute(n, events); |s.replicas| == n && Holds(s, i, s.puts[k].slot) == s.puts[k].val
  {
    AlwaysConsistent(n, events);
    var s := Execute(n, events);
    SkipOthers(s.puts, k, s.puts[k].slot, i);
  }

  lemma {:induction false} AllFinishedAgree(n: nat, puts: seq<Put>, slot: Slot, i: nat, j: nat)
    requires i < n && j < n
    requires forall k | 0 <= k < |puts| && puts[k].slot == slot :: puts[k].reach == n
    ensures Latest(puts, slot, i) == Latest(puts, slot, j)
  {
    if puts != [] { AllFinishedAgree(n, puts[..|puts|-1], slot, i, j); }
  }

  /** When no put to a slot is in flight and none has failed, all replicas agree on it. */
  lemma QuietReplicasAgree(n: nat, events: seq<Event>, slot: Slot, i: nat, j: nat)
    requires Serial(n, events) && i < n && j < n
    requires forall k | 0 <= k < |Execute(n, events).puts| ::
      Execute(n, events).puts[k].slot == slot ==> Execute(n, events).puts[k].status == Finished
    ensures var s := Execute(n, events); |s.replicas| == n && Holds(s, i, slot) == Holds(s, j, slot)
  {
    AlwaysConsistent(n, events);
    AllFinishedAgree(n, Execute(n, events).puts, slot, i, j);
  }

  predicate FailureFree(events: seq<Event>)
  {
    forall e | e in events :: !e.Fail?
  }

  predicate Settled(s: System)
  {
    forall k | 0 <= k < |s.puts| :: s.puts[k].status == Finished
  }

  ghost predicate Agreement(s: System)
  {
    forall i, j, slot | 0 <= i < |s.replicas| && 0 <= j < |s.replicas| :: Holds(s, i, slot) == Holds(s, j, slot)
  }

  /** If puts to the same slot do not overlap, any number of replicas agree once all puts have finished. */
  lemma SerialAgrees(n: nat, events: seq<Event>)
    requires Serial(n, events) && Settled(Execute(n, events))
    ensures Agreement(Execute(n, events))
  {
    var s := Execute(n, events);
    AlwaysConsistent(n, events);
    forall i, j, slot | 0 <= i < |s.replicas| && 0 <= j < |s.replicas| ensures Holds(s, i, slot) == Holds(s, j, slot) {
      QuietReplicasAgree(n, events, slot, i, j);
    }
  }

  /** Whatever overlaps, the replicas agree once all puts have finished without a failure. */
  ghost predicate KeepsAgreement(n: nat)
  {
    forall events | FailureFree(events) && Settled(Execute(n, events)) :: Agreement(Execute(n, events))
  }

  /** Without a restriction on overlaps, that is so if and only if there is at most one replica. */
  lemma AgreementIffAlone(n: nat)
    ensures KeepsAgreement(n) <==> n <= 1
  {
    if n <= 1 {
      forall events | FailureFree(events) && Settled(Execute(n, events)) ensures Agreement(Execute(n, events)) {
        SizeStays(n, events);
      }
    } else {
      hide Execute;
      var slot := Slot("", "");
      var events := OverlapDiverges(n, slot, Json("a"), Json("b"));
      assert Holds(Execute(n, events), 0, slot) != Holds(Execute(n, events), 1, slot);
    }
  }

  lemma {:induction false} SizeStays(n: nat, events: seq<Event>)
    ensures |Execute(n, events).replicas| == n
  {
    if events != [] { SizeStays(n, events[..|events|-1]); }
  }

  function Deliveries(k: nat, r: nat): seq<Event>
  {
    seq(r, _ => Deliver(k))
  }

  lemma {:induction false} ExecuteDeliveries(n: nat, events: seq<Event>, k: nat, r: nat)
    ensures Execute(n, events + Deliveries(k, r)) == Delivered(Execute(n, events), k, r)
  {
    hide Do;
    if r == 0 {
      assert events + Deliveries(k, r) == events;
    } else {
      ExecuteDeliveries(n, events, k, r - 1);
      var more := events + Deliveries(k, r);
      assert more[..|more|-1] == events + Deliveries(k, r - 1);
    }
  }

  /** The first put gets to the first replica, the second one overtakes it everywhere, and then the first goes on. */
  function Overtaking(n: nat, slot: Slot, a: Value, b: Value): seq<Event>
    requires n >= 2
  {
    [Begin(slot, a), Begin(slot, b)] + Deliveries(0, 1) + Deliveries(1, n) + Deliveries(0, n - 1)
  }

  /** Two overlapping puts can leave any number of replicas apart although both succeed. */
  lemma OverlapDiverges(n: nat, slot: Slot, a: Value, b: Value) returns (events: seq<Event>)
    requires n >= 2
    ensures events == Overtaking(n, slot, a, b) && FailureFree(events)
    ensures var s := Execute(n, events);
      && |s.replicas| == n && Settled(s)
      && Holds(s, 0, slot) == b && forall i | 1 <= i < n :: Holds(s, i, slot) == a
  {
    hide Do, Execute, Delivered, Stored;
    events := Overtaking(n, slot, a, b);
    var begun := [Begin(slot, a), Begin(slot, b)];
    var s0 := Execute(n, begun);
    TwoBegun(n, slot, a, b);
    var s1 := Delivered(s0, 0, 1);
    DeliveredIsPut(s0, 0, 1, false);
    var s2 := Delivered(s1, 1, n);
    DeliveredIsPut(s1, 1, n, false);
    var s3 := Delivered(s2, 0, n - 1);
    DeliveredIsPut(s2, 0, n - 1, false);
    ExecuteDeliveries(n, begun, 0, 1);
    ExecuteDeliveries(n, begun + Deliveries(0, 1), 1, n);
    ExecuteDeliveries(n, begun + Deliveries(0, 1) + Deliveries(1, n), 0, n - 1);
    forall i | 0 <= i < n ensures Holds(s3, i, slot) == if i == 0 then b else a {
      ReadAfterPut(s1.replicas[i], slot.store, slot.key, b, slot.store, slot.key);
      ReadAfterPut(s2.replicas[i], slot.store, slot.key, a, slot.store, slot.key);
    }
  }

  lemma TwoBegun(n: nat, slot: Slot, a: Value, b: Value)
    requires n >= 1
    ensures Execute(n, [Begin(slot, a), Begin(slot, b)]) ==
      System(seq(n, _ => map[]), [Put(slot, a, 0, InFlight), Put(slot, b, 0, InFlight)])
  {
    var two: seq<Event> := [Begin(slot, a), Begin(slot, b)];
    assert two[..1][..0] == [] && two[..1] == [Begin(slot, a)];
    assert Execute(n, two[..1]) == Do(Initial(n), Begin(slot, a));
  }

  // ----- Any interleaving

  /** Whatever overlaps, a replica never holds a value that was not put to that slot. */
  ghost predicate Honest(s: System)
  {
    forall i, slot | 0 <= i < |s.replicas| ::
      Holds(s, i, slot) == Nil || exists k :: PutHere(s, k, slot, Holds(s, i, slot))
  }

  predicate PutHere(s: System, k: nat, slot: Slot, val: Value)
  {
    k < |s.puts| && s.puts[k].slot == slot && s.puts[k].val == val
  }

  lemma DoHonest(s: System, e: Event)
    requires Honest(s)
    ensures Honest(Do(s, e))
  {
    var s' := Do(s, e);
    forall i, slot | 0 <= i < |s'.replicas| && Holds(s', i, slot) != Nil
      ensures exists k :: PutHere(s', k, slot, Holds(s', i, slot))
    {
      var val := Holds(s', i, slot);
      if val == Holds(s, i, slot) {
        var k :| PutHere(s, k, slot, val);
        assert PutHere(s', k, slot, val);
      } else {
        var p := s.puts[e.put];
        ReadAfterPut(s.replicas[i], p.slot.store, p.slot.key, p.val, slot.store, slot.key);
        assert PutHere(s', e.put, slot, val);
      }
    }
  }

  lemma {:induction false} AlwaysHonest(n: nat, events: seq<Event>)
    ensures Honest(Execute(n, events))
  {
    if events != [] {
      AlwaysHonest(n, events[..|events|-1]);
      DoHonest(Execute(n, events[..|events|-1]), events[|events|-1]);
    }
  }
}
