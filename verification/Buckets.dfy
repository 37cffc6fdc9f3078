/** The priority buckets inside a node: where a registration puts an endpoint, and
    exactly when a bucket ends up in the documented descending order. */
module Buckets {
  import opened Endpoints

  type Bucket = seq<Endpoint>

  /** The first entry of strictly lower priority, or 0 when there is none. */
  function InsertIndex(bucket: Bucket, prio: int, from: nat): (i: nat)
    requires from <= |bucket|
    ensures i <= |bucket|
    decreases |bucket| - from
  {
    if from == |bucket| then 0
    else if prio > bucket[from].prio then from
    else InsertIndex(bucket, prio, from + 1)
  }

  lemma {:induction false} InsertIndexExactly(bucket: Bucket, prio: int, from: nat)
    requires from <= |bucket|
    ensures var i := InsertIndex(bucket, prio, from);
      if exists k | from <= k < |bucket| :: prio > bucket[k].prio
      then from <= i < |bucket| && prio > bucket[i].prio && forall k | from <= k < i :: prio <= bucket[k].prio
      else i == 0
    decreases |bucket| - from
  {
    if from < |bucket| && prio <= bucket[from].prio { InsertIndexExactly(bucket, prio, from + 1); }
  }

  function Insert(bucket: Bucket, ep: Endpoint): Bucket
  {
    var i := InsertIndex(bucket, ep.prio, 0);
    bucket[..i] + [ep] + bucket[i..]
  }

  function Fill(eps: seq<Endpoint>): Bucket
  {
    if eps == [] then [] else Insert(Fill(eps[..|eps|-1]), eps[|eps|-1])
  }

  ghost predicate Descending(bucket: Bucket)
  {
    forall i, j | 0 <= i < j < |bucket| :: bucket[i].prio >= bucket[j].prio
  }

  /** The scan and shift of one registration. */
  method InsertEndpoint(bucket: Bucket, ep: Endpoint) returns (filled: Bucket)
    ensures filled == Insert(bucket, ep)
  {
    var insertIndex := 0;
    var i := 0;
    while i < |bucket|
      invariant 0 <= i <= |bucket| && insertIndex == 0
      invariant forall k | 0 <= k < i :: ep.prio <= bucket[k].prio
    {
      if ep.prio > bucket[i].prio {
        insertIndex := i;
        break;
      }
      i := i + 1;
    }
    InsertIndexExactly(bucket, ep.prio, 0);
    if |bucket| == insertIndex {
      filled := bucket + [ep];
    } else {
      filled := bucket[..insertIndex+1] + bucket[insertIndex..];
      filled := filled[insertIndex := ep];
    }
  }

  /** No entry is lost, duplicated or reordered. */
  lemma InsertKeepsEntries(bucket: Bucket, ep: Endpoint)
    ensures multiset(Insert(bucket, ep)) == multiset(bucket) + multiset{ep}
    ensures exists i | 0 <= i <= |bucket| ::
      Insert(bucket, ep)[..i] == bucket[..i] && Insert(bucket, ep)[i] == ep && Insert(bucket, ep)[i+1..] == bucket[i..]
  {
    var i := InsertIndex(bucket, ep.prio, 0);
    assert bucket == bucket[..i] + bucket[i..];
    var filled := Insert(bucket, ep);
    assert filled[..i] == bucket[..i] && filled[i+1..] == bucket[i..];
  }

  lemma {:induction false} FillKeepsEntries(eps: seq<Endpoint>)
    ensures multiset(Fill(eps)) == multiset(eps)
  {
    if eps != [] {
      var n := |eps| - 1;
      assert eps == eps[..n] + [eps[n]];
      FillKeepsEntries(eps[..n]);
      InsertKeepsEntries(Fill(eps[..n]), eps[n]);
    }
  }

  /** One insertion leaves the bucket in descending order exactly when it found it so and the new
      priority beats the last entry or reaches the first. */
  lemma InsertSortedExactly(bucket: Bucket, ep: Endpoint)
    ensures Descending(Insert(bucket, ep)) <==>
      && Descending(bucket)
      && (bucket == [] || ep.prio > bucket[|bucket|-1].prio || ep.prio >= bucket[0].prio)
  {
    if Descending(Insert(bucket, ep)) { SortedInsertOnlyIf(bucket, ep); }
    if Descending(bucket) && (bucket == [] || ep.prio > bucket[|bucket|-1].prio || ep.prio >= bucket[0].prio) {
      SortedInsertIf(bucket, ep);
    }
  }

  lemma SortedInsertOnlyIf(bucket: Bucket, ep: Endpoint)
    requires Descending(Insert(bucket, ep))
    ensures Descending(bucket)
    ensures bucket == [] || ep.prio > bucket[|bucket|-1].prio || ep.prio >= bucket[0].prio
  {
    InsertIndexExactly(bucket, ep.prio, 0);
    var i, filled := InsertIndex(bucket, ep.prio, 0), Insert(bucket, ep);
    forall a, b | 0 <= a < b < |bucket| ensures bucket[a].prio >= bucket[b].prio {
      var a', b' := if a < i then a else a + 1, if b < i then b else b + 1;
      assert filled[a'] == bucket[a] && filled[b'] == bucket[b];
    }
    if bucket != [] && i == 0 {
      assert filled[0] == ep && filled[1] == bucket[0];
    }
  }

  lemma SortedInsertIf(bucket: Bucket, ep: Endpoint)
    requires Descending(bucket)
    requires bucket == [] || ep.prio > bucket[|bucket|-1].prio || ep.prio >= bucket[0].prio
    ensures Descending(Insert(bucket, ep))
  {
    InsertIndexExactly(bucket, ep.prio, 0);
    var i, filled := InsertIndex(bucket, ep.prio, 0), Insert(bucket, ep);
    assert forall k | i <= k < |bucket| :: bucket[k].prio <= ep.prio;
    assert forall k | 0 <= k < i :: ep.prio <= bucket[k].prio;
    forall a, b | 0 <= a < b < |filled| ensures filled[a].prio >= filled[b].prio {
      if a < i { assert filled[a] == bucket[a]; } else if a > i { assert filled[a] == bucket[a-1]; }
      if b < i { assert filled[b] == bucket[b]; } else if b > i { assert filled[b] == bucket[b-1]; }
    }
  }

  /** Endpoint `j` beats an earlier one, or reaches all earlier ones. */
  ghost predicate Arrives(eps: seq<Endpoint>, j: nat)
    requires j < |eps|
  {
    || (exists i | 0 <= i < j :: eps[j].prio > eps[i].prio)
    || (forall i | 0 <= i < j :: eps[j].prio >= eps[i].prio)
  }

  /** Over a whole registration history the promised descending order holds exactly when no
      endpoint arrives at or below all of its predecessors and strictly below one of them. */
  lemma {:induction false} FillSortedExactly(eps: seq<Endpoint>)
    ensures Descending(Fill(eps)) <==> forall j | 0 <= j < |eps| :: Arrives(eps, j)
  {
    if eps != [] {
      var n := |eps| - 1;
      var bucket := Fill(eps[..n]);
      FillSortedExactly(eps[..n]);
      InsertSortedExactly(bucket, eps[n]);
      forall j | 0 <= j < n ensures Arrives(eps[..n], j) <==> Arrives(eps, j) { ArrivesPrefix(eps, n, j); }
      if Descending(bucket) { LastArrives(eps); }
      assert Descending(Fill(eps)) ==> forall j | 0 <= j < n :: Arrives(eps, j);
    }
  }

  lemma ArrivesPrefix(eps: seq<Endpoint>, n: nat, j: nat)
    requires j < n <= |eps|
    ensures Arrives(eps[..n], j) <==> Arrives(eps, j)
  {
    var before := eps[..n];
    assert forall i | 0 <= i < n :: before[i] == eps[i];
    if i :| 0 <= i < j && eps[j].prio > eps[i].prio { assert before[i] == eps[i]; }
  }

  lemma LastArrives(eps: seq<Endpoint>)
    requires eps != [] && Descending(Fill(eps[..|eps|-1]))
    ensures var n, bucket := |eps| - 1, Fill(eps[..|eps|-1]); Arrives(eps, n) <==>
      bucket == [] || eps[n].prio > bucket[|bucket|-1].prio || eps[n].prio >= bucket[0].prio
  {
    var n := |eps| - 1;
    var before := eps[..n];
    SameEntries(before);
    Extremes(before, Fill(before), eps[n].prio);
    assert forall i | 0 <= i < n :: before[i] == eps[i];
  }

  lemma Extremes(before: seq<Endpoint>, bucket: Bucket, prio: int)
    requires Descending(bucket) && |bucket| == |before|
    requires forall x :: x in bucket <==> x in before
    ensures (bucket == [] || prio > bucket[|bucket|-1].prio || prio >= bucket[0].prio) <==>
      (exists i | 0 <= i < |before| :: prio > before[i].prio) || (forall i | 0 <= i < |before| :: prio >= before[i].prio)
  {
    if bucket != [] {
      var last := |bucket| - 1;
      assert bucket[0] in before && bucket[last] in before;
      forall i | 0 <= i < |before| ensures bucket[last].prio <= before[i].prio <= bucket[0].prio {
        assert before[i] in bucket;
        var k :| 0 <= k < |bucket| && bucket[k] == before[i];
        assert k == 0 || bucket[0].prio >= bucket[k].prio;
        assert k == last || bucket[k].prio >= bucket[last].prio;
      }
    }
  }

  lemma SameEntries(eps: seq<Endpoint>)
    ensures forall x :: x in Fill(eps) <==> x in eps
    ensures |Fill(eps)| == |eps|
  {
    FillKeepsEntries(eps);
    assert |multiset(Fill(eps))| == |multiset(eps)|;
    forall x ensures x in Fill(eps) <==> x in eps {
      assert x in Fill(eps) <==> x in multiset(Fill(eps));
      assert x in eps <==> x in multiset(eps);
    }
  }
}
