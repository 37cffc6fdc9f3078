/** The in-memory match store: per endpoint a bounded list of matches and a running count. */
module MatchStore {

  /** Records are kept by identity; `stamp` tells them apart. */
  datatype Match = Match(endpointId: string, stamp: nat)

  /** What a mismatch record reports. */
  datatype Details =
    | PathMismatch(path: string, matchedSubPath: string)
    | NoEndpointForMethod(path: string)
    | NoAttributeMatch(path: string)

  datatype Mismatch = Mismatch(details: Details, stamp: nat)

  const MAX_UINT16 := 0xFFFF
  const UINT64 := 0x1_0000_0000_0000_0000

  newtype uint16 = n: int | 0 <= n < 0x1_0000
  newtype uint64 = n: int | 0 <= n < 0x1_0000_0000_0000_0000

  datatype Store = Store(
    matches: map<string, seq<Match>>,
    matchesCount: map<string, uint64>,
    mismatches: seq<Mismatch>,
    mismatchesCount: uint64)

  const EMPTY_STORE := Store(map[], map[], [], 0)

  datatype Op =
    | AddMatch(endpointId: string, match_: Match)
    | AddMismatch(mismatch: Mismatch)
    | DeleteMatches(endpointId: string)
    | DeleteMismatches

  function ToUint16(n: int): uint16
  {
    (n % 0x1_0000) as uint16
  }

  function Increment(n: uint64): uint64
  {
    if n == 0xFFFF_FFFF_FFFF_FFFF then 0 else n + 1
  }

  /** Appending, then dropping the oldest entry when the length, cut down to 16 bits, exceeds the size. */
  function Push<T>(size: uint16, entries: seq<T>, entry: T): seq<T>
  {
    var longer := entries + [entry];
    if ToUint16(|longer|) > size then longer[1..] else longer
  }

  function MatchesOf(s: Store, id: string): seq<Match>
  {
    if id in s.matches then s.matches[id] else []
  }

  function CountOf(s: Store, id: string): uint64
  {
    if id in s.matchesCount then s.matchesCount[id] else 0
  }

  function Apply(size: uint16, s: Store, op: Op): Store
  {
    match op
    case AddMatch(id, m) =>
      s.(matches := s.matches[id := Push(size, MatchesOf(s, id), m)],
         matchesCount := s.matchesCount[id := Increment(CountOf(s, id))])
    case AddMismatch(m) =>
      s.(mismatches := Push(size, s.mismatches, m), mismatchesCount := Increment(s.mismatchesCount))
    case DeleteMatches(id) =>
      s.(matches := if id in s.matches then s.matches[id := []] else s.matches,
         matchesCount := s.matchesCount[id := 0])
    case DeleteMismatches =>
      s.(mismatches := [], mismatchesCount := 0)
  }

  function History(size: uint16, s: Store, ops: seq<Op>): Store
  {
    if ops == [] then s else Apply(size, History(size, s, ops[..|ops|-1]), ops[|ops|-1])
  }

  class InMemoryMatchstore {
    const size: uint16
    var matches: map<string, seq<Match>>
    var matchesCount: map<string, uint64>
    var mismatches: seq<Mismatch>
    var mismatchesCount: uint64

    function State(): Store
      reads this
    {
      Store(matches, matchesCount, mismatches, mismatchesCount)
    }

    constructor (size: uint16)
      ensures this.size == size && State() == EMPTY_STORE
    {
      this.size := size;
      matches := map[];
      matchesCount := map[];
      mismatches := [];
      mismatchesCount := 0;
    }

    method GetMatches(endpointID: string) returns (matchesResult: seq<Match>)
      ensures matchesResult == MatchesOf(State(), endpointID)
    {
      matchesResult := [];
      if endpointID in matches {
        var matchesList := matches[endpointID];
        for i := 0 to |matchesList|
          invariant matchesResult == matchesList[..i]
        {
          matchesResult := matchesResult + [matchesList[i]];
        }
      }
    }

    method GetMatchesCount(endpointID: string) returns (count: uint64)
      ensures count == CountOf(State(), endpointID)
    {
      count := if endpointID in matchesCount then matchesCount[endpointID] else 0;
    }

    method GetMismatches() returns (mismatchesResult: seq<Mismatch>)
      ensures mismatchesResult == State().mismatches
    {
      mismatchesResult := [];
      for i := 0 to |mismatches|
        invariant mismatchesResult == mismatches[..i]
      {
        mismatchesResult := mismatchesResult + [mismatches[i]];
      }
    }

    method AddMismatch(mismatch: Mismatch)
      modifies this
      ensures State() == Apply(size, old(State()), Op.AddMismatch(mismatch))
    {
      mismatches := mismatches + [mismatch];
      if ToUint16(|mismatches|) > size {
        mismatches := mismatches[1..];
      }
      mismatchesCount := Increment(mismatchesCount);
    }

    method AddMatch(endpointID: string, m: Match)
      modifies this
      ensures State() == Apply(size, old(State()), Op.AddMatch(endpointID, m))
    {
      if endpointID !in matches {
        matches := matches[endpointID := []];
      }
      matches := matches[endpointID := matches[endpointID] + [m]];
      if ToUint16(|matches[endpointID]|) > size {
        matches := matches[endpointID := matches[endpointID][1..]];
      }
      var count := GetMatchesCount(endpointID);
      matchesCount := matchesCount[endpointID := Increment(count)];
      assert matches == Apply(size, old(State()), Op.AddMatch(endpointID, m)).matches;
    }

    method DeleteMatches(endpointID: string)
      modifies this
      ensures State() == Apply(size, old(State()), Op.DeleteMatches(endpointID))
    {
      if endpointID in matches {
        while |matches[endpointID]| > 0
          invariant endpointID in matches
          invariant matches == old(matches)[endpointID := matches[endpointID]]
          invariant unchanged(this`matchesCount) && unchanged(this`mismatches) && unchanged(this`mismatchesCount)
          decreases |matches[endpointID]|
        {
          matches := matches[endpointID := matches[endpointID][1..]];
        }
      }
      matchesCount := matchesCount[endpointID := 0];
    }

    method DeleteMismatches()
      modifies this
      ensures State() == Apply(size, old(State()), Op.DeleteMismatches)
    {
      while |mismatches| > 0
        invariant unchanged(this`matchesCount) && unchanged(this`matches) && unchanged(this`mismatchesCount)
        decreases |mismatches|
      {
        mismatches := mismatches[1..];
      }
      mismatchesCount := 0;
    }
  }

  // ----- What a history leaves behind

  /** The matches added for `id` since its last delete, oldest first. */
  function Since(ops: seq<Op>, id: string): seq<Match>
  {
    if ops == [] then []
    else
      var before := Since(ops[..|ops|-1], id);
      match ops[|ops|-1]
      case AddMatch(other, m) => if other == id then before + [m] else before
      case DeleteMatches(other) => if other == id then [] else before
      case _ => before
  }

  function MismatchesSince(ops: seq<Op>): seq<Mismatch>
  {
    if ops == [] then []
    else
      var before := MismatchesSince(ops[..|ops|-1]);
      match ops[|ops|-1]
      case AddMismatch(m) => before + [m]
      case DeleteMismatches => []
      case _ => before
  }

  /** The last `size` entries; at the largest size nothing is ever dropped. */
  function Window<T>(size: uint16, entries: seq<T>): seq<T>
  {
    if size as int < MAX_UINT16 && |entries| > size as int then entries[|entries| - size as int..] else entries
  }

  lemma PushKeepsWindow<T>(size: uint16, entries: seq<T>, entry: T)
    ensures Push(size, Window(size, entries), entry) == Window(size, entries + [entry])
  {
    var n := size as int;
    if n < MAX_UINT16 && |entries| >= n {
      var longer := Window(size, entries) + [entry];
      assert |longer| == n + 1;
      assert longer[1..] == Window(size, entries + [entry]);
    }
  }

  lemma IncrementCounts(count: uint64, n: nat)
    requires count as int == n % UINT64
    ensures Increment(count) as int == (n + 1) % UINT64
  {
    assert n == UINT64 * (n / UINT64) + n % UINT64;
    if n % UINT64 == UINT64 - 1 {
      assert n + 1 == UINT64 * (n / UINT64 + 1);
    } else {
      assert n + 1 == UINT64 * (n / UINT64) + (n % UINT64 + 1);
    }
  }

  /** After any history of adds and deletes: the list is the window over the adds since the last delete,
      and the count is their number modulo 2^64. */
  lemma {:induction false} HistoryExactly(size: uint16, ops: seq<Op>, id: string)
    ensures MatchesOf(History(size, EMPTY_STORE, ops), id) == Window(size, Since(ops, id))
    ensures CountOf(History(size, EMPTY_STORE, ops), id) as int == |Since(ops, id)| % UINT64
  {
    if ops != [] {
      var before := ops[..|ops|-1];
      HistoryExactly(size, before, id);
      match ops[|ops|-1]
      case AddMatch(other, m) =>
        PushKeepsWindow(size, Since(before, id), m);
        IncrementCounts(CountOf(History(size, EMPTY_STORE, before), id), |Since(before, id)|);
      case _ =>
    }
  }

  lemma {:induction false} MismatchHistoryExactly(size: uint16, ops: seq<Op>)
    ensures History(size, EMPTY_STORE, ops).mismatches == Window(size, MismatchesSince(ops))
    ensures History(size, EMPTY_STORE, ops).mismatchesCount as int == |MismatchesSince(ops)| % UINT64
  {
    if ops != [] {
      var before := ops[..|ops|-1];
      MismatchHistoryExactly(size, before);
      match ops[|ops|-1]
      case AddMismatch(m) =>
        PushKeepsWindow(size, MismatchesSince(before), m);
        IncrementCounts(History(size, EMPTY_STORE, before).mismatchesCount, |MismatchesSince(before)|);
      case _ =>
    }
  }

  ghost predicate Bounded(size: uint16)
  {
    forall ops, id :: |MatchesOf(History(size, EMPTY_STORE, ops), id)| <= size as int
  }

  function Adds(id: string, n: nat): seq<Op>
  {
    seq(n, k requires 0 <= k < n => Op.AddMatch(id, Match(id, k)))
  }

  lemma {:induction false} AddsSince(id: string, n: nat)
    ensures |Since(Adds(id, n), id)| == n
  {
    if n > 0 {
      assert Adds(id, n)[..n-1] == Adds(id, n - 1);
      AddsSince(id, n - 1);
    }
  }

  /** The capacity bounds every list in every history exactly when it is not the largest 16-bit number. */
  lemma BoundedExactly(size: uint16)
    ensures Bounded(size) <==> size as int < MAX_UINT16
  {
    if size as int < MAX_UINT16 {
      forall ops, id ensures |MatchesOf(History(size, EMPTY_STORE, ops), id)| <= size as int {
        HistoryExactly(size, ops, id);
      }
    } else {
      HistoryExactly(size, Adds("a", MAX_UINT16 + 1), "a");
      AddsSince("a", MAX_UINT16 + 1);
    }
  }

  // ----- Conservation

  /** The sum of the counts of `ids`. */
  ghost function Total(counts: map<string, uint64>, ids: set<string>): nat
  {
    if ids == {} then 0 else
      var id :| id in ids;
      (if id in counts then counts[id] as nat else 0) + Total(counts, ids - {id})
  }

  lemma {:induction false} TotalWithout(counts: map<string, uint64>, ids: set<string>, id: string)
    requires id in ids
    ensures Total(counts, ids) == (if id in counts then counts[id] as nat else 0) + Total(counts, ids - {id})
  {
    var first :| first in ids && Total(counts, ids) ==
      (if first in counts then counts[first] as nat else 0) + Total(counts, ids - {first});
    if first != id {
      TotalWithout(counts, ids - {first}, id);
      TotalWithout(counts, ids - {id}, first);
      assert ids - {first} - {id} == ids - {id} - {first};
    }
  }

  lemma {:induction false} TotalUnchanged(counts: map<string, uint64>, ids: set<string>, id: string, c: uint64)
    requires id !in ids
    ensures Total(counts[id := c], ids) == Total(counts, ids)
  {
    if ids != {} {
      var first :| first in ids;
      TotalWithout(counts, ids, first);
      TotalWithout(counts[id := c], ids, first);
      TotalUnchanged(counts, ids - {first}, id, c);
    }
  }

  predicate IsAdd(op: Op)
  {
    op.AddMatch? || op.AddMismatch?
  }

  lemma AddsToModulus(a: int, b: int, n: int)
    requires a % UINT64 == n % UINT64 && (b == a + 1 || b == a + 1 - UINT64)
    ensures b % UINT64 == (n + 1) % UINT64
  {
    var q := a / UINT64 - n / UINT64;
    assert a == n + UINT64 * q;
    if b == a + 1 { assert b == n + 1 + UINT64 * q; } else { assert b == n + 1 + UINT64 * (q - 1); }
  }

  lemma SumAfterAdd(size: uint16, s: Store, op: Op, ids: set<string>, n: int)
    requires IsAdd(op) && (op.AddMatch? ==> op.endpointId in ids)
    requires (Total(s.matchesCount, ids) + s.mismatchesCount as int) % UINT64 == n % UINT64
    ensures var s' := Apply(size, s, op);
      (Total(s'.matchesCount, ids) + s'.mismatchesCount as int) % UINT64 == (n + 1) % UINT64
  {
    hide Push, Total;
    var s' := Apply(size, s, op);
    if op.AddMatch? {
      var id := op.endpointId;
      TotalWithout(s.matchesCount, ids, id);
      TotalWithout(s'.matchesCount, ids, id);
      TotalUnchanged(s.matchesCount, ids - {id}, id, s'.matchesCount[id]);
    }
    AddsToModulus(Total(s.matchesCount, ids) + s.mismatchesCount as int,
                  Total(s'.matchesCount, ids) + s'.mismatchesCount as int, n);
  }

  lemma {:induction false} SumOfCounts(size: uint16, ops: seq<Op>, ids: set<string>)
    requires forall op | op in ops :: IsAdd(op) && (op.AddMatch? ==> op.endpointId in ids)
    ensures var s := History(size, EMPTY_STORE, ops);
      (Total(s.matchesCount, ids) + s.mismatchesCount as int) % UINT64 == |ops| % UINT64
  {
    if ops == [] {
      TotalOfNone(ids);
    } else {
      hide Apply, Total;
      var n := |ops| - 1;
      assert ops[n] in ops;
      SumOfCounts(size, ops[..n], ids);
      SumAfterAdd(size, History(size, EMPTY_STORE, ops[..n]), ops[n], ids, n);
    }
  }

  lemma {:induction false} TotalOfNone(ids: set<string>)
    ensures Total(map[], ids) == 0
  {
    if ids != {} {
      var id :| id in ids;
      TotalWithout(map[], ids, id);
      TotalOfNone(ids - {id});
    }
  }

  lemma {:induction false} CountedIds(size: uint16, ops: seq<Op>)
    ensures forall op | op in ops && op.AddMatch? :: op.endpointId in History(size, EMPTY_STORE, ops).matchesCount
  {
    if ops != [] {
      var n := |ops| - 1;
      CountedIds(size, ops[..n]);
      forall op | op in ops && op.AddMatch? ensures op.endpointId in History(size, EMPTY_STORE, ops).matchesCount {
        if op != ops[n] { assert op in ops[..n]; }
      }
    }
  }

  /** Over every delete-free history, all match counts and the mismatch count together number the records
      added, modulo 2^64. */
  lemma Conservation(size: uint16, ops: seq<Op>)
    requires forall op | op in ops :: IsAdd(op)
    ensures var s := History(size, EMPTY_STORE, ops);
      (Total(s.matchesCount, s.matchesCount.Keys) + s.mismatchesCount as int) % UINT64 == |ops| % UINT64
  {
    CountedIds(size, ops);
    SumOfCounts(size, ops, History(size, EMPTY_STORE, ops).matchesCount.Keys);
  }
}
