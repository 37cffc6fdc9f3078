/** The Redis match store: every operation is a sequence of commands on a shared keyspace.
    Run one after the other, it does what the in-memory store does. */
module RedisStore {
  import opened MatchStore
  import opened Remote

  const MISMATCHES_KEY := "__mismatches__"
  const COUNTER_KEY := "__counter__"
  const MAX_INT64 := 0x7FFF_FFFF_FFFF_FFFF

  /** A stored record; its JSON form is taken to be faithful. */
  datatype Record = OfMatch(m: Match) | OfMismatch(mm: Mismatch)

  datatype Value = Records(entries: seq<Record>) | Number(n: int)

  type Keyspace = map<string, Value>

  datatype Reply<T> = Ok(value: T) | Err

  // ----- The commands

  function Pushed(db: Keyspace, key: string, r: Record): (Keyspace, bool)
  {
    if key !in db then (db[key := Records([r])], true)
    else if db[key].Records? then (db[key := Records(db[key].entries + [r])], true)
    else (db, false)
  }

  /** The value of the reply, which is 0 for a failed command. */
  function LLen(db: Keyspace, key: string): nat
  {
    if key in db && db[key].Records? then |db[key].entries| else 0
  }

  /** Fails on a missing key; a list that becomes empty is removed. */
  function Popped(db: Keyspace, key: string): (Keyspace, bool)
  {
    if key !in db || !db[key].Records? || db[key].entries == [] then (db, false)
    else if |db[key].entries| == 1 then (db - {key}, true)
    else (db[key := Records(db[key].entries[1..])], true)
  }

  function Incremented(db: Keyspace, key: string): (Keyspace, bool)
  {
    if key !in db then (db[key := Number(1)], true)
    else if db[key].Number? && db[key].n < MAX_INT64 then (db[key := Number(db[key].n + 1)], true)
    else (db, false)
  }

  function Get(db: Keyspace, key: string): Reply<int>
  {
    if key in db && db[key].Number? then Ok(db[key].n) else Err
  }

  function LRange(db: Keyspace, key: string): Reply<seq<Record>>
  {
    if key !in db then Ok([]) else if db[key].Records? then Ok(db[key].entries) else Err
  }

  /** A counter counts up to the largest signed 64-bit number and fails from there on. */
  lemma IncrementedExactly(db: Keyspace, key: string)
    requires key in db && db[key].Number?
    ensures Incremented(db, key) ==
      if db[key].n < 0x7FFF_FFFF_FFFF_FFFF then (db[key := Number(db[key].n + 1)], true) else (db, false)
  {}

  /** A command on a key of the other type fails, and changes nothing. */
  lemma WrongTypeFails(db: Keyspace, key: string, r: Record)
    requires key in db
    ensures db[key].Number? ==> Pushed(db, key, r) == (db, false) && Popped(db, key) == (db, false) && LRange(db, key) == Err
    ensures db[key].Records? ==> Incremented(db, key) == (db, false) && Get(db, key) == Err
  {}

  // ----- The operations

  function Add(capacity: uint16, db: Keyspace, key: string, r: Record): (Keyspace, bool)
  {
    var (pushed, ok) := Pushed(db, key, r);
    if !ok then (pushed, false)
    else
      var (trimmed, ok) := if LLen(pushed, key) > capacity as int then Popped(pushed, key) else (pushed, true);
      if !ok then (trimmed, false) else Incremented(trimmed, key + COUNTER_KEY)
  }

  function Clear(db: Keyspace, key: string): Keyspace
  {
    (db - {key})[key + COUNTER_KEY := Number(0)]
  }

  /** The list an operation works on. */
  function Target(op: Op): string
  {
    match op
    case AddMatch(id, _) => id
    case DeleteMatches(id) => id
    case AddMismatch(_) => MISMATCHES_KEY
    case DeleteMismatches => MISMATCHES_KEY
  }

  function Perform(capacity: uint16, db: Keyspace, op: Op): Keyspace
  {
    match op
    case AddMatch(id, m) => Add(capacity, db, id, OfMatch(m)).0
    case AddMismatch(mm) => Add(capacity, db, MISMATCHES_KEY, OfMismatch(mm)).0
    case DeleteMatches(id) => Clear(db, id)
    case DeleteMismatches => Clear(db, MISMATCHES_KEY)
  }

  function Replay(capacity: uint16, ops: seq<Op>): Keyspace
  {
    if ops == [] then map[] else Perform(capacity, Replay(capacity, ops[..|ops|-1]), ops[|ops|-1])
  }

  class Redis {
    var db: Keyspace

    constructor ()
      ensures db == map[]
    {
      db := map[];
    }

    method RPush(key: string, r: Record) returns (ok: bool)
      modifies this
      ensures (db, ok) == Pushed(old(db), key, r)
    {
      var result := Pushed(db, key, r);
      db, ok := result.0, result.1;
    }

    method LPop(key: string) returns (ok: bool)
      modifies this
      ensures (db, ok) == Popped(old(db), key)
    {
      var result := Popped(db, key);
      db, ok := result.0, result.1;
    }

    method Incr(key: string) returns (ok: bool)
      modifies this
      ensures (db, ok) == Incremented(old(db), key)
    {
      var result := Incremented(db, key);
      db, ok := result.0, result.1;
    }

    method Del(key: string)
      modifies this
      ensures db == old(db) - {key}
    {
      db := db - {key};
    }

    method Set(key: string, n: int)
      modifies this
      ensures db == old(db)[key := Number(n)]
    {
      db := db[key := Number(n)];
    }
  }

  class RedisMatchstore {
    const client: Redis
    const capacity: uint16

    constructor (client: Redis, capacity: uint16)
      ensures this.client == client && this.capacity == capacity
    {
      this.client := client;
      this.capacity := capacity;
    }

    method AddRecord(key: string, r: Record) returns (ok: bool)
      modifies client
      ensures (client.db, ok) == Add(capacity, old(client.db), key, r)
    {
      ok := client.RPush(key, r);
      if !ok { return; }
      if LLen(client.db, key) > capacity as int {
        ok := client.LPop(key);
        if !ok { return; }
      }
      ok := client.Incr(key + COUNTER_KEY);
    }

    method AddMatch(endpointID: string, m: Match) returns (ok: bool)
      modifies client
      ensures client.db == Perform(capacity, old(client.db), Op.AddMatch(endpointID, m))
      ensures ok == Add(capacity, old(client.db), endpointID, OfMatch(m)).1
    {
      ok := AddRecord(endpointID, OfMatch(m));
    }

    method AddMismatch(mm: Mismatch) returns (ok: bool)
      modifies client
      ensures client.db == Perform(capacity, old(client.db), Op.AddMismatch(mm))
      ensures ok == Add(capacity, old(client.db), MISMATCHES_KEY, OfMismatch(mm)).1
    {
      ok := AddRecord(MISMATCHES_KEY, OfMismatch(mm));
    }

    /** Removes a list and resets its counter; `del` and `set` say how the two commands go. A failure of
        the first leaves the counter as it is. */
    method DeleteRecords(key: string, del: Rpc, set_: Rpc) returns (ok: bool)
      modifies client
      ensures ok <==> del == Done && set_ == Done
      ensures client.db ==
        var deleted := if del == Lost then old(client.db) else old(client.db) - {key};
        if del != Done || set_ == Lost then deleted else deleted[key + COUNTER_KEY := Number(0)]
    {
      if del != Lost { client.Del(key); }
      if del != Done { return false; }
      if set_ != Lost { client.Set(key + COUNTER_KEY, 0); }
      return set_ == Done;
    }

    method DeleteMatches(endpointID: string, del: Rpc, set_: Rpc) returns (ok: bool)
      modifies client
      ensures ok <==> del == Done && set_ == Done
      ensures ok || (del == Done && set_ == LostReply) ==> client.db == Perform(capacity, old(client.db), Op.DeleteMatches(endpointID))
      ensures del == LostReply || (del == Done && set_ == Lost) ==> client.db == old(client.db) - {endpointID}
      ensures del == Lost ==> client.db == old(client.db)
    {
      ok := DeleteRecords(endpointID, del, set_);
    }

    method DeleteMismatches(del: Rpc, set_: Rpc) returns (ok: bool)
      modifies client
      ensures ok <==> del == Done && set_ == Done
      ensures ok || (del == Done && set_ == LostReply) ==> client.db == Perform(capacity, old(client.db), Op.DeleteMismatches)
      ensures del == LostReply || (del == Done && set_ == Lost) ==> client.db == old(client.db) - {MISMATCHES_KEY}
      ensures del == Lost ==> client.db == old(client.db)
    {
      ok := DeleteRecords(MISMATCHES_KEY, del, set_);
    }

    method GetMatches(endpointID: string) returns (result: Reply<seq<Record>>)
      ensures result == LRange(client.db, endpointID)
      ensures forall kept, touched :: Holds(capacity, client.db, endpointID, kept, touched) ==> result == Ok(Last(capacity, kept))
    {
      var lrange := LRange(client.db, endpointID);
      if lrange.Err? { return Err; }
      var entries := [];
      for i := 0 to |lrange.value|
        invariant entries == lrange.value[..i]
      {
        entries := entries + [lrange.value[i]];
      }
      assert lrange.value[..|lrange.value|] == lrange.value;
      return Ok(entries);
    }

    method GetMatchesCount(endpointID: string) returns (result: Reply<int>)
      ensures result == Get(client.db, endpointID + COUNTER_KEY)
      ensures forall kept, touched :: Holds(capacity, client.db, endpointID, kept, touched) ==>
        result == if touched then Ok(|kept|) else Err
    {
      result := Get(client.db, endpointID + COUNTER_KEY);
    }
  }

  // ----- What a history leaves behind

  /** The records added under `key` since it was last cleared. */
  function Kept(ops: seq<Op>, key: string): seq<Record>
  {
    if ops == [] then []
    else
      var before, op := Kept(ops[..|ops|-1], key), ops[|ops|-1];
      if Target(op) != key then before else KeptAfter(before, op)
  }

  function KeptAfter(before: seq<Record>, op: Op): seq<Record>
  {
    match op
    case AddMatch(_, m) => before + [OfMatch(m)]
    case AddMismatch(mm) => before + [OfMismatch(mm)]
    case _ => []
  }

  predicate Touched(ops: seq<Op>, key: string)
  {
    exists i | 0 <= i < |ops| :: Target(ops[i]) == key
  }

  /** The last `capacity` entries. */
  function Last<T>(capacity: uint16, entries: seq<T>): seq<T>
  {
    if |entries| > capacity as int then entries[|entries| - capacity as int..] else entries
  }

  /** The two keys of a list hold its last records and their number; before its first use neither exists. */
  ghost predicate Holds(capacity: uint16, db: Keyspace, key: string, kept: seq<Record>, touched: bool)
  {
    && (if Last(capacity, kept) == [] then key !in db else key in db && db[key] == Records(Last(capacity, kept)))
    && (if touched then key + COUNTER_KEY in db && db[key + COUNTER_KEY] == Number(|kept|)
        else key + COUNTER_KEY !in db && kept == [])
  }

  ghost predicate SameElsewhere(db: Keyspace, db': Keyspace, key: string)
  {
    forall k | k != key && k != key + COUNTER_KEY :: (k in db <==> k in db') && (k in db ==> db[k] == db'[k])
  }

  lemma AddHolds(capacity: uint16, db: Keyspace, key: string, kept: seq<Record>, touched: bool, r: Record)
    requires Holds(capacity, db, key, kept, touched) && |kept| < MAX_INT64
    ensures Holds(capacity, Add(capacity, db, key, r).0, key, kept + [r], true)
    ensures Add(capacity, db, key, r).1
    ensures SameElsewhere(db, Add(capacity, db, key, r).0, key)
  {
    var pushed := Pushed(db, key, r).0;
    assert pushed[key] == Records(Last(capacity, kept) + [r]);
    if |kept| >= capacity as int {
      assert (Last(capacity, kept) + [r])[1..] == Last(capacity, kept + [r]);
    }
  }

  lemma ClearHolds(capacity: uint16, db: Keyspace, key: string)
    ensures Holds(capacity, Clear(db, key), key, [], true) && SameElsewhere(db, Clear(db, key), key)
  {}

  /** Lists whose keys cannot be taken for each other's lists or counters. */
  predicate Separate(keys: set<string>)
  {
    forall a, b | a in keys && b in keys :: a != b + COUNTER_KEY
  }

  lemma CountersDiffer(a: string, b: string)
    requires a + COUNTER_KEY == b + COUNTER_KEY
    ensures a == b
  {
    assert (a + COUNTER_KEY)[..|a|] == a && (b + COUNTER_KEY)[..|b|] == b;
  }

  lemma OthersHold(capacity: uint16, db: Keyspace, db': Keyspace, key: string, other: string, kept: seq<Record>, touched: bool)
    requires Holds(capacity, db, other, kept, touched) && SameElsewhere(db, db', key)
    requires Separate({key, other}) && key != other
    ensures Holds(capacity, db', other, kept, touched)
  {
    if other + COUNTER_KEY == key + COUNTER_KEY { CountersDiffer(other, key); }
  }

  lemma TouchedSnoc(ops: seq<Op>, key: string)
    requires ops != []
    ensures Touched(ops, key) <==> Touched(ops[..|ops|-1], key) || Target(ops[|ops|-1]) == key
  {
    var n := |ops| - 1;
    if i :| 0 <= i < n && Target(ops[i]) == key { assert Target(ops[..n][i]) == key; }
    if i :| 0 <= i < n && Target(ops[..n][i]) == key { assert Target(ops[i]) == key; }
  }

  lemma {:induction false} KeptBound(ops: seq<Op>, key: string)
    ensures |Kept(ops, key)| <= |ops|
  {
    if ops != [] { KeptBound(ops[..|ops|-1], key); }
  }

  /** One operation does to the list it works on what it should, and touches nothing else. */
  lemma PerformHolds(capacity: uint16, db: Keyspace, op: Op, kept: seq<Record>, touched: bool)
    requires Holds(capacity, db, Target(op), kept, touched) && |kept| < MAX_INT64
    ensures Holds(capacity, Perform(capacity, db, op), Target(op), KeptAfter(kept, op), true)
    ensures SameElsewhere(db, Perform(capacity, db, op), Target(op))
  {
    match op {
      case AddMatch(id, m) => AddHolds(capacity, db, id, kept, touched, OfMatch(m));
      case AddMismatch(mm) => AddHolds(capacity, db, MISMATCHES_KEY, kept, touched, OfMismatch(mm));
      case DeleteMatches(id) => ClearHolds(capacity, db, id);
      case DeleteMismatches => ClearHolds(capacity, db, MISMATCHES_KEY);
    }
  }

  /** After any history on lists with separate keys: each list holds the last records since it was last
      cleared, and its counter, once there, their number. */
  lemma {:induction false} RedisHistoryExactly(capacity: uint16, ops: seq<Op>, keys: set<string>, key: string)
    requires Separate(keys) && key in keys && |ops| < 0x8000_0000_0000_0000
    requires forall op | op in ops :: Target(op) in keys
    ensures Holds(capacity, Replay(capacity, ops), key, Kept(ops, key), Touched(ops, key))
  {
    hide Holds, Perform, SameElsewhere;
    if ops != [] {
      var n := |ops| - 1;
      var before, op := ops[..n], ops[n];
      var target := Target(op);
      assert op in ops;
      RedisHistoryExactly(capacity, before, keys, target);
      KeptBound(before, target);
      PerformHolds(capacity, Replay(capacity, before), op, Kept(before, target), Touched(before, target));
      TouchedSnoc(ops, key);
      if target != key {
        RedisHistoryExactly(capacity, before, keys, key);
        OthersHold(capacity, Replay(capacity, before), Replay(capacity, ops), target, key, Kept(before, key), Touched(before, key));
      }
    } else {
      NothingHeld(capacity, key);
    }
  }

  lemma NothingHeld(capacity: uint16, key: string)
    ensures Holds(capacity, map[], key, [], false)
  {}

  // ----- Refinement of the in-memory store

  function Wrapped(matches: seq<Match>): (r: seq<Record>)
    ensures |r| == |matches|
  {
    seq(|matches|, k requires 0 <= k < |matches| => OfMatch(matches[k]))
  }

  lemma {:induction false} KeptIsSince(ops: seq<Op>, id: string)
    requires id != MISMATCHES_KEY
    ensures Kept(ops, id) == Wrapped(Since(ops, id))
  {
    if ops != [] { KeptIsSince(ops[..|ops|-1], id); }
  }

  lemma SameRecordsExactly(capacity: uint16, since: seq<Match>)
    ensures Last(capacity, Wrapped(since)) == Wrapped(Window(capacity, since)) <==>
      capacity as int < MAX_UINT16 || |since| <= MAX_UINT16
  {
    if capacity as int < MAX_UINT16 || |since| <= MAX_UINT16 {
      assert Last(capacity, since) == Window(capacity, since);
      assert Last(capacity, Wrapped(since)) == Wrapped(Last(capacity, since));
    }
  }

  /** Run one operation after the other, the two stores hold the same matches for an endpoint exactly when
      the capacity is not the largest 16-bit number or was never exceeded; the counts agree as soon as the
      counter exists, which is from the first add or delete on. */
  lemma StoresAgree(capacity: uint16, ops: seq<Op>, ids: set<string>, id: string)
    requires Separate(ids + {MISMATCHES_KEY}) && MISMATCHES_KEY !in ids && id in ids && |ops| < 0x8000_0000_0000_0000
    requires forall op | op in ops :: Target(op) in ids + {MISMATCHES_KEY}
    ensures var db, s := Replay(capacity, ops), History(capacity, EMPTY_STORE, ops);
      && (LRange(db, id) == Ok(Wrapped(MatchesOf(s, id))) <==>
            capacity as int < MAX_UINT16 || |Since(ops, id)| <= MAX_UINT16)
      && Get(db, id + COUNTER_KEY) == if Touched(ops, id) then Ok(CountOf(s, id) as int) else Err
  {
    hide Wrapped, Last, Window, Touched, Replay, History, Kept, Since, Separate;
    RedisHistoryExactly(capacity, ops, ids + {MISMATCHES_KEY}, id);
    HistoryExactly(capacity, ops, id);
    KeptIsSince(ops, id);
    KeptBound(ops, id);
    SameRecordsExactly(capacity, Since(ops, id));
  }

  // ----- Ids that interfere

  /** An endpoint named like an existing counter cannot record anything. */
  lemma CounterNameIsTaken(capacity: uint16, db: Keyspace, id: string, r: Record)
    requires id + COUNTER_KEY in db && db[id + COUNTER_KEY].Number?
    ensures Add(capacity, db, id + COUNTER_KEY, r) == (db, false)
  {}

  /** A match operation on one of the endpoints, or any mismatch operation. */
  predicate OnIds(op: Op, ids: set<string>)
  {
    (op.AddMatch? || op.DeleteMatches?) ==> op.endpointId in ids
  }

  /** An endpoint's count has been changed or reset. */
  predicate Used(ops: seq<Op>, id: string)
  {
    exists i | 0 <= i < |ops| :: (ops[i].AddMatch? || ops[i].DeleteMatches?) && ops[i].endpointId == id
  }

  /** Both stores answer the same about an endpoint: its matches, as far as the largest capacity allows, and its
      count as soon as there is one. */
  ghost predicate Agree(capacity: uint16, ops: seq<Op>, id: string)
  {
    var db, s := Replay(capacity, ops), History(capacity, EMPTY_STORE, ops);
    && (LRange(db, id) == Ok(Wrapped(MatchesOf(s, id))) <==>
          capacity as int < MAX_UINT16 || |Since(ops, id)| <= MAX_UINT16)
    && Get(db, id + COUNTER_KEY) == if Used(ops, id) then Ok(CountOf(s, id) as int) else Err
  }

  ghost predicate AlwaysAgree(capacity: uint16, ids: set<string>)
  {
    forall ops, id | id in ids && |ops| < 0x8000_0000_0000_0000 && (forall op | op in ops :: OnIds(op, ids)) :: Agree(capacity, ops, id)
  }

  /** No endpoint has the name of the mismatch list, of its counter, or of another endpoint's counter. */
  predicate Distinct(ids: set<string>)
  {
    && "__mismatches__" !in ids && "__mismatches____counter__" !in ids
    && forall a, b | a in ids && b in ids :: a != b + "__counter__"
  }

  /** The stores agree about all endpoints in all histories if and only if the names are distinct. */
  lemma AgreeIffDistinct(capacity: uint16, ids: set<string>)
    ensures AlwaysAgree(capacity, ids) <==> Distinct(ids)
  {
    assert MISMATCHES_KEY + COUNTER_KEY == "__mismatches____counter__";
    hide Agree, Replay, Used;
    if Distinct(ids) {
      DistinctIsSeparate(ids);
      forall ops, id | id in ids && |ops| < 0x8000_0000_0000_0000 && (forall op | op in ops :: OnIds(op, ids))
        ensures Agree(capacity, ops, id)
      {
        DistinctAgree(capacity, ops, ids, id);
      }
    }
    if AlwaysAgree(capacity, ids) {
      if MISMATCHES_KEY in ids {
        MismatchesAreCounted(capacity);
        Disagreement(capacity, ids, [SOME_MISMATCH], MISMATCHES_KEY);
      }
      if MISMATCHES_KEY + COUNTER_KEY in ids {
        var a := MISMATCHES_KEY + COUNTER_KEY;
        NameIsTaken(capacity, MISMATCHES_KEY, SOME_MISMATCH);
        Disagreement(capacity, ids, [SOME_MISMATCH, SomeMatch(a)], a);
      }
      forall a, b | a in ids && b in ids ensures a != b + COUNTER_KEY {
        if a == b + COUNTER_KEY {
          NameIsTaken(capacity, b, SomeMatch(b));
          Disagreement(capacity, ids, [SomeMatch(b), SomeMatch(a)], a);
        }
      }
    }
  }

  lemma Disagreement(capacity: uint16, ids: set<string>, ops: seq<Op>, id: string)
    requires id in ids && |ops| < 0x8000_0000_0000_0000 && (forall op | op in ops :: OnIds(op, ids)) && !Agree(capacity, ops, id)
    ensures !AlwaysAgree(capacity, ids)
  {
    hide Agree;
  }

  const SOME_MISMATCH := Op.AddMismatch(Mismatch(NoAttributeMatch(""), 0))

  function SomeMatch(id: string): Op
  {
    Op.AddMatch(id, Match(id, 0))
  }

  lemma DistinctIsSeparate(ids: set<string>)
    requires Distinct(ids)
    ensures Separate(ids + {MISMATCHES_KEY})
  {
    assert MISMATCHES_KEY + COUNTER_KEY == "__mismatches____counter__";
    forall a, b | a in ids + {MISMATCHES_KEY} && b in ids + {MISMATCHES_KEY} ensures a != b + COUNTER_KEY {
      assert |b + COUNTER_KEY| == |b| + 11;
      if a == MISMATCHES_KEY && |b| == 3 { assert (b + COUNTER_KEY)[3] == '_' != MISMATCHES_KEY[3]; }
    }
  }

  lemma DistinctAgree(capacity: uint16, ops: seq<Op>, ids: set<string>, id: string)
    requires Distinct(ids) && Separate(ids + {MISMATCHES_KEY}) && id in ids && |ops| < 0x8000_0000_0000_0000
    requires forall op | op in ops :: OnIds(op, ids)
    ensures Agree(capacity, ops, id)
  {
    hide Separate, Replay, History, Wrapped, Since;
    StoresAgree(capacity, ops, ids, id);
    assert Used(ops, id) <==> Touched(ops, id) by {
      if i :| 0 <= i < |ops| && Target(ops[i]) == id { assert ops[i].AddMatch? || ops[i].DeleteMatches?; }
      if i :| 0 <= i < |ops| && (ops[i].AddMatch? || ops[i].DeleteMatches?) && ops[i].endpointId == id { assert Target(ops[i]) == id; }
    }
  }

  lemma ReplayOne(capacity: uint16, op: Op)
    ensures Replay(capacity, [op]) == Perform(capacity, map[], op)
  {
    assert [op][..0] == [];
  }

  /** A mismatch counts as a match of an endpoint named like the mismatch list. */
  lemma MismatchesAreCounted(capacity: uint16)
    ensures !Agree(capacity, [SOME_MISMATCH], MISMATCHES_KEY)
  {
    ReplayOne(capacity, SOME_MISMATCH);
    FirstRecord(capacity, SOME_MISMATCH);
  }

  /** After a first record its counter is there. */
  lemma FirstRecord(capacity: uint16, op: Op)
    requires IsAdd(op)
    ensures var db := Perform(capacity, map[], op);
      Target(op) + COUNTER_KEY in db && db[Target(op) + COUNTER_KEY] == Number(1)
      && forall k | k in db :: k == Target(op) || k == Target(op) + COUNTER_KEY
  {
    assert Target(op) != Target(op) + COUNTER_KEY by { assert |Target(op) + COUNTER_KEY| > |Target(op)|; }
  }

  /** The counter of the first list takes the place of the list of an endpoint of that name. */
  lemma NameIsTaken(capacity: uint16, key: string, first: Op)
    requires IsAdd(first) && Target(first) == key
    ensures var a := key + COUNTER_KEY; !Agree(capacity, [first, SomeMatch(a)], a)
  {
    hide Perform;
    var a := key + COUNTER_KEY;
    var ops := [first, SomeMatch(a)];
    assert ops[..1] == [first];
    ReplayOne(capacity, first);
    FirstRecord(capacity, first);
    var db := Perform(capacity, map[], first);
    NothingRecorded(capacity, db, key);
    assert Replay(capacity, ops) == Perform(capacity, db, SomeMatch(a));
    assert |a + COUNTER_KEY| > |a| > |key|;
    assert Used(ops, a) by { assert ops[1] == SomeMatch(a); }
  }

  lemma NothingRecorded(capacity: uint16, db: Keyspace, key: string)
    requires key + COUNTER_KEY in db && db[key + COUNTER_KEY].Number?
    ensures Perform(capacity, db, SomeMatch(key + COUNTER_KEY)) == db
  {
    CounterNameIsTaken(capacity, db, key, OfMatch(SomeMatch(key + COUNTER_KEY).match_));
  }
}
