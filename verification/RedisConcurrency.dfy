/** Several servers adding to one list of the shared Redis store at the same time: every
    command is one step, and the commands of different operations interleave freely. */
module RedisConcurrency {
  import MatchStore
  import R = RedisStore

  /** Where a process stands: between operations, inside an add, or inside a delete. */
  datatype Pc = Idle | AwaitLen | AwaitPop | AwaitIncr | AwaitSet

  /** `log` remembers every push since the start; the last two fields count what failed commands leave behind. */
  datatype State = State(
    list: seq<R.Record>,
    counter: int,
    procs: seq<Pc>,
    log: seq<R.Record>,
    skippedTrims: nat,
    lostCounts: nat)

  datatype Event =
    | Push(i: nat, record: R.Record)
    | PushReplyLost(i: nat, record: R.Record)
    | Len(i: nat)
    | LenFails(i: nat)
    | Pop(i: nat)
    | PopFails(i: nat)
    | PopReplyLost(i: nat)
    | Incr(i: nat)
    | IncrFails(i: nat)
    | Del(i: nat)
    | DelReplyLost(i: nat)
    | SetZero(i: nat)
    | SetFails(i: nat)

  function Initial(n: nat): State
  {
    State([], 0, seq(n, _ => Idle), [], 0, 0)
  }

  function Expected(e: Event): Pc
  {
    match e
    case Push(_, _) => Idle
    case PushReplyLost(_, _) => Idle
    case Len(_) => AwaitLen
    case LenFails(_) => AwaitLen
    case Pop(_) => AwaitPop
    case PopFails(_) => AwaitPop
    case PopReplyLost(_) => AwaitPop
    case Incr(_) => AwaitIncr
    case IncrFails(_) => AwaitIncr
    case Del(_) => Idle
    case DelReplyLost(_) => Idle
    case SetZero(_) => AwaitSet
    case SetFails(_) => AwaitSet
  }

  predicate Enabled(s: State, e: Event)
  {
    e.i < |s.procs| && s.procs[e.i] == Expected(e)
  }

  /** Where the process stands afterwards. */
  function Reached(capacity: nat, s: State, e: Event): Pc
  {
    match e
    case Push(_, _) => AwaitLen
    case Len(_) => if |s.list| > capacity then AwaitPop else AwaitIncr
    case LenFails(_) => AwaitIncr
    case Pop(_) => if s.list == [] then Idle else AwaitIncr
    case Del(_) => AwaitSet
    case _ => Idle
  }

  /** One command. A failed length query reads as 0 and trims nothing; popping a missing list is an
      error that ends the add uncounted. A push, pop or delete whose reply is lost takes effect, but ends the
      operation there; an increment or a reset whose reply is lost is like one that succeeds, and a first command
      that fails without effect is no step at all. A command that is not due changes nothing. */
  function Do(capacity: nat, s: State, e: Event): State
  {
    if !Enabled(s, e) then s
    else
      var s' := s.(procs := s.procs[e.i := Reached(capacity, s, e)]);
      match e
      case Push(_, r) => s'.(list := s.list + [r], log := s.log + [r])
      case PushReplyLost(_, r) =>
        s'.(list := s.list + [r], log := s.log + [r], skippedTrims := s.skippedTrims + 1, lostCounts := s.lostCounts + 1)
      case Len(_) => s'
      case LenFails(_) => s'.(skippedTrims := s.skippedTrims + 1)
      case Pop(_) => if s.list == [] then s'.(lostCounts := s.lostCounts + 1) else s'.(list := s.list[1..])
      case PopReplyLost(_) => s'.(list := if s.list == [] then [] else s.list[1..], lostCounts := s.lostCounts + 1)
      case PopFails(_) => s'.(skippedTrims := s.skippedTrims + 1, lostCounts := s.lostCounts + 1)
      case Incr(_) => s'.(counter := s.counter + 1)
      case IncrFails(_) => s'.(lostCounts := s.lostCounts + 1)
      case Del(_) => s'.(list := [])
      case DelReplyLost(_) => s'.(list := [])
      case SetZero(_) => s'.(counter := 0)
      case SetFails(_) => s'
  }

  function Execute(capacity: nat, s: State, events: seq<Event>): State
  {
    if events == [] then s else Do(capacity, Execute(capacity, s, events[..|events|-1]), events[|events|-1])
  }

  // ----- Counting processes

  function At(procs: seq<Pc>, pc: Pc): nat
  {
    if procs == [] then 0 else (if procs[0] == pc then 1 else 0) + At(procs[1..], pc)
  }

  function Is(pc: Pc, q: Pc): nat
  {
    if pc == q then 1 else 0
  }

  lemma {:induction false} AtMove(procs: seq<Pc>, i: nat, pc: Pc)
    requires i < |procs|
    ensures forall q :: At(procs[i := pc], q) == At(procs, q) - Is(procs[i], q) + Is(pc, q)
  {
    if i == 0 {
      assert procs[0 := pc][1..] == procs[1..];
    } else {
      assert procs[i := pc][1..] == procs[1..][i-1 := pc];
      AtMove(procs[1..], i - 1, pc);
    }
  }

  lemma {:induction false} AtBound(procs: seq<Pc>)
    ensures At(procs, AwaitLen) + At(procs, AwaitPop) <= |procs|
  {
    if procs != [] { AtBound(procs[1..]); }
  }

  predicate AtRest(s: State)
  {
    forall i | 0 <= i < |s.procs| :: s.procs[i] == Idle
  }

  lemma {:induction false} NoneAway(procs: seq<Pc>, pc: Pc)
    requires pc != Idle && forall i | 0 <= i < |procs| :: procs[i] == Idle
    ensures At(procs, pc) == 0
  {
    if procs != [] { NoneAway(procs[1..], pc); }
  }

  // ----- Steps are commands

  /** The two keys of the list hold what the state says; an empty list is no key at all. */
  predicate Represents(db: R.Keyspace, key: string, s: State)
  {
    && (if s.list == [] then key !in db else key in db && db[key] == R.Records(s.list))
    && key + R.COUNTER_KEY in db && db[key + R.COUNTER_KEY] == R.Number(s.counter)
  }

  lemma OwnCounter(key: string)
    ensures key != key + R.COUNTER_KEY
  {
    assert |key + R.COUNTER_KEY| > |key|;
  }

  /** In every state, the push that is due is the command on the keyspace, whether its reply arrives or not. */
  lemma PushIsCommand(capacity: nat, db: R.Keyspace, key: string, s: State, i: nat, r: R.Record)
    requires Represents(db, key, s) && Enabled(s, Push(i, r))
    ensures R.Pushed(db, key, r).1
    ensures Represents(R.Pushed(db, key, r).0, key, Do(capacity, s, Push(i, r)))
    ensures Represents(R.Pushed(db, key, r).0, key, Do(capacity, s, PushReplyLost(i, r)))
    ensures Do(capacity, s, Push(i, r)).procs[i] == AwaitLen && Do(capacity, s, PushReplyLost(i, r)).procs[i] == Idle
  {
    OwnCounter(key);
  }

  /** The length decides about the trim; when it is not known, there is none. */
  lemma LenIsCommand(capacity: nat, db: R.Keyspace, key: string, s: State, i: nat)
    requires Represents(db, key, s) && Enabled(s, Len(i))
    ensures Represents(db, key, Do(capacity, s, Len(i))) && Represents(db, key, Do(capacity, s, LenFails(i)))
    ensures Do(capacity, s, Len(i)).procs[i] == if R.LLen(db, key) > capacity then AwaitPop else AwaitIncr
    ensures Do(capacity, s, LenFails(i)).procs[i] == AwaitIncr
  {}

  /** The trim is the command; if that fails, as it does on a list that a delete has removed meanwhile, the add ends
      there. */
  lemma PopIsCommand(capacity: nat, db: R.Keyspace, key: string, s: State, i: nat)
    requires Represents(db, key, s) && Enabled(s, Pop(i))
    ensures Represents(R.Popped(db, key).0, key, Do(capacity, s, Pop(i)))
    ensures Represents(R.Popped(db, key).0, key, Do(capacity, s, PopReplyLost(i)))
    ensures Represents(db, key, Do(capacity, s, PopFails(i)))
    ensures R.Popped(db, key).1 <==> s.list != []
    ensures Do(capacity, s, Pop(i)).procs[i] == if R.Popped(db, key).1 then AwaitIncr else Idle
    ensures Do(capacity, s, PopFails(i)).procs[i] == Idle == Do(capacity, s, PopReplyLost(i)).procs[i]
  {
    OwnCounter(key);
  }

  /** So is the count, which ends the add in any case. */
  lemma IncrIsCommand(capacity: nat, db: R.Keyspace, key: string, s: State, i: nat)
    requires Represents(db, key, s) && Enabled(s, Incr(i)) && s.counter < R.MAX_INT64
    ensures R.Incremented(db, key + R.COUNTER_KEY).1
    ensures Represents(R.Incremented(db, key + R.COUNTER_KEY).0, key, Do(capacity, s, Incr(i)))
    ensures Represents(db, key, Do(capacity, s, IncrFails(i)))
    ensures Do(capacity, s, Incr(i)).procs[i] == Idle == Do(capacity, s, IncrFails(i)).procs[i]
  {
    OwnCounter(key);
  }

  /** The first command of a delete removes the list; without its reply the delete ends there. */
  lemma DelIsCommand(capacity: nat, db: R.Keyspace, key: string, s: State, i: nat)
    requires Represents(db, key, s) && Enabled(s, Del(i))
    ensures Represents(db - {key}, key, Do(capacity, s, Del(i)))
    ensures Represents(db - {key}, key, Do(capacity, s, DelReplyLost(i)))
    ensures Do(capacity, s, Del(i)).procs[i] == AwaitSet && Do(capacity, s, DelReplyLost(i)).procs[i] == Idle
  {
    OwnCounter(key);
  }

  /** The second one resets the counter, or fails and leaves it. */
  lemma SetIsCommand(capacity: nat, db: R.Keyspace, key: string, s: State, i: nat)
    requires Represents(db, key, s) && Enabled(s, SetZero(i))
    ensures Represents(db[key + R.COUNTER_KEY := R.Number(0)], key, Do(capacity, s, SetZero(i)))
    ensures Represents(db, key, Do(capacity, s, SetFails(i)))
    ensures Do(capacity, s, SetZero(i)).procs[i] == Idle == Do(capacity, s, SetFails(i)).procs[i]
  {
    OwnCounter(key);
  }

  // ----- Undisturbed adds

  function Trimmed(capacity: nat, list: seq<R.Record>, r: R.Record): seq<R.Record>
  {
    if |list| + 1 > capacity then (list + [r])[1..] else list + [r]
  }

  lemma SoloSteps(capacity: nat, s: State, i: nat, r: R.Record)
    requires i < |s.procs| && s.procs[i] == Idle
    ensures var s' := Execute(capacity, s, [Push(i, r), Len(i), Pop(i), Incr(i)]);
      s'.procs == s.procs && s'.list == Trimmed(capacity, s.list, r) && s'.counter == s.counter + 1
  {
    var four := [Push(i, r), Len(i), Pop(i), Incr(i)];
    var s1 := Do(capacity, s, four[0]);
    var s2 := Do(capacity, s1, four[1]);
    var s3 := Do(capacity, s2, four[2]);
    var s4 := Do(capacity, s3, four[3]);
    assert Execute(capacity, s, four[..1]) == s1 by { assert four[..1][..0] == []; }
    assert Execute(capacity, s, four[..2]) == s2 by { assert four[..2][..1] == four[..1]; }
    assert Execute(capacity, s, four[..3]) == s3 by { assert four[..3][..2] == four[..2]; }
    assert four[..4] == four;
    assert s4.procs == s.procs;
  }

  lemma AddTrims(capacity: MatchStore.uint16, db: R.Keyspace, key: string, list: seq<R.Record>, counter: int, r: R.Record)
    requires if list == [] then key !in db else key in db && db[key] == R.Records(list)
    requires R.Get(db, key + R.COUNTER_KEY) == R.Ok(counter) && counter < R.MAX_INT64
    ensures var after := R.Add(capacity, db, key, r);
      && after.1
      && R.LRange(after.0, key) == R.Ok(Trimmed(capacity as nat, list, r))
      && R.Get(after.0, key + R.COUNTER_KEY) == R.Ok(counter + 1)
  {
    var ctr := key + R.COUNTER_KEY;
    assert key != ctr by { assert |ctr| > |key|; }
    var pushed := R.Pushed(db, key, r).0;
    assert pushed[key] == R.Records(list + [r]);
    assert ctr in pushed && pushed[ctr] == R.Number(counter);
    if |list| + 1 > capacity as int {
      var trimmed := R.Popped(pushed, key);
      assert list == [] ==> (list + [r])[1..] == [];
      assert trimmed.1 && ctr in trimmed.0 && trimmed.0[ctr] == R.Number(counter);
    }
  }

  /** Without interference the commands of an add are the sequential operation of the store. */
  lemma SoloAddIsAdd(capacity: MatchStore.uint16, db: R.Keyspace, key: string, r: R.Record, s: State, i: nat)
    requires i < |s.procs| && s.procs[i] == Idle
    requires if s.list == [] then key !in db else key in db && db[key] == R.Records(s.list)
    requires R.Get(db, key + R.COUNTER_KEY) == R.Ok(s.counter) && s.counter < R.MAX_INT64
    ensures var s', after := Execute(capacity as nat, s, [Push(i, r), Len(i), Pop(i), Incr(i)]), R.Add(capacity, db, key, r);
      && after.1 && s'.procs == s.procs
      && R.LRange(after.0, key) == R.Ok(s'.list)
      && R.Get(after.0, key + R.COUNTER_KEY) == R.Ok(s'.counter)
  {
    hide Execute, R.Add, Trimmed;
    SoloSteps(capacity as nat, s, i, r);
    AddTrims(capacity, db, key, s.list, s.counter, r);
  }

  lemma ExecuteFrom(capacity: nat, s: State, events: seq<Event>, e: Event)
    ensures Execute(capacity, s, events + [e]) == Do(capacity, Execute(capacity, s, events), e)
    ensures Execute(capacity, s, []) == s
  {
    assert (events + [e])[..|events|] == events;
  }

  lemma ExecuteThree(capacity: nat, s: State, a: Event, b: Event, c: Event)
    ensures Execute(capacity, s, [a]) == Do(capacity, s, a)
    ensures Execute(capacity, s, [a, b]) == Do(capacity, Do(capacity, s, a), b)
    ensures Execute(capacity, s, [a, b, c]) == Do(capacity, Do(capacity, Do(capacity, s, a), b), c)
  {
    hide Do;
    ExecuteFrom(capacity, s, [], a);
    ExecuteFrom(capacity, s, [a], b);
    ExecuteFrom(capacity, s, [a, b], c);
    assert [] + [a] == [a] && [a] + [b] == [a, b] && [a, b] + [c] == [a, b, c];
  }

  /** An undisturbed add that fails on the way, command by command: only a failed length query lets it go on, and
      then without trimming; after any other failure it ends uncounted, with what its commands did left standing. */
  lemma SoloAddFails(capacity: nat, s: State, i: nat, r: R.Record)
    requires i < |s.procs| && s.procs[i] == Idle
    ensures var s' := Execute(capacity, s, [PushReplyLost(i, r)]);
      s'.procs == s.procs && s'.list == s.list + [r] && s'.counter == s.counter
    ensures var s' := Execute(capacity, s, [Push(i, r), LenFails(i), Incr(i)]);
      s'.procs == s.procs && s'.list == s.list + [r] && s'.counter == s.counter + 1
    ensures |s.list| >= capacity ==> var s' := Execute(capacity, s, [Push(i, r), Len(i), PopFails(i)]);
      s'.procs == s.procs && s'.list == s.list + [r] && s'.counter == s.counter
    ensures |s.list| >= capacity ==> var s' := Execute(capacity, s, [Push(i, r), Len(i), PopReplyLost(i)]);
      s'.procs == s.procs && s'.list == (s.list + [r])[1..] && s'.counter == s.counter
    ensures |s.list| < capacity ==> var s' := Execute(capacity, s, [Push(i, r), Len(i), IncrFails(i)]);
      s'.procs == s.procs && s'.list == s.list + [r] && s'.counter == s.counter
  {
    ExecuteThree(capacity, s, PushReplyLost(i, r), Len(i), Incr(i));
    ExecuteThree(capacity, s, Push(i, r), LenFails(i), Incr(i));
    ExecuteThree(capacity, s, Push(i, r), Len(i), PopFails(i));
    ExecuteThree(capacity, s, Push(i, r), Len(i), PopReplyLost(i));
    ExecuteThree(capacity, s, Push(i, r), Len(i), IncrFails(i));
    hide Execute;
    BackToIdle(s.procs, i);
  }

  lemma BackToIdle(procs: seq<Pc>, i: nat)
    requires i < |procs| && procs[i] == Idle
    ensures procs[i := Idle] == procs
    ensures procs[i := AwaitLen][i := AwaitIncr][i := Idle] == procs
    ensures procs[i := AwaitLen][i := AwaitPop][i := Idle] == procs
    ensures procs[i := AwaitSet][i := Idle] == procs
  {}

  /** An undisturbed delete empties the list and resets the counter; if it fails after the first command or the
      first reply is lost, the counter stays as it was. */
  lemma SoloDeleteSteps(capacity: nat, s: State, i: nat)
    requires i < |s.procs| && s.procs[i] == Idle
    ensures var s' := Execute(capacity, s, [Del(i), SetZero(i)]); s'.procs == s.procs && s'.list == [] && s'.counter == 0
    ensures var s' := Execute(capacity, s, [DelReplyLost(i)]); s'.procs == s.procs && s'.list == [] && s'.counter == s.counter
    ensures var s' := Execute(capacity, s, [Del(i), SetFails(i)]); s'.procs == s.procs && s'.list == [] && s'.counter == s.counter
  {
    ExecuteThree(capacity, s, Del(i), SetZero(i), Len(i));
    ExecuteThree(capacity, s, DelReplyLost(i), SetZero(i), Len(i));
    ExecuteThree(capacity, s, Del(i), SetFails(i), Len(i));
    hide Execute;
    BackToIdle(s.procs, i);
  }

  /** Without interference the commands of a delete are the sequential operation of the store. */
  lemma SoloDeleteIsDelete(capacity: nat, db: R.Keyspace, key: string, s: State, i: nat)
    requires i < |s.procs| && s.procs[i] == Idle
    ensures var s', db' := Execute(capacity, s, [Del(i), SetZero(i)]), R.Clear(db, key);
      s'.procs == s.procs && R.LRange(db', key) == R.Ok(s'.list) && R.Get(db', key + R.COUNTER_KEY) == R.Ok(s'.counter)
  {
    assert key != key + R.COUNTER_KEY by { assert |key + R.COUNTER_KEY| > |key|; }
    hide Execute;
    SoloDeleteSteps(capacity, s, i);
  }

  // ----- Safety in every run

  /** Adds that have pushed but not yet trimmed. */
  function Untrimmed(s: State): nat
  {
    At(s.procs, AwaitLen) + At(s.procs, AwaitPop)
  }

  /** Holds in every run, with deletes, failing commands and lost replies: the list is a contiguous suffix of
      the log, and exceeds the capacity by no more than the adds still trimming and the trims that failed or, the
      reply to the push being lost, were never tried. */
  predicate Safe(capacity: nat, s: State)
  {
    && |s.list| <= |s.log| && s.list == s.log[|s.log| - |s.list|..]
    && |s.list| <= capacity + Untrimmed(s) + s.skippedTrims
  }

  lemma DoSafe(capacity: nat, s: State, e: Event)
    requires Safe(capacity, s)
    ensures Safe(capacity, Do(capacity, s, e))
  {
    hide At;
    if Enabled(s, e) { AtMove(s.procs, e.i, Reached(capacity, s, e)); }
  }

  lemma {:induction false} AlwaysSafe(capacity: nat, n: nat, events: seq<Event>)
    ensures Safe(capacity, Execute(capacity, Initial(n), events))
  {
    if events != [] {
      AlwaysSafe(capacity, n, events[..|events|-1]);
      DoSafe(capacity, Execute(capacity, Initial(n), events[..|events|-1]), events[|events|-1]);
    }
  }

  // ----- Delete-free runs

  predicate Deletes(e: Event)
  {
    e.Del? || e.DelReplyLost?
  }

  predicate DeleteFree(events: seq<Event>)
  {
    forall e | e in events :: !Deletes(e)
  }

  function Min(a: int, b: int): int
  {
    if a < b then a else b
  }

  /** What concurrent trimming leaves at least: each of `n` processes may have decided to trim. */
  function Floor(capacity: nat, n: nat): nat
  {
    if n <= capacity then capacity + 1 - n else 0
  }

  /** Every pending pop still finds its entry, no more is trimmed than the floor allows, and the counter
      lags behind the log by the adds in flight and the counts lost to failures. */
  predicate Kept(capacity: nat, s: State)
  {
    && At(s.procs, AwaitSet) == 0
    && |s.list| >= Untrimmed(s)
    && |s.list| - At(s.procs, AwaitPop) >= Min(|s.log|, Floor(capacity, |s.procs|))
    && s.counter + Untrimmed(s) + At(s.procs, AwaitIncr) + s.lostCounts == |s.log|
  }

  lemma {:induction false} PresentAt(procs: seq<Pc>, i: nat)
    requires i < |procs|
    ensures At(procs, procs[i]) >= 1
  {
    if i > 0 { PresentAt(procs[1..], i - 1); }
  }

  lemma DoKept(capacity: nat, s: State, e: Event)
    requires Kept(capacity, s) && !Deletes(e)
    ensures Kept(capacity, Do(capacity, s, e))
    ensures Enabled(s, e) && (e.Pop? || e.PopReplyLost?) ==> s.list != []
  {
    hide At;
    if Enabled(s, e) {
      PresentAt(s.procs, e.i);
      AtMove(s.procs, e.i, Reached(capacity, s, e));
      AtBound(s.procs);
    }
  }

  lemma {:induction false} AlwaysKept(capacity: nat, n: nat, events: seq<Event>)
    requires DeleteFree(events)
    ensures Kept(capacity, Execute(capacity, Initial(n), events))
    ensures |Execute(capacity, Initial(n), events).procs| == n
  {
    if events == [] {
      NoneAway(Initial(n).procs, AwaitSet);
      NoneAway(Initial(n).procs, AwaitLen);
      NoneAway(Initial(n).procs, AwaitPop);
      NoneAway(Initial(n).procs, AwaitIncr);
    } else {
      var before := events[..|events|-1];
      AlwaysKept(capacity, n, before);
      assert events[|events|-1] in events;
      DoKept(capacity, Execute(capacity, Initial(n), before), events[|events|-1]);
    }
  }

  predicate ErrorFree(events: seq<Event>)
  {
    forall e | e in events :: !e.PushReplyLost? && !e.LenFails? && !e.PopFails? && !e.PopReplyLost? && !e.IncrFails?
  }

  lemma {:induction false} NothingLost(capacity: nat, n: nat, events: seq<Event>)
    requires DeleteFree(events) && ErrorFree(events)
    ensures var s := Execute(capacity, Initial(n), events); s.skippedTrims == 0 == s.lostCounts
  {
    if events != [] {
      var before := events[..|events|-1];
      NothingLost(capacity, n, before);
      AlwaysKept(capacity, n, before);
      assert events[|events|-1] in events;
      DoKept(capacity, Execute(capacity, Initial(n), before), events[|events|-1]);
    }
  }

  /** At rest after a run without deletes and failures: the list is the end of the log, its length lies
      between the floor and the capacity, and the counter is the number of pushes. */
  lemma AtRestExactly(capacity: nat, n: nat, events: seq<Event>)
    requires DeleteFree(events) && ErrorFree(events) && AtRest(Execute(capacity, Initial(n), events))
    ensures var s := Execute(capacity, Initial(n), events);
      && |s.list| <= |s.log| && s.list == s.log[|s.log| - |s.list|..]
      && Min(|s.log|, Floor(capacity, n)) <= |s.list| <= Min(|s.log|, capacity)
      && s.counter == |s.log|
  {
    var s := Execute(capacity, Initial(n), events);
    AlwaysSafe(capacity, n, events);
    AlwaysKept(capacity, n, events);
    NothingLost(capacity, n, events);
    NoneAway(s.procs, AwaitLen);
    NoneAway(s.procs, AwaitPop);
    NoneAway(s.procs, AwaitIncr);
  }

  // ----- The floor is reached

  lemma {:induction false} ExecuteConcat(capacity: nat, s: State, first: seq<Event>, second: seq<Event>)
    ensures Execute(capacity, s, first + second) == Execute(capacity, Execute(capacity, s, first), second)
  {
    if second == [] {
      assert first + second == first;
    } else {
      var n := |second| - 1;
      ExecuteConcat(capacity, s, first, second[..n]);
      assert (first + second)[..|first + second|-1] == first + second[..n];
    }
  }

  function Token(n: nat): R.Record
  {
    R.OfMatch(MatchStore.Match("a", n))
  }

  /** Adds one after the other, by the first process. */
  function Solo(k: nat): seq<Event>
  {
    if k == 0 then [] else Solo(k - 1) + [Push(0, Token(k - 1)), Len(0), Incr(0)]
  }

  lemma {:induction false} SoloFills(capacity: nat, n: nat, k: nat)
    requires n >= 1 && k <= capacity
    ensures var s := Execute(capacity, Initial(n), Solo(k));
      s.procs == Initial(n).procs && |s.list| == k == |s.log|
    ensures DeleteFree(Solo(k)) && ErrorFree(Solo(k))
  {
    hide Execute, SinceDelete, AtRest, Enabled;
    if k > 0 {
      SoloFills(capacity, n, k - 1);
      var before := Solo(k - 1);
      var s0 := Execute(capacity, Initial(n), before);
      SoloAdd(capacity, s0, Token(k - 1));
      hide Do, Token;
      var e1 := ExecuteSnoc(capacity, n, before, Push(0, Token(k - 1)));
      var e2 := ExecuteSnoc(capacity, n, e1, Len(0));
      var e3 := ExecuteSnoc(capacity, n, e2, Incr(0));
      assert e3 == Solo(k);
    } else {
      EmptyRun(capacity, n);
    }
  }

  lemma EmptyRun(capacity: nat, n: nat)
    ensures Execute(capacity, Initial(n), []) == Initial(n) && SinceDelete(capacity, n, []) == 0 && AtRest(Initial(n))
  {}

  lemma SoloAdd(capacity: nat, s: State, r: R.Record)
    requires s.procs != [] && s.procs[0] == Idle && |s.list| < capacity
    ensures var s' := Do(capacity, Do(capacity, Do(capacity, s, Push(0, r)), Len(0)), Incr(0));
      s'.procs == s.procs && s'.list == s.list + [r] && |s'.log| == |s.log| + 1 && s'.counter == s.counter + 1
  {
    BackToIdle(s.procs, 0);
  }

  function NextPc(pc: Pc): Pc
  {
    match pc
    case Idle => AwaitLen
    case AwaitLen => AwaitPop
    case AwaitPop => AwaitIncr
    case _ => Idle
  }

  function Due(pc: Pc, i: nat): Event
  {
    match pc
    case Idle => Push(i, Token(i))
    case AwaitLen => Len(i)
    case AwaitPop => Pop(i)
    case AwaitIncr => Incr(i)
    case AwaitSet => SetZero(i)
  }

  /** The first `j` processes take the step that is due at `pc`. */
  function Phase(pc: Pc, j: nat): seq<Event>
  {
    seq(j, i requires 0 <= i < j => Due(pc, i))
  }

  function Mixed(n: nat, j: nat, pc: Pc): (procs: seq<Pc>)
    ensures |procs| == n && forall i | 0 <= i < n :: procs[i] == if i < j then NextPc(pc) else pc
  {
    seq(n, i requires 0 <= i < n => if i < j then NextPc(pc) else pc)
  }

  lemma PhaseStep(capacity: nat, s: State, pc: Pc, j: nat)
    requires pc != AwaitSet && j < |s.procs| && s.procs == Mixed(|s.procs|, j, pc)
    requires pc == AwaitLen ==> |s.list| > capacity
    requires pc == AwaitPop ==> s.list != []
    ensures var s' := Do(capacity, s, Due(pc, j));
      && s'.procs == Mixed(|s.procs|, j + 1, pc)
      && |s'.list| == |s.list| + (if pc == Idle then 1 else 0) - (if pc == AwaitPop then 1 else 0)
      && |s'.log| == |s.log| + (if pc == Idle then 1 else 0)
  {
    var s' := Do(capacity, s, Due(pc, j));
    assert Enabled(s, Due(pc, j)) && Reached(capacity, s, Due(pc, j)) == NextPc(pc);
    assert s'.procs == s.procs[j := NextPc(pc)];
    assert s'.procs == Mixed(|s.procs|, j + 1, pc);
  }

  lemma {:induction false} PhaseRuns(capacity: nat, s: State, pc: Pc, j: nat)
    requires pc != AwaitSet && j <= |s.procs| && s.procs == Mixed(|s.procs|, 0, pc)
    requires pc == AwaitLen ==> |s.list| > capacity
    requires pc == AwaitPop ==> |s.list| >= |s.procs|
    ensures var s' := Execute(capacity, s, Phase(pc, j));
      && s'.procs == Mixed(|s.procs|, j, pc)
      && |s'.list| == |s.list| + (if pc == Idle then j else 0) - (if pc == AwaitPop then j else 0)
      && |s'.log| == |s.log| + (if pc == Idle then j else 0)
  {
    hide Do, Mixed;
    if j > 0 {
      PhaseRuns(capacity, s, pc, j - 1);
      assert Phase(pc, j)[..j-1] == Phase(pc, j - 1);
      var s1 := Execute(capacity, s, Phase(pc, j - 1));
      PhaseStep(capacity, s1, pc, j - 1);
    }
  }

  /** All processes push, then all look at the length, then all trim. */
  function Wave(n: nat): seq<Event>
  {
    Phase(Idle, n) + Phase(AwaitLen, n) + Phase(AwaitPop, n) + Phase(AwaitIncr, n)
  }

  lemma WaveIsClean(n: nat)
    ensures DeleteFree(Wave(n)) && ErrorFree(Wave(n))
  {}

  lemma WaveRuns(capacity: nat, s: State)
    requires s.procs == Initial(|s.procs|).procs && |s.list| + |s.procs| > capacity
    ensures var s' := Execute(capacity, s, Wave(|s.procs|));
      AtRest(s') && |s'.list| == |s.list| && |s'.log| == |s.log| + |s.procs|
  {
    hide Execute, Phase;
    var n := |s.procs|;
    assert s.procs == Mixed(n, 0, Idle);
    PhaseRuns(capacity, s, Idle, n);
    var s1 := Execute(capacity, s, Phase(Idle, n));
    assert s1.procs == Mixed(n, 0, AwaitLen);
    PhaseRuns(capacity, s1, AwaitLen, n);
    var s2 := Execute(capacity, s1, Phase(AwaitLen, n));
    assert s2.procs == Mixed(n, 0, AwaitPop);
    PhaseRuns(capacity, s2, AwaitPop, n);
    var s3 := Execute(capacity, s2, Phase(AwaitPop, n));
    assert s3.procs == Mixed(n, 0, AwaitIncr);
    PhaseRuns(capacity, s3, AwaitIncr, n);
    ExecuteConcat(capacity, s, Phase(Idle, n), Phase(AwaitLen, n));
    ExecuteConcat(capacity, s, Phase(Idle, n) + Phase(AwaitLen, n), Phase(AwaitPop, n));
    ExecuteConcat(capacity, s, Phase(Idle, n) + Phase(AwaitLen, n) + Phase(AwaitPop, n), Phase(AwaitIncr, n));
  }

  /** The floor cannot be raised: some run of `n` processes comes to rest with exactly that many entries
      after more pushes than the capacity. */
  lemma FloorIsReached(capacity: nat, n: nat) returns (events: seq<Event>)
    requires n >= 1
    ensures DeleteFree(events) && ErrorFree(events)
    ensures var s := Execute(capacity, Initial(n), events);
      AtRest(s) && |s.list| == Floor(capacity, n) && |s.log| > capacity
  {
    hide Execute, Wave, Solo;
    var k := Floor(capacity, n);
    WaveIsClean(n);
    SoloFills(capacity, n, k);
    WaveRuns(capacity, Execute(capacity, Initial(n), Solo(k)));
    ExecuteConcat(capacity, Initial(n), Solo(k), Wave(n));
    events := Solo(k) + Wave(n);
  }

  /** Keeps the promise of a bounded window: at rest, the last `capacity` records are there. */
  ghost predicate KeepsWindow(capacity: nat, n: nat)
  {
    forall events | DeleteFree(events) && ErrorFree(events) && AtRest(Execute(capacity, Initial(n), events)) ::
      var s := Execute(capacity, Initial(n), events); |s.list| == Min(|s.log|, capacity)
  }

  /** The shared list is the exact window over the pushes in every run if and only if at most one add is
      ever in flight, or nothing is kept anyway. */
  lemma WindowIffAlone(capacity: nat, n: nat)
    ensures KeepsWindow(capacity, n) <==> n <= 1 || capacity == 0
  {
    if n <= 1 || capacity == 0 {
      forall events | DeleteFree(events) && ErrorFree(events) && AtRest(Execute(capacity, Initial(n), events))
        ensures var s := Execute(capacity, Initial(n), events); |s.list| == Min(|s.log|, capacity)
      {
        AtRestExactly(capacity, n, events);
        if n == 0 { NobodyPushes(capacity, events); }
      }
    } else {
      var events := FloorIsReached(capacity, n);
    }
  }

  lemma {:induction false} NobodyPushes(capacity: nat, events: seq<Event>)
    ensures Execute(capacity, Initial(0), events) == Initial(0)
  {
    if events != [] { NobodyPushes(capacity, events[..|events|-1]); }
  }

  // ----- Counting with deletes

  /** The pushes since the last delete. */
  function SinceDelete(capacity: nat, n: nat, events: seq<Event>): nat
  {
    if events == [] then 0
    else
      var before, e := events[..|events|-1], events[|events|-1];
      var since := SinceDelete(capacity, n, before);
      if !Enabled(Execute(capacity, Initial(n), before), e) then since
      else if e.Push? || e.PushReplyLost? then since + 1
      else if Deletes(e) then 0
      else since
  }

  predicate NoFailures(events: seq<Event>)
  {
    ErrorFree(events) && forall e | e in events :: !e.DelReplyLost? && !e.SetFails?
  }

  /** At rest after a run without failures, the counter is the number of pushes since the last delete. */
  ghost predicate CountsSurvive(capacity: nat, n: nat)
  {
    forall events | NoFailures(events) && AtRest(Execute(capacity, Initial(n), events)) ::
      Execute(capacity, Initial(n), events).counter == SinceDelete(capacity, n, events)
  }

  /** The counter survives deletes in every run if and only if at most one operation is ever in flight. */
  lemma CountsSurviveIffAlone(capacity: nat, n: nat)
    ensures CountsSurvive(capacity, n) <==> n <= 1
  {
    hide Execute, SinceDelete;
    if n <= 1 {
      forall events | NoFailures(events) && AtRest(Execute(capacity, Initial(n), events))
        ensures Execute(capacity, Initial(n), events).counter == SinceDelete(capacity, n, events)
      {
        AloneCounts(capacity, n, events);
        if n == 1 { assert Execute(capacity, Initial(n), events).procs[0] == Idle; }
      }
    } else {
      var events := AddAcrossDelete(capacity, n, Token(0));
    }
  }

  /** Between operations a single process has counted everything; inside an add it is one behind. */
  predicate Counted(s: State, since: nat)
  {
    forall i | 0 <= i < |s.procs| :: CountedAt(s, s.procs[i], since)
  }

  predicate CountedAt(s: State, pc: Pc, since: nat)
  {
    match pc
    case Idle => s.counter == since
    case AwaitLen => s.counter + 1 == since && s.list != []
    case AwaitPop => s.counter + 1 == since && s.list != []
    case AwaitIncr => s.counter + 1 == since
    case AwaitSet => since == 0
  }

  lemma {:induction false} AloneCounts(capacity: nat, n: nat, events: seq<Event>)
    requires n <= 1 && NoFailures(events)
    ensures var s := Execute(capacity, Initial(n), events);
      |s.procs| == n && Counted(s, SinceDelete(capacity, n, events))
      && (n == 0 ==> s.counter == 0 == SinceDelete(capacity, n, events))
  {
    if events != [] {
      assert events[|events|-1] in events;
      AloneCounts(capacity, n, events[..|events|-1]);
    }
  }

  lemma ExecuteSnoc(capacity: nat, n: nat, events: seq<Event>, e: Event) returns (more: seq<Event>)
    ensures more == events + [e]
    ensures Execute(capacity, Initial(n), more) == Do(capacity, Execute(capacity, Initial(n), events), e)
    ensures var since := SinceDelete(capacity, n, events); Enabled(Execute(capacity, Initial(n), events), e) ==>
      SinceDelete(capacity, n, more) == (if e.Push? || e.PushReplyLost? then since + 1 else if Deletes(e) then 0 else since)
  {
    more := events + [e];
    assert more[..|events|] == events;
  }

  /** A delete that runs between the push and the count of an add leaves a counter of one and no push since. */
  lemma AddAcrossDelete(capacity: nat, n: nat, r: R.Record) returns (events: seq<Event>)
    requires n >= 2
    ensures events == [Push(0, r), Del(1), SetZero(1), Len(0), Incr(0)]
    ensures var s := Execute(capacity, Initial(n), events);
      AtRest(s) && s.list == [] && s.counter == 1 && SinceDelete(capacity, n, events) == 0
  {
    var s0 := Initial(n);
    AddAcrossDeleteSteps(capacity, s0, r);
    EmptyRun(capacity, n);
    hide Do, Execute, SinceDelete, Enabled;
    var e1 := ExecuteSnoc(capacity, n, [], Push(0, r));
    var e2 := ExecuteSnoc(capacity, n, e1, Del(1));
    var e3 := ExecuteSnoc(capacity, n, e2, SetZero(1));
    var e4 := ExecuteSnoc(capacity, n, e3, Len(0));
    events := ExecuteSnoc(capacity, n, e4, Incr(0));
  }

  lemma AddAcrossDeleteSteps(capacity: nat, s: State, r: R.Record)
    requires |s.procs| >= 2 && AtRest(s)
    ensures var s1 := Do(capacity, s, Push(0, r));
      var s2 := Do(capacity, s1, Del(1));
      var s3 := Do(capacity, s2, SetZero(1));
      var s4 := Do(capacity, s3, Len(0));
      var s5 := Do(capacity, s4, Incr(0));
      && Enabled(s, Push(0, r)) && Enabled(s1, Del(1)) && Enabled(s2, SetZero(1)) && Enabled(s3, Len(0)) && Enabled(s4, Incr(0))
      && AtRest(s5) && s5.list == [] && s5.counter == 1
  {
    BackToIdle(s.procs, 0);
    BackToIdle(Do(capacity, s, Push(0, r)).procs, 1);
  }

  /** The other way round, an add between the two commands of a delete leaves a stored record uncounted. */
  lemma DeleteForgetsCount(capacity: nat, n: nat, r: R.Record) returns (events: seq<Event>)
    requires capacity > 0 && n >= 2
    ensures events == [Del(1), Push(0, r), Len(0), Incr(0), SetZero(1)]
    ensures var s := Execute(capacity, Initial(n), events);
      AtRest(s) && s.list == [r] && s.counter == 0 && SinceDelete(capacity, n, events) == 1
  {
    var s0 := Initial(n);
    DeleteForgetsSteps(capacity, s0, r);
    EmptyRun(capacity, n);
    hide Do, Execute, SinceDelete, Enabled;
    var e1 := ExecuteSnoc(capacity, n, [], Del(1));
    var e2 := ExecuteSnoc(capacity, n, e1, Push(0, r));
    var e3 := ExecuteSnoc(capacity, n, e2, Len(0));
    var e4 := ExecuteSnoc(capacity, n, e3, Incr(0));
    events := ExecuteSnoc(capacity, n, e4, SetZero(1));
  }

  lemma DeleteForgetsSteps(capacity: nat, s: State, r: R.Record)
    requires |s.procs| >= 2 && AtRest(s) && capacity > 0
    ensures var s1 := Do(capacity, s, Del(1));
      var s2 := Do(capacity, s1, Push(0, r));
      var s3 := Do(capacity, s2, Len(0));
      var s4 := Do(capacity, s3, Incr(0));
      var s5 := Do(capacity, s4, SetZero(1));
      && Enabled(s, Del(1)) && Enabled(s1, Push(0, r)) && Enabled(s2, Len(0)) && Enabled(s3, Incr(0)) && Enabled(s4, SetZero(1))
      && AtRest(s5) && s5.list == [r] && s5.counter == 0
  {
    BackToIdle(s.procs, 1);
    BackToIdle(Do(capacity, s, Del(1)).procs, 0);
  }
}
