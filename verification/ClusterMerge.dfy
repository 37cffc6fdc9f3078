/** Merging the matches of all nodes of a cluster: one entry per node and round, until
    every node has run out. */
module ClusterMerge {
  /** The entries at position `pos`, in node order. */
  function Round<T>(lists: seq<seq<T>>, pos: nat): seq<T>
  {
    if lists == [] then []
    else (if pos < |lists[0]| then [lists[0][pos]] else []) + Round(lists[1..], pos)
  }

  function Longest<T>(lists: seq<seq<T>>): nat
  {
    if lists == [] then 0
    else
      var rest := Longest(lists[1..]);
      if |lists[0]| > rest then |lists[0]| else rest
  }

  /** All rounds from `pos` on. */
  function Merged<T>(lists: seq<seq<T>>, pos: nat): seq<T>
    decreases Longest(lists) - pos
  {
    if pos >= Longest(lists) then [] else Round(lists, pos) + Merged(lists, pos + 1)
  }

  lemma {:induction false} LongestBounds<T>(lists: seq<seq<T>>, i: nat)
    requires i < |lists|
    ensures |lists[i]| <= Longest(lists)
  {
    if i > 0 { LongestBounds(lists[1..], i - 1); }
  }

  lemma {:induction false} EmptyRound<T>(lists: seq<seq<T>>, pos: nat)
    ensures Round(lists, pos) == [] <==> Longest(lists) <= pos
  {
    if lists != [] { EmptyRound(lists[1..], pos); }
  }

  lemma NoRound<T>(lists: seq<seq<T>>, pos: nat)
    ensures Round(lists[..0], pos) == []
  {}

  lemma {:induction false} RoundSnoc<T>(lists: seq<seq<T>>, pos: nat, i: nat)
    requires i < |lists|
    ensures Round(lists[..i+1], pos) == Round(lists[..i], pos) + if pos < |lists[i]| then [lists[i][pos]] else []
  {
    if i == 0 {
      assert lists[..1][1..] == [] && lists[..0] == [];
    } else {
      assert lists[..i+1][1..] == lists[1..][..i] && lists[..i][1..] == lists[1..][..i-1];
      RoundSnoc(lists[1..], pos, i - 1);
    }
  }

  lemma MergedUnfolds<T>(lists: seq<seq<T>>, pos: nat, done: seq<T>)
    ensures done + Merged(lists, pos) == (done + Round(lists, pos)) + Merged(lists, pos + 1)
    ensures Round(lists, pos) == [] ==> Merged(lists, pos) == [] == Merged(lists, pos + 1)
    ensures Round(lists, pos) != [] ==> pos < Longest(lists)
  {
    EmptyRound(lists, pos);
    assert done + (Round(lists, pos) + Merged(lists, pos + 1)) == (done + Round(lists, pos)) + Merged(lists, pos + 1);
  }

  /** The merging loops. */
  method MergeLists<T>(lists: seq<seq<T>>) returns (result: seq<T>)
    ensures result == Merged(lists, 0)
  {
    assert [] + Merged(lists, 0) == Merged(lists, 0);
    result := [];
    var finish := false;
    var pos := 0;
    while !finish
      invariant result + Merged(lists, pos) == Merged(lists, 0)
      invariant finish ==> Merged(lists, pos) == []
      decreases !finish, Longest(lists) - pos
    {
      hide Merged, Round;
      finish := true;
      ghost var before := result;
      NoRound(lists, pos);
      for i := 0 to |lists|
        invariant result == before + Round(lists[..i], pos)
        invariant finish <==> Round(lists[..i], pos) == []
      {
        RoundSnoc(lists, pos, i);
        if pos < |lists[i]| {
          finish := false;
          result := result + [lists[i][pos]];
        }
      }
      assert lists[..|lists|] == lists;
      MergedUnfolds(lists, pos, before);
      pos := pos + 1;
    }
  }

  // ----- Where every entry lands

  /** How many entries the first `p` positions of all lists hold. */
  function Before<T>(lists: seq<seq<T>>, p: nat): nat
  {
    if lists == [] then 0 else (if |lists[0]| < p then |lists[0]| else p) + Before(lists[1..], p)
  }

  /** How many of the lists have an entry at position `p`. */
  function Alive<T>(lists: seq<seq<T>>, p: nat): nat
  {
    if lists == [] then 0 else (if |lists[0]| > p then 1 else 0) + Alive(lists[1..], p)
  }

  /** Entry `p` of list `i`: all earlier positions come first, then the lower lists' entries at `p`. */
  function LandsAt<T>(lists: seq<seq<T>>, i: nat, p: nat): nat
    requires i <= |lists|
  {
    Before(lists, p) + Alive(lists[..i], p)
  }

  lemma {:induction false} BeforeNext<T>(lists: seq<seq<T>>, p: nat)
    ensures Before(lists, p + 1) == Before(lists, p) + Alive(lists, p)
    ensures |Round(lists, p)| == Alive(lists, p)
  {
    if lists != [] { BeforeNext(lists[1..], p); }
  }

  lemma {:induction false} RoundAt<T>(lists: seq<seq<T>>, i: nat, p: nat)
    requires i < |lists| && p < |lists[i]|
    ensures Alive(lists[..i], p) < |Round(lists, p)| && Round(lists, p)[Alive(lists[..i], p)] == lists[i][p]
  {
    if i > 0 {
      assert lists[..i][1..] == lists[1..][..i-1];
      RoundAt(lists[1..], i - 1, p);
    }
  }

  lemma {:induction false} MergedAtFrom<T>(lists: seq<seq<T>>, q: nat, i: nat, p: nat)
    requires i < |lists| && q <= p < |lists[i]|
    ensures Before(lists, q) <= LandsAt(lists, i, p) < Before(lists, q) + |Merged(lists, q)|
    ensures Merged(lists, q)[LandsAt(lists, i, p) - Before(lists, q)] == lists[i][p]
    decreases p - q
  {
    hide Before, Alive, Round, Longest;
    LongestBounds(lists, i);
    BeforeNext(lists, q);
    if q == p {
      RoundAt(lists, i, p);
    } else {
      MergedAtFrom(lists, q + 1, i, p);
      var at := LandsAt(lists, i, p) - Before(lists, q);
      assert Merged(lists, q)[at] == Merged(lists, q + 1)[at - |Round(lists, q)|];
    }
  }

  lemma {:induction false} NothingBefore<T>(lists: seq<seq<T>>)
    ensures Before(lists, 0) == 0
  {
    if lists != [] { NothingBefore(lists[1..]); }
  }

  /** Every entry of every node lands at a known index of the result. */
  lemma MergedAt<T>(lists: seq<seq<T>>, i: nat, p: nat)
    requires i < |lists| && p < |lists[i]|
    ensures LandsAt(lists, i, p) < |Merged(lists, 0)|
    ensures Merged(lists, 0)[LandsAt(lists, i, p)] == lists[i][p]
  {
    NothingBefore(lists);
    MergedAtFrom(lists, 0, i, p);
  }

  lemma {:induction false} BeforeGrows<T>(lists: seq<seq<T>>, p: nat, q: nat)
    requires p <= q
    ensures Before(lists, p) <= Before(lists, q)
  {
    if lists != [] { BeforeGrows(lists[1..], p, q); }
  }

  lemma {:induction false} AliveBelow<T>(lists: seq<seq<T>>, i: nat, p: nat)
    requires i < |lists| && p < |lists[i]|
    ensures Alive(lists[..i], p) < Alive(lists, p)
    ensures forall j | 0 <= j < i :: Alive(lists[..j], p) <= Alive(lists[..i], p)
  {
    if i > 0 {
      assert lists[..i][1..] == lists[1..][..i-1];
      AliveBelow(lists[1..], i - 1, p);
      forall j | 0 <= j < i ensures Alive(lists[..j], p) <= Alive(lists[..i], p) {
        if j > 0 { assert lists[..j][1..] == lists[1..][..j-1]; }
      }
    }
  }

  /** Entries at a lower position come first, whatever their node; in particular the order within a node is
      kept and no two entries share an index. */
  lemma RoundsInOrder<T>(lists: seq<seq<T>>, i: nat, p: nat, j: nat, q: nat)
    requires i < |lists| && p < |lists[i]| && j < |lists| && q < |lists[j]|
    requires p < q || (p == q && i < j)
    ensures LandsAt(lists, i, p) < LandsAt(lists, j, q)
  {
    AliveBelow(lists, i, p);
    if p < q {
      BeforeNext(lists, p);
      BeforeGrows(lists, p + 1, q);
    } else {
      AliveBelow(lists[..j], i, p);
      assert lists[..j][..i] == lists[..i];
    }
  }

  /** Exactly the first `a` entries of node `i` are in the first `n` of the result. */
  ghost predicate Taken<T>(lists: seq<seq<T>>, i: nat, n: nat, a: nat)
    requires i < |lists|
  {
    && a <= |lists[i]|
    && (forall p | 0 <= p < |lists[i]| :: LandsAt(lists, i, p) < n <==> p < a)
  }

  /** No node gets ahead: in every prefix of the result, two nodes that both have entries left differ by at
      most one. */
  lemma NoNodeGetsAhead<T>(lists: seq<seq<T>>, n: nat, i: nat, j: nat, a: nat, b: nat)
    requires i < |lists| && j < |lists| && Taken(lists, i, n, a) && Taken(lists, j, n, b)
    requires a < |lists[i]| && b < |lists[j]|
    ensures a <= b + 1 && b <= a + 1
  {
    if a > b + 1 { RoundsInOrder(lists, j, b, i, a - 1); }
    if b > a + 1 { RoundsInOrder(lists, i, a, j, b - 1); }
  }

  /** There always is such a number. */
  lemma TakenExists<T>(lists: seq<seq<T>>, i: nat, n: nat) returns (a: nat)
    requires i < |lists|
    ensures Taken(lists, i, n, a)
  {
    a := 0;
    while a < |lists[i]| && LandsAt(lists, i, a) < n
      invariant a <= |lists[i]|
      invariant forall p | 0 <= p < a :: LandsAt(lists, i, p) < n
    {
      a := a + 1;
    }
    forall p | a < p < |lists[i]| ensures LandsAt(lists, i, p) >= n { RoundsInOrder(lists, i, a, i, p); }
  }

  // ----- Nothing is lost or duplicated

  /** All entries from position `q` on. */
  ghost function Remaining<T>(lists: seq<seq<T>>, q: nat): multiset<T>
  {
    if lists == [] then multiset{}
    else (if q < |lists[0]| then multiset(lists[0][q..]) else multiset{}) + Remaining(lists[1..], q)
  }

  lemma {:induction false} RemainingNext<T>(lists: seq<seq<T>>, q: nat)
    ensures Remaining(lists, q) == multiset(Round(lists, q)) + Remaining(lists, q + 1)
  {
    if lists != [] {
      RemainingNext(lists[1..], q);
      var head := if q < |lists[0]| then [lists[0][q]] else [];
      if q < |lists[0]| { assert lists[0][q..] == head + lists[0][q+1..]; }
      assert multiset(Round(lists, q)) == multiset(head) + multiset(Round(lists[1..], q));
    }
  }

  lemma {:induction false} NoneRemain<T>(lists: seq<seq<T>>, q: nat)
    requires q >= Longest(lists)
    ensures Remaining(lists, q) == multiset{}
  {
    if lists != [] { NoneRemain(lists[1..], q); }
  }

  lemma {:induction false} MergedRemains<T>(lists: seq<seq<T>>, q: nat)
    ensures multiset(Merged(lists, q)) == Remaining(lists, q)
    decreases Longest(lists) - q
  {
    if q >= Longest(lists) {
      NoneRemain(lists, q);
    } else {
      MergedRemains(lists, q + 1);
      RemainingNext(lists, q);
    }
  }

  ghost function All<T>(lists: seq<seq<T>>): multiset<T>
  {
    if lists == [] then multiset{} else multiset(lists[0]) + All(lists[1..])
  }

  lemma {:induction false} AllRemain<T>(lists: seq<seq<T>>)
    ensures Remaining(lists, 0) == All(lists)
  {
    if lists != [] {
      AllRemain(lists[1..]);
      assert lists[0][0..] == lists[0];
    }
  }

  /** The result is a permutation of all nodes' entries. */
  lemma MergedIsPermutation<T>(lists: seq<seq<T>>)
    ensures multiset(Merged(lists, 0)) == All(lists)
  {
    MergedRemains(lists, 0);
    AllRemain(lists);
  }
}
