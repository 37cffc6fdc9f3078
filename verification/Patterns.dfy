/** The documented meaning of path patterns, as a predicate on segments and as
    an alignment that says which segments each pattern segment stands for. */
module Patterns {
  import opened Paths

  /** A literal stands for itself, `*` for one segment, `**` for one or more. */
  predicate Matches(pattern: Path, request: Path)
  {
    if pattern == [] then request == []
    else if pattern[0] == GLOB then
      exists n | 1 <= n <= |request| :: Matches(pattern[1..], request[n..])
    else
      && request != []
      && (pattern[0] == STAR || pattern[0] == request[0])
      && Matches(pattern[1..], request[1..])
  }

  predicate Fits(segment: Segment, request: Path, from: nat, to: nat)
  {
    && from < to <= |request|
    && (segment == GLOB || (to == from + 1 && (segment == STAR || segment == request[from])))
  }

  /** Pattern segment `k` stands for `request[cut[k]..cut[k+1]]`. */
  predicate Aligned(pattern: Path, request: Path, cut: seq<nat>)
  {
    && |cut| == |pattern| + 1
    && cut[0] == 0 && cut[|pattern|] == |request|
    && forall k | 0 <= k < |pattern| :: Fits(pattern[k], request, cut[k], cut[k+1])
  }

  lemma AlignedCons(s: Segment, pattern: Path, request: Path, n: nat, cut: seq<nat>)
    requires Fits(s, request, 0, n) && Aligned(pattern, request[n..], cut)
    ensures Aligned([s] + pattern, request, [0] + seq(|cut|, k requires 0 <= k < |cut| => cut[k] + n))
  {
    var wide := [0] + seq(|cut|, k requires 0 <= k < |cut| => cut[k] + n);
    forall k | 0 <= k < |pattern| + 1 ensures Fits(([s] + pattern)[k], request, wide[k], wide[k+1]) {
      if k > 0 { assert Fits(pattern[k-1], request[n..], cut[k-1], cut[k]); }
    }
  }

  lemma {:induction false} AlignedTail(pattern: Path, request: Path, cut: seq<nat>)
    requires pattern != [] && Aligned(pattern, request, cut)
    ensures forall k | 1 <= k <= |pattern| :: cut[1] <= cut[k]
    ensures Aligned(pattern[1..], request[cut[1]..], seq(|pattern|, k requires 0 <= k < |pattern| => if cut[k+1] >= cut[1] then cut[k+1] - cut[1] else 0))
  {
    var j := 1;
    while j < |pattern|
      invariant 1 <= j <= |pattern|
      invariant forall k | 1 <= k <= j :: cut[1] <= cut[k]
    {
      assert Fits(pattern[j], request, cut[j], cut[j+1]);
      j := j + 1;
    }
    assert Fits(pattern[0], request, cut[0], cut[1]);
    var low := seq(|pattern|, k requires 0 <= k < |pattern| => if cut[k+1] >= cut[1] then cut[k+1] - cut[1] else 0);
    forall k | 0 <= k < |pattern| - 1 ensures Fits(pattern[1..][k], request[cut[1]..], low[k], low[k+1]) {
      assert Fits(pattern[k+1], request, cut[k+1], cut[k+2]);
    }
  }

  /** The two readings of a pattern agree. */
  lemma {:induction false} MatchesIffAligned(pattern: Path, request: Path)
    ensures Matches(pattern, request) <==> exists cut :: Aligned(pattern, request, cut)
  {
    if pattern == [] {
      if request == [] { assert Aligned(pattern, request, [0]); }
    } else {
      if Matches(pattern, request) {
        var n := if pattern[0] == GLOB then
          var m :| 1 <= m <= |request| && Matches(pattern[1..], request[m..]); m else 1;
        MatchesIffAligned(pattern[1..], request[n..]);
        var cut :| Aligned(pattern[1..], request[n..], cut);
        AlignedCons(pattern[0], pattern[1..], request, n, cut);
        assert [pattern[0]] + pattern[1..] == pattern;
      }
      if cut :| Aligned(pattern, request, cut) {
        AlignedTail(pattern, request, cut);
        assert Fits(pattern[0], request, cut[0], cut[1]);
        MatchesIffAligned(pattern[1..], request[cut[1]..]);
      }
    }
  }

  /** One more segment on both sides. */
  lemma AlignedSnoc(pattern: Path, request: Path, cut: seq<nat>, s: Segment, v: Segment)
    requires Aligned(pattern, request, cut)
    requires s == v || s == STAR || s == GLOB
    ensures Aligned(pattern + [s], request + [v], cut + [|request| + 1])
  {
    var cut', request' := cut + [|request| + 1], request + [v];
    forall k | 0 <= k < |pattern| + 1 ensures Fits((pattern + [s])[k], request', cut'[k], cut'[k+1]) {
      if k < |pattern| { assert Fits(pattern[k], request, cut[k], cut[k+1]); }
    }
  }

  /** A final `**` takes in whatever follows. */
  lemma AlignedAbsorb(pattern: Path, request: Path, cut: seq<nat>, more: Path)
    requires Aligned(pattern, request, cut)
    requires pattern != [] && pattern[|pattern|-1] == GLOB
    ensures Aligned(pattern, request + more, cut[|pattern| := |request + more|])
  {
    var cut', request' := cut[|pattern| := |request + more|], request + more;
    forall k | 0 <= k < |pattern| ensures Fits(pattern[k], request', cut'[k], cut'[k+1]) {
      assert Fits(pattern[k], request, cut[k], cut[k+1]);
    }
  }

  lemma {:induction false} MatchLength(pattern: Path, request: Path)
    requires Matches(pattern, request)
    ensures |pattern| <= |request| && (GLOB !in pattern ==> |pattern| == |request|)
  {
    if pattern != [] {
      var n := if pattern[0] == GLOB then
        var m :| 1 <= m <= |request| && Matches(pattern[1..], request[m..]); m else 1;
      MatchLength(pattern[1..], request[n..]);
    }
  }

  lemma NoMatch(pattern: Path, request: Path)
    requires |pattern| > |request| || (GLOB !in pattern && |pattern| != |request|)
    ensures !Matches(pattern, request)
  {
    if Matches(pattern, request) { MatchLength(pattern, request); }
  }

  lemma AMatch(pattern: Path, request: Path, cut: seq<nat>)
    requires Aligned(pattern, request, cut)
    ensures Matches(pattern, request)
  {
    MatchesIffAligned(pattern, request);
  }

  /** The documented examples, a path parameter being a `*`. */
  lemma DocumentedExamples()
    ensures !Matches(["foo", STAR], ["bar"]) && !Matches(["foo", STAR], ["foo"])
    ensures Matches(["foo", STAR], ["foo", "bar"]) && !Matches(["foo", STAR], ["foo", "bar", "foo"])
    ensures !Matches(["foo", STAR, "bar"], ["foo", "bar"]) && Matches(["foo", STAR, "bar"], ["foo", "bar", "bar"])
    ensures !Matches(["foo", STAR, STAR], ["foo", "bar", "bar", "foo"])
    ensures Matches(["foo", STAR, STAR], ["foo", "bar", "bar"])
    ensures !Matches(["foo", GLOB], Effective(["foo", ""])) && Matches(["foo", GLOB], ["foo", "bar"])
    ensures Matches(["foo", GLOB], ["foo", "bar", "1", "2", "3"])
    ensures Matches(["foo", GLOB, STAR], ["foo", "bar", "1"])
    ensures !Matches(["foo", GLOB, "foo", STAR], ["foo", "bar", "foo"])
    ensures Matches(["foo", GLOB, "foo", STAR], ["foo", "bar", "1", "2", "foo", "3"])
  {
    hide Matches;
    NoMatch(["foo", STAR], ["bar"]);
    NoMatch(["foo", STAR], ["foo"]);
    AMatch(["foo", STAR], ["foo", "bar"], [0, 1, 2]);
    NoMatch(["foo", STAR], ["foo", "bar", "foo"]);
    NoMatch(["foo", STAR, "bar"], ["foo", "bar"]);
    AMatch(["foo", STAR, "bar"], ["foo", "bar", "bar"], [0, 1, 2, 3]);
    NoMatch(["foo", STAR, STAR], ["foo", "bar", "bar", "foo"]);
    AMatch(["foo", STAR, STAR], ["foo", "bar", "bar"], [0, 1, 2, 3]);
    NoMatch(["foo", GLOB], Effective(["foo", ""]));
    AMatch(["foo", GLOB], ["foo", "bar"], [0, 1, 2]);
    AMatch(["foo", GLOB], ["foo", "bar", "1", "2", "3"], [0, 1, 5]);
    AMatch(["foo", GLOB, STAR], ["foo", "bar", "1"], [0, 1, 2, 3]);
    NoMatch(["foo", GLOB, "foo", STAR], ["foo", "bar", "foo"]);
    AMatch(["foo", GLOB, "foo", STAR], ["foo", "bar", "1", "2", "foo", "3"], [0, 1, 4, 5, 6]);
  }
}
