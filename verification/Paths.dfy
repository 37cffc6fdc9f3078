/** URL paths and their segments: the splitting that both the registration of
    endpoints and the routing of requests start from. */
module Paths {

  type Segment = string
  type Path = seq<Segment>

  const STAR: Segment := "*"
  const GLOB: Segment := "**"

  /** Cuts `s` at every `sep`, as Go's `strings.Split` does for a one-character separator. */
  function Split(s: string, sep: char): (parts: seq<string>)
    ensures |parts| >= 1
  {
    if s == "" then [""]
    else
      var rest := Split(s[1..], sep);
      if s[0] == sep then [""] + rest
      else [[s[0]] + rest[0]] + rest[1..]
  }

  /** Concatenates `parts` with `sep` between them, as Go's `strings.Join` does. */
  function Join(parts: seq<string>, sep: char): string
  {
    if parts == [] then ""
    else if |parts| == 1 then parts[0]
    else parts[0] + [sep] + Join(parts[1..], sep)
  }

  /** Splitting loses nothing, and no part keeps a separator. */
  lemma {:induction false} SplitThenJoin(s: string, sep: char)
    ensures Join(Split(s, sep), sep) == s
    ensures forall part | part in Split(s, sep) :: sep !in part
  {
    if s != "" {
      var rest := Split(s[1..], sep);
      SplitThenJoin(s[1..], sep);
      if s[0] == sep {
        assert ([""] + rest)[1..] == rest;
      } else {
        var parts := [[s[0]] + rest[0]] + rest[1..];
        assert parts[1..] == rest[1..];
        assert Join(parts, sep) == [s[0]] + Join(rest, sep);
        forall part | part in parts ensures sep !in part {
          if part != parts[0] { assert part in rest; } else { assert rest[0] in rest; }
        }
      }
    }
  }

  /** Separator-free parts come back unchanged, so a path determines its segments and is determined by them. */
  lemma {:induction false} JoinThenSplit(parts: seq<string>, sep: char)
    requires |parts| >= 1
    requires forall part | part in parts :: sep !in part
    ensures Split(Join(parts, sep), sep) == parts
  {
    if |parts| == 1 {
      SplitPart(parts[0], "", sep);
      assert parts[0] + "" == parts[0];
    } else {
      JoinThenSplit(parts[1..], sep);
      SplitPart(parts[0], [sep] + Join(parts[1..], sep), sep);
      var tail := [sep] + Join(parts[1..], sep);
      assert tail[1..] == Join(parts[1..], sep);
      assert parts[0] + tail == Join(parts, sep);
      assert Split(tail, sep) == [""] + parts[1..];
      assert parts[0] + "" == parts[0];
    }
  }

  lemma {:induction false} SplitPart(part: string, tail: string, sep: char)
    requires sep !in part
    ensures var rest := Split(tail, sep); Split(part + tail, sep) == [part + rest[0]] + rest[1..]
  {
    if part == "" {
      var rest := Split(tail, sep);
      assert part + tail == tail && part + rest[0] == rest[0];
    } else {
      SplitPart(part[1..], tail, sep);
      assert (part + tail)[1..] == part[1..] + tail;
      assert part[0] in part;
      var rest := Split(tail, sep);
      assert [part[0]] + (part[1..] + rest[0]) == part + rest[0];
    }
  }

  /** What is routed on: everything after the first slash, cut at the slashes. */
  function Segments(path: string): Path
  {
    Split(path, '/')[1..]
  }

  /** The segment at `pos`, or the empty segment past the end. */
  function GetPathSegment(segments: Path, pos: nat): Segment
  {
    if pos < |segments| then segments[pos] else ""
  }

  /** The segments before the first empty one. */
  function Effective(segments: Path): (r: Path)
    ensures r <= segments
    ensures forall k | 0 <= k < |r| :: r[k] != ""
    ensures |r| == |segments| || segments[|r|] == ""
  {
    if segments == [] || segments[0] == "" then []
    else
      var rest := Effective(segments[1..]);
      [segments[0]] + rest
  }
}
