/** What loading the mock files registers: which endpoints, in which order, and under which ids. */
module Loading {
  import opened Endpoints

  /** An endpoint read from a mock file, and whether its response templates can be initialised. */
  datatype Source = Source(endpoint: Endpoint, templatesValid: bool)

  function Itoa(n: nat): string
  {
    var digit := ['0' + (n % 10) as char];
    if n < 10 then digit else Itoa(n / 10) + digit
  }

  /** Endpoints without an id get their running number. */
  function Numbered(ep: Endpoint, n: nat): Endpoint
  {
    if |ep.id| == 0 then ep.(id := Itoa(n)) else ep
  }

  /** What loading registers: the numbered endpoints but those with broken templates. */
  function Loaded(sources: seq<Source>): seq<Endpoint>
  {
    if sources == [] then []
    else
      var n := |sources| - 1;
      Loaded(sources[..n]) + if sources[n].templatesValid then [Numbered(sources[n].endpoint, n + 1)] else []
  }

  /** A mock file is its endpoints, or unreadable. */
  type MockFile = Option<seq<Source>>

  function AllSources(files: seq<MockFile>): seq<Source>
  {
    if files == [] then []
    else AllSources(files[..|files|-1]) + files[|files|-1].GetOr([])
  }

  // ----- Running numbers

  /** The number a decimal stands for. */
  function Value(s: string): int
  {
    if s == "" then 0 else Value(s[..|s|-1]) * 10 + (s[|s|-1] as int - '0' as int)
  }

  /** A running number is written in digits only, without leading zeros, and can be read back. */
  lemma {:induction false} ItoaReadsBack(n: nat)
    ensures Itoa(n) != "" && Value(Itoa(n)) == n
    ensures forall k | 0 <= k < |Itoa(n)| :: '0' <= Itoa(n)[k] <= '9'
    ensures Itoa(n)[0] == '0' ==> n == 0
  {
    var digit := ['0' + (n % 10) as char];
    if n < 10 {
      assert Itoa(n) == digit && digit[..0] == "";
      assert Value(digit[..0]) == 0;
    } else {
      ItoaReadsBack(n / 10);
      assert Itoa(n)[..|Itoa(n)|-1] == Itoa(n / 10);
    }
  }

  /** So different running numbers are different ids. */
  lemma ItoaDiffers(m: nat, n: nat)
    requires Itoa(m) == Itoa(n)
    ensures m == n
  {
    ItoaReadsBack(m);
    ItoaReadsBack(n);
  }

  // ----- Which endpoints

  /** The running number of the endpoint in front of the first one of file `f`. */
  function Offset(files: seq<MockFile>, f: nat): nat
    requires f <= |files|
  {
    if f == 0 then 0 else Offset(files, f - 1) + if files[f-1].Some? then |files[f-1].value| else 0
  }

  lemma {:induction false} OffsetOfPrefix(files: seq<MockFile>, n: nat, f: nat)
    requires f <= n <= |files|
    ensures Offset(files[..n], f) == Offset(files, f)
  {
    if f > 0 { OffsetOfPrefix(files, n, f - 1); }
  }

  lemma {:induction false} SourcesCounted(files: seq<MockFile>)
    ensures |AllSources(files)| == Offset(files, |files|)
  {
    if files != [] {
      var n := |files| - 1;
      SourcesCounted(files[..n]);
      OffsetOfPrefix(files, n, n);
    }
  }

  /** Entry `j` of file `f` comes after all entries of the files before and the entries before it. */
  lemma {:induction false} SourceAt(files: seq<MockFile>, f: nat, j: nat)
    requires f < |files| && files[f].Some? && j < |files[f].value|
    ensures Offset(files, f) + j < |AllSources(files)|
    ensures AllSources(files)[Offset(files, f) + j] == files[f].value[j]
  {
    var n := |files| - 1;
    SourcesCounted(files[..n]);
    OffsetOfPrefix(files, n, n);
    if f < n {
      SourceAt(files[..n], f, j);
      OffsetOfPrefix(files, n, f);
    }
  }

  /** How many of the first `k` endpoints are not skipped. */
  function Kept(sources: seq<Source>, k: nat): nat
    requires k <= |sources|
  {
    if k == 0 then 0 else Kept(sources, k - 1) + if sources[k-1].templatesValid then 1 else 0
  }

  lemma {:induction false} KeptOfPrefix(sources: seq<Source>, n: nat, k: nat)
    requires k <= n <= |sources|
    ensures Kept(sources[..n], k) == Kept(sources, k)
  {
    if k > 0 { KeptOfPrefix(sources, n, k - 1); }
  }

  lemma {:induction false} LoadedCounted(sources: seq<Source>)
    ensures |Loaded(sources)| == Kept(sources, |sources|)
  {
    if sources != [] {
      var n := |sources| - 1;
      LoadedCounted(sources[..n]);
      KeptOfPrefix(sources, n, n);
    }
  }

  /** Source `k`, unless skipped, is registered after those kept before it, as configured but for a missing id,
      which becomes its running number, skipped endpoints counted. */
  lemma {:induction false} LoadedAt(sources: seq<Source>, k: nat)
    requires k < |sources| && sources[k].templatesValid
    ensures Kept(sources, k) < |Loaded(sources)|
    ensures var ep := Loaded(sources)[Kept(sources, k)];
      && ep.prio == sources[k].endpoint.prio && ep.request == sources[k].endpoint.request
      && ep.id == if sources[k].endpoint.id != "" then sources[k].endpoint.id else Itoa(k + 1)
  {
    var n := |sources| - 1;
    LoadedCounted(sources[..n]);
    KeptOfPrefix(sources, n, k);
    if k < n { LoadedAt(sources[..n], k); }
  }

  /** Nothing else is registered. */
  lemma {:induction false} LoadedFrom(sources: seq<Source>, m: nat) returns (k: nat)
    requires m < |Loaded(sources)|
    ensures k < |sources| && sources[k].templatesValid && Kept(sources, k) == m
  {
    var n := |sources| - 1;
    LoadedCounted(sources[..n]);
    KeptOfPrefix(sources, n, n);
    if m < |Loaded(sources[..n])| {
      k := LoadedFrom(sources[..n], m);
      KeptOfPrefix(sources, n, k);
    } else {
      k := n;
    }
  }

  /** Of the files: entry `j` of file `f`, unless skipped, is registered under its configured id or, if it has
      none, under the decimal of its place among the entries of all files. */
  lemma FileEntryLoaded(files: seq<MockFile>, f: nat, j: nat)
    requires f < |files| && files[f].Some? && j < |files[f].value| && files[f].value[j].templatesValid
    ensures var sources, k := AllSources(files), Offset(files, f) + j; k < |sources| && Kept(sources, k) < |Loaded(sources)|
    ensures var sources, k, configured := AllSources(files), Offset(files, f) + j, files[f].value[j].endpoint;
      var ep := Loaded(sources)[Kept(sources, k)];
      && ep.prio == configured.prio && ep.request == configured.request
      && (configured.id != "" ==> ep.id == configured.id)
      && (configured.id == "" ==> Value(ep.id) == k + 1 && forall d | 0 <= d < |ep.id| :: '0' <= ep.id[d] <= '9')
  {
    SourceAt(files, f, j);
    LoadedAt(AllSources(files), Offset(files, f) + j);
    ItoaReadsBack(Offset(files, f) + j + 1);
  }
}
