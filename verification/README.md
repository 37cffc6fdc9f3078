# Mockgo verification

A Dafny model of the core of mockgo, a server that answers HTTP requests from configured mock endpoints, with
proofs about it. Three parts of the program are modelled.

* **The endpoint index and the router.** Registering an endpoint cuts its path at the slashes, folds `{name}` into
  `*`, and hangs nodes below each other in a tree; inside a node endpoints lie in buckets by method and host, meant to
  be in descending priority. A request walks the tree from the root, segment by segment, preferring the literal child to
  `*` and `*` to `**`, and never goes back. At the node it lands on, candidates are checked against query, headers and
  body; a match or a mismatch is recorded.
* **The match stores.** In memory: a bounded list and a counter per endpoint. On Redis: the same as a sequence of
  commands, which interleave when several servers share the database. Over gRPC: every server keeps its own records, and
  queries and deletes visit the servers one after the other.
* **The replicated key-value store.** A put goes to all servers in list order and stops at the first failure; reads are
  local.

## How the model is built

What the program changes in place is a class with those fields (`SearchTree.EpSearchNode`,
`RequestHandler.RequestHandler`, `MatchStore.InMemoryMatchstore`, `RedisStore.RedisMatchstore`, `Cluster.GrpcMatchstore`,
`KeyValueStore.InmemoryStorage`, `KeyValueStore.GrpcStorage`), and its loops are loops. Each method is proved against
a function on values: the linked nodes against `Index.Index`, a map from paths to nodes; the walk against
`Walk.Run`, one state per round; the stores against `MatchStore.History`. What the program promises is then proved
about these functions, over every history of registrations, every request and every run. Concurrency is a state
machine: one Redis command, one remote call or one local operation is one step, and a run is any sequence of steps, some
of which may fail.

| module | about |
|---|---|
| `Paths`, `Patterns`, `Endpoints` | segments, the documented meaning of patterns, endpoint keys |
| `Buckets`, `Index` | priority buckets and the index as a value |
| `Walk`, `Routing` | the walk, what every round keeps, and what that promises for one request |
| `Requests`, `Soundness`, `Completeness`, `Exactness` | for which configurations the walk is right about every request |
| `Witnesses`, `Documented` | configurations outside those classes, with the endpoint that is lost or wrongly served; the documented parameter examples |
| `Selection`, `Serving` | choosing a candidate; one request end to end |
| `Loading` | which endpoints the mock files register, and under which ids |
| `SearchTree`, `RequestHandler` | the linked nodes and the imperative router |
| `MatchStore`, `RedisStore`, `RedisConcurrency` | in-memory store, Redis store in sequence and under concurrency |
| `ClusterMerge`, `Cluster` | merging, counting and deleting over all servers |
| `Remote` | how a call to another process ends |
| `KeyValueStore`, `Replication` | the key-value store and the replication of puts |

## What the proofs show

* **The walk is sound, and exactly when.** Every request lands on a matching pattern only, if and only if each `**`
  followed directly by a path's first empty segment (a trailing slash, say) has a `*` registered beside it
  (`Soundness.SoundIffGuarded`, and on the registered paths `Soundness.BuildSoundExactly`). Registering `/foo/` does no harm;
  `/a/**/` does (`Witnesses.TrailingSlashServesWrongly`).
* **The walk is complete, and exactly when.** Such a guarded index lands every request without a `**` segment of its own
  on exactly the registered patterns it matches if and only if the patterns are clear (`Exactness.ExactIffClear`,
  `Exactness.RightIffGuardedAndClear`). Without empty segments that means (`Exactness.ClearIffApart`): two patterns part before
  any `**`, and if both go on there, with two literals; and behind its first `**` a pattern ends in `**`, has each literal
  directly after a `**`, and no `*` there. A path with an empty segment is itself never matched, but what comes before that
  segment can hide others, and is part of the condition. For requests that contain `**` literally, patterns must be free of it
  (`Exactness.ExactForAllIff`). The documentation promises matching without these restrictions; the code is what is modelled
  (`Witnesses.LiteralHidesEndpoint`, `Witnesses.SkippingMissesEndpoint`).
* **Buckets are in descending order, and exactly when.** The documented precedence by priority holds for a bucket if and
  only if every registered endpoint had a higher priority than some earlier one of the bucket or at least that of all
  earlier ones (`Buckets.FillSortedExactly`): an endpoint that beats none of them is put in front
  (`Witnesses.LowerPriorityIsServed`). Across the two buckets consulted, the host counts and the priority does not
  (`Serving.HostComesFirst`, `Witnesses.HostOutranksPriority`), so all candidates are in order if and only if, besides, no
  endpoint for the host has a lower priority than one without (`Serving.CandidatesSortedExactly`); then the served endpoint
  has the highest priority of all that meet the criteria (`Serving.ServedHasHighestPriority`).
* **The body is read once.** The documented choice is made for all bodies and regular expressions if and only if at most
  one candidate with a body expression can be reached (`Selection.IdealIffOneReader`, `Witnesses.BodyIsUsedUp`).
* **Buckets are not confused, and exactly when.** Bucket keys are method and host run together; the request methods that
  find endpoints of other methods are described exactly (`Selection.FiledRightlyIffNotMisleading`).
* **The in-memory store is bounded for every capacity but 65535** (`MatchStore.BoundedExactly`), and at every other
  capacity holds the last records and their exact number (`MatchStore.HistoryExactly`).
* **Redis under concurrency** keeps a contiguous end of the log, never pops an empty list in a run without deletes, and comes to rest
  between two bounds, both of which are reached (`RedisConcurrency.AtRestExactly`, `RedisConcurrency.FloorIsReached`); it
  is the exact window if and only if at most one add is in flight or the capacity is 0 (`RedisConcurrency.WindowIffAlone`).
  With deletes, the counter is right if and only if at most one operation is in flight
  (`RedisConcurrency.CountsSurviveIffAlone`). In sequence, Redis and memory agree if and only if endpoint names are
  distinct from the store's own keys (`RedisStore.AgreeIffDistinct`).
* **Replication**: while puts to one key do not overlap, each replica always holds the latest put that reached it, and
  a put that finishes heals what failed before (`Replication.AlwaysConsistent`, `Replication.LastPutHeals`,
  `Replication.SerialAgrees`). With overlaps, agreement after success is guaranteed if and only if there is one replica at most
  (`Replication.AgreementIffAlone`).

## Assumptions

* Each in-memory operation, and the routing of one request, is atomic.
* A nil map of the original is an empty map; the original never leaves one allocated but empty.
* Which texts a regular expression accepts is a parameter (`Selection.Accepts`); so are the time stamps of records, the
  outcome of remote calls, whether a mock file can be read, and whether an endpoint's response templates are valid.
* A body whose reading fails goes on failing.
* Records and values survive their JSON form unchanged, and records are compared as such. The list of clients names each server
  exactly once, in the same order on all servers.

## Model

| member | source | states |
|---|---|---|
| Paths.SplitThenJoin | mockgo/mock/requestHandler.go:247-248 | cutting a path at the slashes loses nothing and leaves no slash in a segment |
| Paths.JoinThenSplit | mockgo/mock/requestHandler.go:442-443 | segments joined for a report are recovered by cutting again, so a path and its segments determine each other |
| Paths.Effective | mockgo/mock/requestHandler.go:308-309 | what is routed on is the longest prefix of the segments without an empty one |
| Patterns.MatchesIffAligned | README.md:134-140 | the recursive reading of a pattern agrees with an alignment in which a literal takes itself, `*` one segment and `**` one or more |
| Patterns.MatchLength | README.md:136-140 | a match takes at least one segment per pattern segment, and exactly one without `**` |
| Patterns.DocumentedExamples | README.md:142-160 | the match column of the documented table comes out as documented under the meaning of patterns |
| Documented.DocumentedParameters | README.md:142-160 | the parameter column as the walk binds it for a server with the one endpoint of the row; "does not resolve" is an empty text |
| Endpoints.NodeKeysAt | mockgo/mock/requestHandler.go:252-256 | every segment of a pattern becomes its key, `{name}` becoming `*` with that name and any other segment itself without a name |
| Endpoints.BracedKey | mockgo/mock/requestHandler.go:253-256 | a segment `{name}` becomes `*` with that name, for every name |
| Endpoints.PlainKey | mockgo/mock/requestHandler.go:252-256 | every other segment is its own key and gives no name |
| Endpoints.DefaultedExactly | mockgo/mock/requestHandler.go:243-245 | a missing method becomes GET, and nothing else of an endpoint changes |
| Buckets.InsertEndpoint | mockgo/mock/requestHandler.go:274-286 | the scan and the overlapping shift compute the insertion of the bucket specification |
| Buckets.InsertIndexExactly | mockgo/mock/requestHandler.go:274-280 | the insertion index is the first entry of strictly lower priority, and 0 when there is none |
| Buckets.InsertKeepsEntries | mockgo/mock/requestHandler.go:281-286 | an insertion keeps all old entries in order around the new one |
| Buckets.FillKeepsEntries | mockgo/mock/requestHandler.go:274-286 | a bucket holds exactly the multiset of endpoints filed in it |
| Buckets.InsertSortedExactly | mockgo/mock/requestHandler.go:274-286 | the bucket is descending afterwards if and only if it was before and the new priority beats the last or reaches the first entry's |
| Buckets.FillSortedExactly | README.md:114 | after any history a bucket is descending if and only if every arrival had a higher priority than some earlier one or at least that of all earlier ones |
| Index.DescendExactly | mockgo/mock/requestHandler.go:248-262 | following a path creates and names exactly the nodes passed and changes no other node |
| Index.RegisterExactly | mockgo/mock/requestHandler.go:242-288 | one registration's effect on every node: existence, name and buckets |
| Index.BuildNodes | mockgo/mock/requestHandler.go:248-262 | after any history the nodes are the root and the prefixes of registered patterns |
| Index.BuildPrefixClosed | mockgo/mock/requestHandler.go:257-260 | every node but the root hangs below a node |
| Index.BuildBuckets | mockgo/mock/requestHandler.go:263-286 | after any history each bucket is the insertion, in order, of the endpoints registered for that path and key, and exists if and only if there is one |
| Index.BuildNames | mockgo/mock/requestHandler.go:252-261 | each node has the name written by the last registration that passed through it |
| Index.OwnNameExactly | mockgo/mock/requestHandler.go:252-261 | a segment of a registered endpoint goes by that endpoint's own name if and only if the last registration through the node gives it the same name |
| Index.FiledExactly | mockgo/mock/requestHandler.go:263-266 | the endpoints filed under a path and key are the registered ones with that path and key |
| Index.EveryEndpointInOneBucket | mockgo/mock/requestHandler.go:242-288 | a registered endpoint is in the bucket of its own path and key and in no other, with its multiplicity |
| Walk.AimStaysInside | mockgo/mock/requestHandler.go:318-327 | skipping below `**` ends at a child's segment of the request, or at none with the old position kept |
| Walk.StepMovesOrEnds | mockgo/mock/requestHandler.go:309-347 | every round either takes one segment of the effective request by the preferred key, or ends the walk for a stated reason |
| Walk.StepKeeps | mockgo/mock/requestHandler.go:309-347 | one round keeps the invariant tying node, position, `**` flag and parameters together: the node's pattern is aligned with the segments taken, and the parameters are those captured in that alignment |
| Walk.RunKeeps | mockgo/mock/requestHandler.go:309-347 | every walk keeps that invariant up to its last round and ends although the position is rewritten by the skipping |
| Routing.EmptyNeverMatches | README.md:136-140 | a pattern with an empty segment matches no effective request |
| Routing.RoutingSoundExactly | mockgo/mock/requestHandler.go:305-348 | the walk stays in the tree, and where a request lands the pattern matches it if and only if that pattern has no empty segment |
| Soundness.SoundIffGuarded | mockgo/mock/requestHandler.go:318-348 | for every index: all requests land on matching patterns only, if and only if every `**` with an empty key below it, and no empty key before it, has a `*` beside it |
| Soundness.BuildSoundExactly | mockgo/mock/requestHandler.go:242-348 | the same as a condition on the registered paths |
| Routing.DiagnosticsSound | mockgo/mock/requestHandler.go:310-335 | a failed walk reports an in-bounds position, the pattern of its node matches the segments before it, and no child takes the next one |
| Routing.CapturesExactly | mockgo/mock/requestHandler.go:336-341 | of several `*` nodes that bind one name the last one decides |
| Routing.PathParametersExactly | mockgo/mock/requestHandler.go:318-341 | for every request, one with literal `*` or `**` segments included: the captured map binds exactly the names of the named `*` nodes whose segment is not itself `*`, each to the segment taken there in the walk's own reading, in which behind a `**` a key stands for the first segment that is a child's key and a wildcard without one for the very next; directly below a `**` it is the empty text |
| Routing.FirstFitIsUnique | mockgo/mock/requestHandler.go:318-327 | that reading is unique, so every binding is determined by the index and the request |
| Routing.MostSpecificWins | mockgo/mock/requestHandler.go:328-344 | if another pattern matches too and no `**` precedes their first difference, the chosen one is strictly more specific there |
| Completeness.FindsMatch | mockgo/mock/requestHandler.go:309-347 | with guarded and clear patterns, a registered pattern that matches is landed on |
| Exactness.SiblingHides | mockgo/mock/requestHandler.go:328-344 | a preferred sibling of one of its keys, registered or merely on the way to something registered, loses a request that the pattern matches |
| Exactness.EndIsMissed | mockgo/mock/requestHandler.go:310-316 | so does a registered pattern with a `**` whose node has children or which does not end in `**` |
| Exactness.BranchIsMissed | mockgo/mock/requestHandler.go:318-327 | so does another literal or a `*` beside a key behind a `**` |
| Exactness.LiteralIsMissed | mockgo/mock/requestHandler.go:318-335 | so does a literal behind a `**` that does not come directly after one |
| Exactness.StarIsMissed | mockgo/mock/requestHandler.go:318-327 | so does a `*` directly below a `**`, for which a later `*` segment is taken |
| Exactness.ExactIffClear | mockgo/mock/requestHandler.go:309-347 | in a guarded index, with empty segments or not, every request without a `**` segment lands on exactly the registered patterns it matches if and only if the patterns are clear |
| Exactness.RightIffGuardedAndClear | mockgo/mock/requestHandler.go:309-347 | for every index: all requests land on matching nodes only, and those without a `**` segment on all registered patterns they match, if and only if it is guarded and the patterns are clear |
| Exactness.ExactForAllIff | mockgo/mock/requestHandler.go:309-347 | in a guarded index, every request without exception lands on exactly the registered patterns it matches if and only if the patterns are clear and free of `**` |
| Exactness.SpelledGlobIsMissed | mockgo/mock/requestHandler.go:328-344 | the request that spells out a pattern's `**` and goes on by one segment is lost |
| Exactness.ClearIffApart | mockgo/mock/requestHandler.go:309-347 | without empty segments, clear means: behind its first `**` each pattern is tame, and two patterns part before any `**`, if both go on there, with two literals |
| Exactness.BuildExactly | mockgo/mock/requestHandler.go:242-348 | after any registrations: sound for every request, and exact for those without a `**` segment, if and only if the registered paths are guarded and clear |
| Exactness.BuildExactlyForAll | mockgo/mock/requestHandler.go:242-348 | the same for every request without exception, with paths free of `**` |
| Exactness.UniqueMatch | mockgo/mock/requestHandler.go:309-347 | at most one of clear patterns matches a request |
| Exactness.ExactIffDeterministic | mockgo/mock/requestHandler.go:309-347 | without empty keys, exactness at every node, registered or not, holds if and only if no wildcard has a sibling and every `**` is a leaf |
| Exactness.ClearIsWider | mockgo/mock/requestHandler.go:309-347 | the one pattern `/p/**/l/**` is handled exactly although its index is not of that narrower kind |
| Witnesses.LiteralHidesEndpoint | mockgo/mock/requestHandler.go:328-344 | with `/a/b/x` registered, the endpoint at `/a/*/d` meets the request `/a/b/d` and nothing is served |
| Witnesses.SkippingMissesEndpoint | mockgo/mock/requestHandler.go:318-327 | the endpoint at `/p/**/last` meets the request `/p/x/last/last` and nothing is served |
| Witnesses.TrailingSlashServesWrongly | mockgo/mock/requestHandler.go:318-328 | the endpoint at `/a/**/` is served for `/a/b/c`, which its path does not match |
| Witnesses.BodyIsUsedUp | mockgo/mock/requestHandler.go:413-423 | of two endpoints with body expressions the first registered one meets the request and nothing is served |
| Witnesses.LowerPriorityIsServed | mockgo/mock/requestHandler.go:274-286 | an endpoint registered after one of higher priority on the same path is put in front of it and served |
| Witnesses.HostOutranksPriority | mockgo/mock/requestHandler.go:354-355 | an endpoint with the request's host is served before one of any higher priority without |
| Selection.SelectsFirstPassing | mockgo/mock/requestHandler.go:367-387 | the chosen candidate is the first that passes, the first reader seeing the body and all later ones a drained one |
| Selection.EligibleExactly | mockgo/mock/requestHandler.go:389-411 | an endpoint is eligible if and only if every wanted query key and every wanted header comes with the wanted value first, a missing one counting as empty |
| Selection.BodyMatchesExactly | mockgo/mock/requestHandler.go:413-423 | a body matches if and only if there is no expression, or the body can be read and is accepted |
| Selection.FailingBodyPassesNone | mockgo/mock/requestHandler.go:415-419 | a request whose body cannot be read is never answered by an endpoint with a body expression |
| Selection.HostNameCutsPort | mockgo/mock/requestHandler.go:354-354 | the name of a host with a port or without one is the host |
| Selection.ChosenHasHighestPriority | mockgo/mock/requestHandler.go:355-360 | in a descending bucket no other passing endpoint has a higher priority than the chosen one |
| Selection.IdealIffOneReader | mockgo/mock/requestHandler.go:413-423 | the choice is the documented one for every body and all expressions if and only if at most one body expression can be reached |
| Selection.ConsultedExactly | mockgo/mock/requestHandler.go:263-266 | for ordinary methods an endpoint is consulted if and only if its method is the request's and its host, if any, is the request's |
| Selection.RightlyIffNoDash | mockgo/mock/requestHandler.go:354-355 | for a request method that does not begin with `+`, all endpoints with ordinary methods are consulted rightly if and only if it has no dash |
| Selection.FiledRightlyIffNotMisleading | mockgo/mock/requestHandler.go:354-355 | for every request method, the endpoints as they are filed are consulted rightly if and only if it has no dash behind another first character and is not spelled like a key of a method and a host |
| Selection.DashesConfuseBuckets | mockgo/mock/requestHandler.go:354-355 | with a dash in a method, an endpoint of another method and host is consulted |
| Serving.CandidatesExactly | mockgo/mock/requestHandler.go:352-360 | the candidates at a node are exactly the registered endpoints of its path, the method and the host |
| Serving.FiledAsConfigured | mockgo/mock/requestHandler.go:243-266 | every registered endpoint is found as configured, with GET for a missing method, in the bucket of its method or of its method and host |
| Serving.DefaultMethodIsGet | README.md:117 | an endpoint without method and host is offered to GET requests and to no others |
| Serving.HostedIsCandidate | mockgo/mock/requestHandler.go:354-355 | an endpoint that wants a host is offered to the requests of its method for that host, with any port or none |
| Serving.MeetsExactly | mockgo/mock/requestHandler.go:352-423 | all criteria spelled out: path, method, host without port, query, headers and body |
| Serving.ServedSoundly | mockgo/mock/requestHandler.go:297-387 | whatever is served was registered and meets path, method, host, query and header criteria, the latter two spelled out |
| Serving.ServedExactly | mockgo/mock/requestHandler.go:297-387 | with guarded and clear paths and one body reader, a request is served if and only if some registered endpoint meets all criteria; a request with a `**` segment needs paths free of `**` |
| Serving.CandidatesSortedExactly | README.md:114 | what a request consults at a node is in descending priority if and only if each of its two buckets was filled in an order that keeps it sorted and every endpoint for the host has at least the priority of every one without |
| Serving.ServedHasHighestPriority | README.md:114 | then no endpoint consulted there that meets the criteria has a higher priority than the served one |
| Serving.OfferedHasNoHigherPriority | README.md:114 | the same in terms of path, method and host, for the methods that are looked up rightly |
| Serving.ServedHasTopPriority | README.md:114 | if only the served endpoint's own bucket was filled in such an order, no endpoint of that bucket that meets the criteria has a higher priority |
| Serving.HostComesFirst | mockgo/mock/requestHandler.go:354-355 | whenever an endpoint that wants the request's host meets the criteria, one that wants it is served, whatever the priorities |
| Serving.ReportExactly | mockgo/mock/requestHandler.go:352-387 | the report tells exactly apart: no endpoint for the path, none for method and host, none with these attributes |
| Serving.LostReportMatches | mockgo/mock/requestHandler.go:433-446 | the reported sub-path, cut again, is matched by the pattern of the node where the walk failed |
| Serving.LostAtRootReport | mockgo/mock/requestHandler.go:442-446 | when the walk fails at the root, the reported sub-path is empty |
| Serving.RecordedExactly | mockgo/mock/requestHandler.go:425-454 | a served request adds one match under the id of the served endpoint and nothing else, any other request one mismatch with the report and nothing else |
| Serving.RequestsConserved | mockgo/mock/requestHandler.go:425-454 | over every run without deletes, match counts plus mismatch count are the requests routed, modulo 2^64, whatever was reloaded in between |
| SearchTree.AddChild | mockgo/mock/requestHandler.go:257-259 | hanging a fresh node below another keeps the tree without sharing |
| SearchTree.GetOrAddChild | mockgo/mock/requestHandler.go:257-260 | a missing child is created empty, a present one is left as it is |
| SearchTree.NoSharing | mockgo/mock/model.go:51-55 | no two paths lead to the same node |
| SearchTree.NodeLinks | mockgo/mock/model.go:51-55 | the links of a node are the children of its path, and missing links mean a leaf |
| SearchTree.Rename | mockgo/mock/requestHandler.go:261-261 | naming a node changes that node's name and nothing else |
| SearchTree.Enter | mockgo/mock/requestHandler.go:249-261 | one step down creates a missing child and names it, and changes nothing else |
| SearchTree.EnterPath | mockgo/mock/requestHandler.go:247-262 | the loop down a path does what following the path does to the index |
| SearchTree.FileEndpoint | mockgo/mock/requestHandler.go:263-286 | filing changes the one bucket of the endpoint's key |
| SearchTree.RegisterEndpoint | mockgo/mock/requestHandler.go:242-288 | in-place registration keeps the tree shape and does to the represented index what the specification does; what that finds later is Serving.FiledAsConfigured |
| Loading.ItoaReadsBack | mockgo/mock/requestHandler.go:126-126 | a running number is written in digits without leading zeros and read back as the same number |
| Loading.ItoaDiffers | mockgo/mock/requestHandler.go:126-126 | different running numbers are different ids |
| Loading.SourceAt | mockgo/mock/requestHandler.go:118-124 | the entries of all files are numbered through, file by file in order |
| Loading.LoadedAt | mockgo/mock/requestHandler.go:123-133 | each entry that is not skipped is registered in order, unchanged but for a missing id, which becomes its running number, skipped entries counted |
| Loading.LoadedFrom | mockgo/mock/requestHandler.go:122-133 | nothing else is registered |
| Loading.FileEntryLoaded | mockgo/mock/requestHandler.go:118-133 | entry j of file f goes by its configured id or, without one, by the decimal of its place among the entries of all files |
| RequestHandler.TreeSoundExactly | mockgo/mock/requestHandler.go:318-348 | a tree of linked nodes routes every request soundly if and only if its index is guarded |
| RequestHandler.LoadTraceBuilds | mockgo/mock/requestHandler.go:118-133 | loading step by step yields the index built from all loadable endpoints in order |
| RequestHandler.LoadSource | mockgo/mock/requestHandler.go:122-133 | an endpoint is numbered and registered, or skipped when its templates are broken |
| RequestHandler.LoadFile | mockgo/mock/requestHandler.go:122-134 | the loop over the endpoints of one file goes on with the running number |
| RequestHandler.LoadTree | mockgo/mock/requestHandler.go:111-134 | the loops over files and endpoints fill a fresh tree, and fail if and only if a file is unreadable |
| RequestHandler.RequestHandler.LoadFiles | mockgo/mock/requestHandler.go:110-138 | success replaces the index by the one of all loaded endpoints, which Loading.FileEntryLoaded describes; failure leaves the current one |
| RequestHandler.RequestHandler.AimAt | mockgo/mock/requestHandler.go:318-327 | the skipping loop finds the position and segment of the specification |
| RequestHandler.RequestHandler.FollowSegment | mockgo/mock/requestHandler.go:328-344 | the choice among the children on linked nodes is that of the specification |
| RequestHandler.RequestHandler.Round | mockgo/mock/requestHandler.go:310-346 | one round on linked nodes leaves the outcome of the specified walk unchanged and moves the position on |
| RequestHandler.RequestHandler.FollowPath | mockgo/mock/requestHandler.go:304-348 | the loop over linked nodes computes the walk of the specification on the represented index |
| RequestHandler.RequestHandler.MatchValues | mockgo/mock/requestHandler.go:389-411 | the loop answers whether every wanted key comes with its wanted value first, a missing key counting as empty |
| RequestHandler.RequestHandler.MatchBody | mockgo/mock/requestHandler.go:413-423 | true without an expression or for a readable, accepted body; reading for an expression leaves an empty body, and an endpoint without one leaves it alone |
| RequestHandler.RequestHandler.MatchEndPointsAttributes | mockgo/mock/requestHandler.go:367-387 | the loop chooses as specified and leaves the body as the candidates checked so far left it |
| RequestHandler.RequestHandler.MatchSearchNode | mockgo/mock/requestHandler.go:352-365 | choosing records exactly one match or one mismatch with the specified report |
| RequestHandler.RequestHandler.MatchRequestToEndpoint | mockgo/mock/requestHandler.go:297-350 | a routed request yields the specified endpoint and parameters, exactly one record, and an unchanged index |
| MatchStore.InMemoryMatchstore.GetMatches | mockgo/matches/inmemoryMatchstore.go:32-41 | all held matches in order, none for an unknown endpoint |
| MatchStore.InMemoryMatchstore.GetMatchesCount | mockgo/matches/inmemoryMatchstore.go:46-48 | the count of the endpoint, 0 for an unknown one |
| MatchStore.InMemoryMatchstore.GetMismatches | mockgo/matches/inmemoryMatchstore.go:53-59 | all held mismatches in order |
| MatchStore.InMemoryMatchstore.AddMatch | mockgo/matches/inmemoryMatchstore.go:76-87 | the new state: appended, evicted by the 16-bit comparison, counted; other endpoints untouched |
| MatchStore.InMemoryMatchstore.AddMismatch | mockgo/matches/inmemoryMatchstore.go:64-71 | the same for mismatches |
| MatchStore.InMemoryMatchstore.DeleteMatches | mockgo/matches/inmemoryMatchstore.go:99-108 | draining empties the list and the count of that endpoint only |
| MatchStore.InMemoryMatchstore.DeleteMismatches | mockgo/matches/inmemoryMatchstore.go:113-119 | draining empties the mismatches and their count only |
| MatchStore.PushKeepsWindow | mockgo/matches/inmemoryMatchstore.go:80-84 | adding to the window over a history gives the window over the longer history |
| MatchStore.HistoryExactly | mockgo/matches/inmemoryMatchstore.go:76-108 | after any history: exactly the last matches since the last delete of that endpoint, and their number modulo 2^64 |
| MatchStore.MismatchHistoryExactly | mockgo/matches/inmemoryMatchstore.go:64-119 | the same for mismatches |
| MatchStore.BoundedExactly | mockgo/matches/inmemoryMatchstore.go:82-84 | the capacity bounds every list in every history if and only if it is not 65535 |
| MatchStore.Conservation | mockgo/matches/inmemoryMatchstore.go:64-87 | over every delete-free history all counts together number the records added, modulo 2^64 |
| RedisStore.RedisMatchstore.AddMatch | mockgo-redis/matchstore/matchstore.go:71-92 | the command sequence and its error exits, as one operation on the keyspace |
| RedisStore.RedisMatchstore.AddMismatch | mockgo-redis/matchstore/matchstore.go:94-115 | the same for mismatches |
| RedisStore.RedisMatchstore.DeleteMatches | mockgo-redis/matchstore/matchstore.go:126-137 | succeeds if and only if both commands do, with list and counter reset; a failure of the first leaves the counter as it was |
| RedisStore.RedisMatchstore.DeleteMismatches | mockgo-redis/matchstore/matchstore.go:139-150 | the same for mismatches |
| RedisStore.RedisMatchstore.GetMatches | mockgo-redis/matchstore/matchstore.go:26-42 | all stored entries in order, none for a missing key, an error for a key of another type; after any history of adds and deletes, the last records since the last delete |
| RedisStore.RedisMatchstore.GetMatchesCount | mockgo-redis/matchstore/matchstore.go:44-51 | after any history of adds and deletes, the number of records added since the last delete, or an error while the endpoint was never used |
| RedisStore.IncrementedExactly | mockgo-redis/matchstore/matchstore.go:87-90 | a counter counts up to the largest signed 64-bit number and fails from there on |
| RedisStore.WrongTypeFails | mockgo-redis/matchstore/matchstore.go:77-90 | a command on a key that holds the other kind of value fails and changes nothing |
| RedisStore.AddHolds | mockgo-redis/matchstore/matchstore.go:71-92 | an add keeps list and counter what they should be after the longer history, succeeds, and touches no other key |
| RedisStore.PerformHolds | mockgo-redis/matchstore/matchstore.go:71-150 | the same for every operation |
| RedisStore.RedisHistoryExactly | mockgo-redis/matchstore/matchstore.go:71-150 | after any history on separate keys: the last records since the last delete, and a counter with their number once it exists |
| RedisStore.StoresAgree | mockgo-redis/matchstore/matchstore.go:26-150 | run in sequence, both stores give the same matches if and only if the capacity is not 65535 or was not exceeded, and the same counts once the counter exists |
| RedisStore.AgreeIffDistinct | mockgo-redis/matchstore/matchstore.go:12-150 | both stores agree about all endpoints in all histories if and only if no endpoint has the name of the mismatch list, of its counter, or of another endpoint's counter |
| RedisStore.NameIsTaken | mockgo-redis/matchstore/matchstore.go:77-91 | the history that shows it: after a first record, an endpoint named like the counter of that list records nothing |
| RedisConcurrency.PushIsCommand | mockgo-redis/matchstore/matchstore.go:77-80 | in every state a push is the command on the keyspace; when its reply is lost the add ends there |
| RedisConcurrency.LenIsCommand | mockgo-redis/matchstore/matchstore.go:81-81 | the length in the keyspace decides about the trim, and a failed query means none |
| RedisConcurrency.PopIsCommand | mockgo-redis/matchstore/matchstore.go:82-85 | a trim is the command on the keyspace; it fails exactly on a list that is gone, and then the add ends there |
| RedisConcurrency.IncrIsCommand | mockgo-redis/matchstore/matchstore.go:87-91 | the count is the command on the keyspace, and the add ends with it whether it fails or not |
| RedisConcurrency.DelIsCommand | mockgo-redis/matchstore/matchstore.go:128-131 | the first command of a delete removes the list; without its reply the delete ends there |
| RedisConcurrency.SetIsCommand | mockgo-redis/matchstore/matchstore.go:132-135 | the second one resets the counter, or fails and leaves it |
| RedisConcurrency.SoloAddIsAdd | mockgo-redis/matchstore/matchstore.go:71-92 | the steps of an undisturbed add are the sequential operation |
| RedisConcurrency.SoloAddFails | mockgo-redis/matchstore/matchstore.go:77-91 | an undisturbed add that fails: only a failed length query lets it go on, without trimming; every other failure ends it uncounted, with what its commands did left standing |
| RedisConcurrency.SoloDeleteSteps | mockgo-redis/matchstore/matchstore.go:126-137 | an undisturbed delete empties the list and resets the counter; failing after the first command it leaves the counter as it was |
| RedisConcurrency.SoloDeleteIsDelete | mockgo-redis/matchstore/matchstore.go:126-137 | the steps of an undisturbed delete are the sequential operation |
| RedisConcurrency.DoSafe | mockgo-redis/matchstore/matchstore.go:71-137 | every command, failing, with its reply lost or neither, keeps the list an end of the log and within capacity plus the trims pending, failed or never tried |
| RedisConcurrency.AlwaysSafe | mockgo-redis/matchstore/matchstore.go:71-137 | that holds in every run, with deletes, failures and lost replies |
| RedisConcurrency.DoKept | mockgo-redis/matchstore/matchstore.go:77-91 | every command of an add keeps the lower bounds and the counter equation, and never pops an empty list |
| RedisConcurrency.AlwaysKept | mockgo-redis/matchstore/matchstore.go:77-91 | those hold in every delete-free run |
| RedisConcurrency.NothingLost | mockgo-redis/matchstore/matchstore.go:77-91 | without failures no trim is skipped and no count is lost |
| RedisConcurrency.AtRestExactly | mockgo-redis/matchstore/matchstore.go:71-92 | at rest the list is an end of the log between floor and capacity, and the counter is the number of pushes |
| RedisConcurrency.FloorIsReached | mockgo-redis/matchstore/matchstore.go:81-86 | for every capacity and number of processes some run comes to rest with exactly the floor |
| RedisConcurrency.WindowIffAlone | mockgo-redis/matchstore/matchstore.go:81-86 | every run at rest holds the full window if and only if at most one add is in flight or the capacity is 0 |
| RedisConcurrency.CountsSurviveIffAlone | mockgo-redis/matchstore/matchstore.go:71-137 | for every capacity: in every failure-free run at rest, with deletes, the counter is the number of pushes since the last delete if and only if at most one operation is in flight |
| RedisConcurrency.AddAcrossDelete | mockgo-redis/matchstore/matchstore.go:77-91 | a delete between the push and the count of an add leaves a counter of 1 and no record |
| RedisConcurrency.DeleteForgetsCount | mockgo-redis/matchstore/matchstore.go:126-137 | an add between the two commands of a delete leaves a stored record and a counter of 0 |
| ClusterMerge.MergeLists | mockgo-grpc/matchstore/matchstore.go:145-157 | the loops terminate and take one entry per node and round until all have run out |
| ClusterMerge.MergedAt | mockgo-grpc/matchstore/matchstore.go:148-157 | entry p of node i lands at the number of entries at earlier positions plus the lower nodes' entries at p |
| ClusterMerge.RoundsInOrder | mockgo-grpc/matchstore/matchstore.go:148-157 | entries at lower positions, and at equal positions of lower nodes, come first |
| ClusterMerge.NoNodeGetsAhead | mockgo-grpc/matchstore/matchstore.go:148-157 | in every prefix two nodes with entries left differ by at most one |
| ClusterMerge.TakenExists | mockgo-grpc/matchstore/matchstore.go:148-157 | every prefix takes a definite number of first entries of each node |
| ClusterMerge.MergedIsPermutation | mockgo-grpc/matchstore/matchstore.go:145-159 | the result is a permutation of all nodes' entries |
| Cluster.GrpcMatchstore.GetMatches | mockgo-grpc/matchstore/matchstore.go:130-160 | succeeds if and only if all calls do, with the merge of all nodes' lists |
| Cluster.GrpcMatchstore.GetMatchesCount | mockgo-grpc/matchstore/matchstore.go:162-176 | succeeds if and only if all calls do, with the sum of all counts modulo 2^64 |
| Cluster.GrpcMatchstore.DeleteMatches | mockgo-grpc/matchstore/matchstore.go:211-223 | the nodes before the first failing call, possibly the failing one, have no match and a count of 0 for the endpoint, all else on them as before; every other node is unchanged |
| Cluster.AlwaysBetween | mockgo-grpc/matchstore/matchstore.go:162-176 | at every moment of a count with adds interleaved, given up or not, the partial sum lies between the visited nodes' counts at the start and now |
| Cluster.CountIsBetween | mockgo-grpc/matchstore/matchstore.go:162-176 | a finished count lies between the totals at its start and end, and is the total when nothing interleaves |
| Cluster.VisitsAreDelete | mockgo-grpc/matchstore/matchstore.go:215-220 | the steps of an undisturbed delete do to the nodes what the loop does |
| Cluster.FailureIsDelete | mockgo-grpc/matchstore/matchstore.go:216-219 | and so does a delete that fails at one node |
| Cluster.DeleteExactly | mockgo-grpc/matchstore/matchstore.go:211-223 | at every moment a cleared node holds exactly what it recorded since its own clear step, and a node not reached what its own records left |
| Cluster.NothingOldSurvives | mockgo-grpc/matchstore/matchstore.go:211-223 | after a successful delete every remaining match was recorded while it ran |
| KeyValueStore.ReadAfterPut | mockgo/kvstore/storage.go:41-60 | a written value is read back and no other key of any store changes |
| KeyValueStore.InmemoryStorage.GetAll | mockgo/kvstore/storage.go:30-36 | exactly the keys of a store with their values, none for an unknown store |
| KeyValueStore.InmemoryStorage.Get | mockgo/kvstore/storage.go:41-47 | the stored value, or null for an unknown store or key |
| KeyValueStore.InmemoryStorage.Put | mockgo/kvstore/storage.go:52-60 | creates the store when missing and writes the one key |
| KeyValueStore.GrpcStorage.Put | mockgo-grpc/kvstore/kvstore.go:78-93 | succeeds if and only if all calls do; the clients before the first failing one are written, possibly that one, and no other |
| Replication.DeliveredIsPut | mockgo-grpc/kvstore/kvstore.go:84-91 | the steps of an undisturbed put do to the replicas what the loop does |
| Replication.DoConsistent | mockgo-grpc/kvstore/kvstore.go:63-93 | every step of puts that do not overlap per key keeps each replica at the latest put that reached it |
| Replication.AlwaysConsistent | mockgo-grpc/kvstore/kvstore.go:63-93 | that holds in every such run, whatever fails and whatever is put to other keys meanwhile |
| Replication.NewPrefixOldSuffix | mockgo-grpc/kvstore/kvstore.go:84-91 | during a put a prefix of the replicas holds the new value and the rest what earlier puts left |
| Replication.LastPutHeals | mockgo-grpc/kvstore/kvstore.go:84-92 | once the last put to a key has finished, all replicas hold its value, whatever failed before |
| Replication.QuietReplicasAgree | mockgo-grpc/kvstore/kvstore.go:84-92 | with no put to a key in flight or failed, all replicas agree on it |
| Replication.SerialAgrees | mockgo-grpc/kvstore/kvstore.go:84-92 | without overlaps per key, any number of replicas agree on everything once all puts have finished |
| Replication.AgreementIffAlone | mockgo-grpc/kvstore/kvstore.go:84-92 | with overlaps allowed, all failure-free finished runs leave the replicas in agreement if and only if there is at most one replica |
| Replication.OverlapDiverges | mockgo-grpc/kvstore/kvstore.go:84-92 | for every number of replicas from two on, two overlapping puts that both succeed leave the first replica with one value and all others with the other |
| Replication.AlwaysHonest | mockgo-grpc/kvstore/kvstore.go:63-93 | in every run, overlapping or not, a replica holds nothing that was not put to that key |

## Left out

- Rendering of templates, parsing and finding of mock files, the meaning of regular expressions, HTTP routing and handlers, authentication, metrics and logging: library code and plumbing.
- The query map handed to templates and the details of endpoint mismatches inside `no attribute match` reports: texts only.
- Canonical spelling of header names: headers are looked up under the configured name.
- Identity of endpoint objects: endpoints are values, so the default method written into a configured endpoint is part of the filed value, and a later change of the object is not seen by the tree.
- Spare capacity of bucket slices: a bucket is a sequence, so what `append` writes behind the end of a shared backing array is not modelled.
- Data races on the unsynchronised maps and lists, and the variables shared between the matcher and the handler of a route: operations are atomic here.
- Redis: retries, timeouts, the expiry of keys and other clients of the database; the concurrent model follows one list and its counter.
- Mismatches over Redis and gRPC beyond adding and deleting on Redis: reading and counting them is a plain copy of the match case or a concatenation.
- The mapping of matches to and from their wire form, which fails on a match without a response: field by field copying.
- KeyValueStore.InmemoryStorage.GetAll: returns a copy, where the original hands out the live map.
- Exactness.ExactIffClear: leaves out unguarded indexes, on which routing is not sound by Soundness.SoundIffGuarded; which registered patterns are found there all the same is not described.
- Cluster.CountIsBetween: assumes that the total stays below 2^64, and that nothing is deleted meanwhile.
- RedisStore.StoresAgree: assumes fewer than 2^63 operations, which is where the counter of Redis ends, and keys that are not each other's counters.
- The key-value store on Redis, which answers differently from the in-memory one for missing keys.
