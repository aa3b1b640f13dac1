# folio-insights: verified models of its bounded walks, append-only files and rewriting loops

This project models, in Dafny, the parts of folio-insights whose behaviour is hardest to see from one
function body, and proves what they promise. `dafny verify dfyconfig.toml` checks everything.

## What is modelled

**The bounded dependency graph** (`api/routes/shard.py`). `DependencyGraph` says what the graph around a shard
is: the four dependency fields, who depends on whom, chains in each direction (a kernel node ends an upstream
branch) and shortest distances. `GraphWalk` is the level-synchronous walk in both directions, loop by loop, with
the inverse index it builds, the node cap and the test for a depth cut. `GraphProperties` proves the walk against
the definitions: distances are shortest, an uncapped walk is exact, a capped one drops the farthest nodes, and the
truncation flags are down exactly when the placed set is closed. `EdgeCap` is the edge selection, `BuildGraph` the
whole response, `GraphEdges` the fact that the returned edges join the returned nodes to the root, and exactly
when they do. Legacy corpora may hold cycles. On every graph, an uncapped walk places each ancestor and descendant
within `depth` as what it is, at its shortest distance, exactly when no node but the root is both within `depth`
(`ExactIffOneSided`). A root on no dependency cycle of `2 * depth` hops or fewer satisfies this, so every root of an
acyclic corpus does; `CycleHidesADescendant` is a cyclic corpus that does not. `CappedShards` is the view that lends
a derivation at most a fixed number of shards.

**The snapshot cache** (`api/routes/shard.py`). `Journal` holds the append-only rows and what the snapshot query
promises of them. `SnapshotCache` interleaves any number of reading threads, at their lock and transaction
boundaries, with writers, and proves that a cached read is always the uncached one. `OrderedCache` is the bounded
ordered dictionary that this cache and the manifest's caches share.

**Bridge ingest** (`src/folio_insights/bridge_ingest/`). `Mapping` is the grouping of propositions under minted
IRIs. `Ingest` is the retry loop against a store that any other writer may change between any two of its calls.
`Manifest` has the loops of the provenance manifest and its locked section on a file object; `ManifestProtocol`
interleaves appenders and lock-free readers of any number of processes, with their per-process caches, and `ManifestRuns`
says what each caller gets from it.

**Text formats.** `PyText` is the part of Python's `str` that they rest on: ordering, white space, line boundaries.
`Tokens` is the operator tokens file: printer, appender and parser (`src/folio_insights/api_cli.py`, `api/auth.py`).
`Lockfile` is the lockfile pin script (`scripts/pin_folio_resolve_lock.py`).

**Loops with exact specifications.** `Structure` is the explicit-stack bounds check of a JSON candidate
(`api/routes/validate.py`), `Spine` the ancestry walk to top-level branches (`src/folio_insights/bfo/spine.py`),
`ValidTime` the version windows of sources (`src/folio_insights/frameworks/valid_time.py`), `TaskForest` and
`TaskEdits` the task forest built from unconstrained parent links and the edits of it (`api/routes/discovery.py`).

`Sequences` and `Sorting` hold general facts about sequences and Python's stable `sorted`.

## Assumptions

* A journal only grows (its triggers refuse updates and deletes) and a row's operation ID stays with its position.
* The manifest lock gives mutual exclusion, and a payload written under it lands completely, in one or several steps of
  whole lines. A reader never sees part of a line, and a torn final line after a crash is outside the model.
* `ingest_shards` is atomic: an accepted batch is in the store, a refused one changed nothing, and any gate may
  refuse. Between any two calls of the ingest other writers may add or revise records, and never remove one.
* SHA-256 and `mint_shard_iri` are fixed functions; nothing else about them is used.
* A corpus holds one current shard per IRI. Task IDs are unique, and so are the pairs of task and unit in the link table
  (`src/folio_insights/persistence/review_db.py`, lines 139-166).
* Times are UTC midnights of proleptic Gregorian dates, which `datetime` bounds and the model does not.
* Strings are sequences of code points.

## Where the code and its documentation part

* The pin script says that it rewrites exactly one package's block and leaves every other byte of the lockfile alone
  (lines 10-12), a block being an entry line and its indented lines (lines 61-62). But it replaces everything up to the
  next entry, and reads with universal newlines. So the other bytes are left alone if and only if the target's block is
  followed by the next entry or the end of the file, and no carriage return is among them (`OtherBytesStay`). A line such
  as `b[x]==2` or a blank one after the block is deleted (`ExtraLineIsDeleted`); a changed file has no carriage return
  (`ReturnsAreRewritten`).
* A lockfile entry whose line has no word after `==` makes the pin write the file and then fail
  (`Outcome.FailedAfterWrite`).
* The comment at the end of the enacted branch of `infer_valid_time` says that the version date precedes the
  effective date. It may also follow a repeal; `InferValidTime` gives both cases.
* A move is meant to keep every task visible when its target is not in the moved task's own subtree. It also needs a
  target whose own parent chain ends: `MoveUnderACycleHides` is a move under a task on a cycle, and
  `MoveHidesNothingIffSafe` is the exact condition.
* A merge of a task into itself is not refused and drops its unit links with it (`MergeIntoItselfLosesUnits`), and a merge
  into an unknown task leaves units with no stored task; `MergeKeepsUnitsHeldIff` says exactly when none is left so.

## Model

| member | source | states |
|---|---|---|
| DependencyGraph.OutEdgesExact | api/routes/shard.py:429-434 | A shard's out-edges are exactly its (field, target) pairs, each once, in field order and within a field in the order in which its list first names them |
| DependencyGraph.SidesAreDisjoint | api/routes/shard.py:511-520 | A root on no cycle of `up + down` hops or fewer has nothing but itself both `up` hops upstream and `down` hops downstream |
| DependencyGraph.NotReachedAgain | api/routes/shard.py:511-520 | A root on no cycle is not reached again from itself |
| GraphWalk.DependentsOfExact | api/routes/shard.py:504-509 | A bucket of the inverse index lists exactly the shards that name the target |
| GraphWalk.NeighboursAreSteps | api/routes/shard.py:511-520 | What one hop iterates over is exactly the one-hop relation: no fields for kernel and dangling nodes upstream, all dependents downstream |
| GraphWalk.DependentsInOrder | api/routes/shard.py:504-509 | The dependents of a target are the shards whose record names it, each once and in commit order |
| GraphWalk.NeighboursInOrder | api/routes/shard.py:511-520 | Upstream a hop iterates over the record's targets, fields in order and each list in order, and over nothing for a kernel node; downstream over the dependents in commit order |
| GraphWalk.FreshIsFirst | api/routes/shard.py:528-537 | The fresh nodes of a neighbour list are its unplaced ones, each where it first stands |
| GraphWalk.CapIsBelow | api/routes/shard.py:529-534 | The hop that raises the flag has refused a neighbour of a node of its own frontier |
| GraphWalk.IndexShard | api/routes/shard.py:506-509 | One shard joins the bucket of every target it names, exactly once, at the end |
| GraphWalk.IndexDependents | api/routes/shard.py:504-509 | The index built on the fly holds every target's dependents in commit order |
| GraphWalk.PlaceNodeSound | api/routes/shard.py:535-537 | Placing a node keeps order, parents, the one tree pair per node, the cap and the flag sound (any graph) |
| GraphWalk.RefusalSound | api/routes/shard.py:532-534 | A refusal moves nothing and stays witnessed by an unplaced neighbour of a walked node |
| GraphWalk.Offer | api/routes/shard.py:529-537 | One neighbour is skipped, refused or placed, and nothing else changes |
| GraphWalk.VisitNode | api/routes/shard.py:528-537 | One frontier node's fresh neighbours are placed in list order, as many as the cap leaves room for, and the flag goes up exactly when there are more |
| GraphWalk.ExpandLevel | api/routes/shard.py:526-538 | One hop in one direction places, and makes the next frontier of, the first new nodes among all the frontier's neighbours in order, as many as there is room for |
| GraphWalk.ScanTwice | api/routes/shard.py:527-538 | Scanning two neighbour lists one after the other is scanning their concatenation, capped or not |
| GraphWalk.TakeHop | api/routes/shard.py:525-538 | A hop, upstream then downstream, keeps the loop invariant: frontiers, settled hops and the cap; the two new frontiers are what the hop added to the placing order |
| GraphWalk.RunWalk | api/routes/shard.py:504-545 | The finished walk is sound and settled, places no node later than a walked node offered it, reports a depth cut exactly when a node at the last distance has an unplaced neighbour, and raises the cap flag only for a nearer one (any graph) |
| GraphWalk.AnyUnplaced | api/routes/shard.py:540-545 | Says whether some frontier node has an unplaced neighbour |
| GraphProperties.DistanceIsAChain | api/routes/shard.py:520-538 | A placed node's distance is the length of some chain in its direction (any graph) |
| GraphProperties.OffCycleIsOneSided | src/folio_insights/graph_cli.py:3-7 | A root on no dependency cycle has no node on both its sides, at any distance |
| GraphProperties.NoShortCycleIsOneSided | src/folio_insights/graph_cli.py:3-7 | Nor within `n` hops if it is on no cycle of `2 * n` hops or fewer |
| GraphProperties.ChainIsPlaced | api/routes/shard.py:520-538 | Where no node but the root is on both sides within the completed hops, every chain of that length ends at a node placed on its side, no later |
| GraphProperties.DistancesAreShortest | api/routes/shard.py:520-538 | There every placed node carries its true shortest distance in its direction, capped or not |
| GraphProperties.ExactIffOneSided | api/routes/shard.py:520-538 | Without a refusal every ancestor and descendant within `depth` is placed as what it is, at its shortest distance, if and only if no node but the root is both (any graph) |
| GraphProperties.PlacedIsWithin | api/routes/shard.py:520-538 | Nothing beyond `depth` is placed (any graph) |
| GraphProperties.UncappedWalkIsExact | api/routes/shard.py:520-538 | Where no node but the root is both, an unrefused walk places exactly the ancestors and descendants within `depth` |
| GraphProperties.NearestFirst | api/routes/shard.py:478-483 | There, with or without a refusal, no unplaced reachable node is nearer than a placed one, and the cap is kept |
| GraphProperties.OneSidedWalk | api/routes/shard.py:478-483 | All three at once, from a condition on the corpus and `depth` alone |
| GraphProperties.OffCycleWalk | api/routes/shard.py:478-483 | All three around every root on no dependency cycle, at every depth and cap |
| GraphProperties.UntruncatedIffClosed | api/routes/shard.py:520-545 | The depth and node cap flags are both down exactly when the placed set is closed (any graph) |
| GraphProperties.FirstOfferWins | api/routes/shard.py:478-483 | Some walked node offers a node the place it has, and none an earlier one: the earlier hop wins, and upstream at equal hops (any graph, capped or not) |
| GraphProperties.LegacyIsCyclic | src/folio_insights/graph_cli.py:3-7 | A concrete legacy corpus with a cycle through the root |
| GraphProperties.LegacyIsTwoSided | src/folio_insights/graph_cli.py:3-7 | It has a node on both sides of the root within one hop |
| GraphProperties.CycleHidesADescendant | api/routes/shard.py:520-538 | On that corpus a descendant two hops away is placed at no depth and no cap |
| EdgeCap.RankOrderExact | api/routes/shard.py:446-450 | The rank order holds every position once, ascending by (field rank, position) |
| EdgeCap.Reaching | api/routes/shard.py:451-455 | Collects exactly the reserved positions, first of each tree pair, in key order |
| EdgeCap.Others | api/routes/shard.py:457 | Keeps the remaining positions in key order |
| EdgeCap.KeepEdges | api/routes/shard.py:437-458 | Exactly min(cap, n) input edges, in original order: between a kept and a dropped edge, the first edge of a tree pair goes before others, and among equals the earlier field and then the earlier place |
| EdgeCap.KeptIsChosen | api/routes/shard.py:440-458 | The selection is that one, told by the fields' order alone |
| EdgeCap.KeptIsUnique | api/routes/shard.py:440-443 | The promise of the selection determines it |
| EdgeCap.FirstOfPair | api/routes/shard.py:451-455 | Every tree pair with an edge has a reserved edge |
| EdgeCap.ReservedAtMostTree | api/routes/shard.py:440-443 | There are no more reserved edges than tree pairs |
| EdgeCap.TreePairIsKept | api/routes/shard.py:440-443 | Under a cap of at least the number of tree pairs, each one that has an edge keeps one |
| BuildGraph.LogicalEdgesExact | api/routes/shard.py:567-574 | The edge list holds each dependency between placed nodes exactly once |
| BuildGraph.LogicalEdgesInOrder | api/routes/shard.py:567-574 | Edges stand in node order, then field order, then in the order in which the list first names their targets |
| BuildGraph.CollectEdges | api/routes/shard.py:567-574 | The edge loop computes that list |
| BuildGraph.WalkTells | api/routes/shard.py:551-565 | Of the returned nodes, on any graph: the root first, each IRI once, hop by hop and upstream first, within the cap; each with its own stored and kernel marks, a direction and a distance that a chain from the root has, a returned node one hop before it that leads to it, and none that leads to it sooner |
| BuildGraph.WalkTellsOneSided | api/routes/shard.py:478-483 | Around a root alone on both sides within `depth`: returned distances are shortest, nothing left out is nearer than anything returned, and without a node cap reason the nodes are exactly those within `depth`, each with its own direction |
| BuildGraph.ResponseReasons | api/routes/shard.py:540-583 | The reasons, in this order: depth exactly when a returned node at distance `depth` has a neighbour left out, node cap exactly when a nearer one has, edge cap exactly when edges were dropped |
| BuildGraph.ResponseEdges | api/routes/shard.py:567-576 | The returned edges are the chosen ones of all dependencies between returned nodes, in order |
| BuildGraph.Build | api/routes/shard.py:461-594 | Bad bounds and unknown roots are refused exactly; otherwise nodes, edges and reasons are all of these, told of the response, the web and the request alone |
| GraphEdges.ChainFromRoot | api/routes/shard.py:437-458 | With edge cap at least nodes minus one, a node at distance d has a chain of exactly d returned edges from the root, in its direction |
| GraphEdges.JoiningNeedsEdges | api/routes/shard.py:437-458 | Joining every node takes at least nodes minus one edges |
| GraphEdges.JoinedIffCapAdmits | api/routes/shard.py:437-458 | Every returned node has a chain of as many returned edges as its distance, in its direction, through returned nodes one hop apart, if and only if the edge cap is at least nodes minus one |
| GraphEdges.RoutesJoinEveryNode | api/routes/shard.py:136-140 | The routes' caps of 500 nodes and 2000 edges always join every returned node |
| GraphEdges.NoReasonIffClosed | api/routes/shard.py:578-583 | The response gives neither the depth nor the node cap reason exactly when every neighbour of a returned node, in a direction it is walked in, is returned (any graph) |
| CappedShards.View.Get | api/routes/shard.py:608-616 | One request's effect on `lent` and `refused`, and its answer |
| CappedShards.AskSplits | api/routes/shard.py:608-616 | A request keeps `lent` and `refused` the first `cap` wanted IRIs and the others |
| CappedShards.WantedIsFirst | api/routes/shard.py:597-616 | The wanted IRIs are the requests for stored shards, each where it is first made |
| CappedShards.LentIsTheFirstWanted | api/routes/shard.py:597-616 | After any requests `lent` is the first `cap` distinct stored IRIs asked for, `refused` exactly the other ones, disjoint |
| CappedShards.AnswersNeverChange | api/routes/shard.py:597-616 | Every request for an IRI gets the same answer, whenever it is made |
| OrderedCache.TrimKeepsNewest | src/folio_insights/bridge_ingest/manifest.py:81-86 | Eviction leaves the end of the order, all of it or its last `max` keys, with their values |
| OrderedCache.PutEffect | src/folio_insights/bridge_ingest/manifest.py:81-86 | What a put leaves is the end of the other keys, in their order, and the key put |
| OrderedCache.PutStores | src/folio_insights/bridge_ingest/manifest.py:81-86 | A put stores its pair as the newest, keeps the bound and changes no other surviving entry |
| OrderedCache.Dict.PutNewest | src/folio_insights/bridge_ingest/manifest.py:81-86 | The loop that evicts computes the put |
| Journal.CurrentIsExact | api/routes/shard.py:291-319 | The rows folded one by one give, per shard subject, the latest payload and first position, ordered by first commit |
| Journal.CurrentIsUnique | api/routes/shard.py:298-305 | The query's promise has one answer |
| Journal.RevisionsExact | api/routes/shard.py:306-319 | The revision history is every shard row once, in commit order |
| Journal.ReadRowsExact | api/routes/shard.py:291-319 | A snapshot of committed rows has the latest payload and first position of every shard subject, every shard row as a revision, and the last position as its head |
| Journal.SnapshotIsUnique | api/routes/shard.py:291-319 | Committed rows amount to one snapshot |
| SnapshotCache.Store | api/routes/shard.py:370-381 | The locked section drops stale heads, stores this one as newest and evicts the oldest |
| SnapshotCache.CachedSnapshot | api/routes/shard.py:360-381 | An undisturbed call returns the snapshot of exactly the rows committed, or refuses a journal of another schema version or a corpus without rows, exactly then; it leaves a sound cache with the answer as its newest entry |
| SnapshotCache.UncachedAnswers | api/routes/shard.py:267-339 | An uncached read answers with the snapshot of the committed rows and the head that names the file and the last row, or with the refusal that is due |
| SnapshotCache.OneAnswer | api/routes/shard.py:267-339 | There is one such answer |
| SnapshotCache.HitIsCurrent | api/routes/shard.py:322-339 | Reading through a trusted view of the cache is reading without it |
| SnapshotCache.StoredSound | api/routes/shard.py:370-381 | Storing a trusted snapshot keeps the bound, one head per journal and corpus, and trust |
| SnapshotCache.StoredEffect | api/routes/shard.py:370-381 | Storing replaces every head of this journal and corpus by the new one, as the newest, drops only the oldest of the others and changes none |
| SnapshotCache.TrustSurvives | src/folio_insights/storage/journal.py:103-121 | Whatever a writer does, a trusted snapshot stays what the rows up to its head amount to |
| SnapshotCache.StepKeepsInv | api/routes/shard.py:356-381 | Every atomic step of any thread or writer keeps the cache sound |
| SnapshotCache.EveryRunKeepsInv | api/routes/shard.py:356-381 | So does every run: bounded cache, never two heads of one journal and corpus, all trusted |
| SnapshotCache.CachedReadsAgree | api/routes/shard.py:356-381 | In every run a cached read, when it reads, answers for the rows committed then: their snapshot and head, or the refusal that is due |
| SnapshotCache.HeldSnapshots | api/routes/shard.py:356-381 | In every run, what a call holds until it stores it is the snapshot of the rows up to its head, which are still in the journal |
| SnapshotCache.ReadAnswersItsCall | api/routes/shard.py:356-381 | In every run the first read step after a call answers for the journal and corpus of that call, for the rows committed by then, whatever came in between |
| SnapshotCache.StoresWhatItRead | api/routes/shard.py:370-381 | A call stores what it read as the newest entry, and is then over |
| Manifest.NewLinesExact | src/folio_insights/bridge_ingest/manifest.py:204-210 | New lines have fresh distinct keys, come from the candidates and leave no candidate key out |
| Manifest.NewLinesAreFirst | src/folio_insights/bridge_ingest/manifest.py:204-210 | They are the first candidate of every unseen key, each once and in order |
| Manifest.AppendKeepsKeys | src/folio_insights/bridge_ingest/manifest.py:203-226 | Appending them keeps every key on one line and records every candidate |
| Manifest.NothingNew | src/folio_insights/bridge_ingest/manifest.py:203-226 | An append adds nothing exactly when every candidate key is recorded |
| Manifest.RestIsStillNew | src/folio_insights/bridge_ingest/manifest.py:215-219 | Once the first new lines have landed, the others are exactly what is still new |
| Manifest.SelectNew | src/folio_insights/bridge_ingest/manifest.py:204-210 | The deduplicating loop selects the first candidate of every unseen key, in order, and extends the seen keys by theirs |
| Manifest.Screen | src/folio_insights/bridge_ingest/manifest.py:180-194 | The gate splits the lines into clean candidates and refused ones, each part in the order of the lines, losing none |
| Manifest.OneEntryLines | src/folio_insights/bridge_ingest/manifest.py:131-139 | An entry has one line per source, in order, with the corpus, its IRI and the source's document and proposition as key |
| Manifest.ManifestLinesJoin | src/folio_insights/bridge_ingest/manifest.py:131-139 | Entries follow one another |
| Manifest.GroupedIsUnique | src/folio_insights/bridge_ingest/manifest.py:233-252 | The grouping of a file by IRI is determined by the file |
| Manifest.GroupLines | src/folio_insights/bridge_ingest/manifest.py:246-250 | The loop maps exactly the IRIs that have a line of the corpus, each to all of its lines, in file order |
| Manifest.LinesForExact | src/folio_insights/bridge_ingest/manifest.py:246-250 | An IRI's lines are what stands at the positions, in ascending order, of its corpus and IRI |
| Manifest.SizeOfAppend | src/folio_insights/bridge_ingest/manifest.py:107-112 | Sizes add up, a line taking its text and its newline; a nonempty append makes the file strictly larger |
| Manifest.File.Append | src/folio_insights/bridge_ingest/manifest.py:211-222 | An append creates the file when needed and adds whole lines at its end |
| Manifest.SeenKeys | src/folio_insights/bridge_ingest/manifest.py:156-165 | Hit or rescan, the answer is the key set of the file |
| Manifest.AppendLocked | src/folio_insights/bridge_ingest/manifest.py:203-226 | The locked section adds, behind what was there, the first candidate of every key the file lacks, in order, keeps keys unique and leaves a cache that agrees with the file |
| ManifestProtocol.GroupIsGrouped | src/folio_insights/bridge_ingest/manifest.py:233-252 | The protocol's reads compute the grouping of the reading loop |
| ManifestProtocol.StampIdentifiesVersion | src/folio_insights/bridge_ingest/manifest.py:107-112 | Equal stamps mean the same version of the file, whatever the clock showed |
| ManifestProtocol.SeenIsRescan | src/folio_insights/bridge_ingest/manifest.py:156-165 | A cached key set whose stamp is the file's equals a full rescan |
| ManifestProtocol.ReadHit | src/folio_insights/bridge_ingest/manifest.py:233-252 | A read cache hit, even one filled under an older stamp, holds what the file held since the call began |
| ManifestProtocol.StepKeepsInv | src/folio_insights/bridge_ingest/manifest.py:168-252 | Every atomic step of any appender or reader keeps history, lock, threads and caches sound |
| ManifestProtocol.EveryRunKeepsInv | src/folio_insights/bridge_ingest/manifest.py:168-252 | So does every run |
| ManifestProtocol.NoKeyIsEverTwice | src/folio_insights/bridge_ingest/manifest.py:203-226 | In every run no key is ever on two lines |
| ManifestProtocol.AppendedMeansRecorded | src/folio_insights/bridge_ingest/manifest.py:168-230 | When an append has returned, all its candidates' keys are in the file, and repeating it adds nothing |
| ManifestProtocol.EveryLineWasOffered | src/folio_insights/bridge_ingest/manifest.py:168-230 | Every line of the file, as it stands, was a candidate of some append |
| ManifestProtocol.SelectionIsARescan | src/folio_insights/bridge_ingest/manifest.py:203-211 | What is about to be written under the lock is the first candidate of every key the file lacks, in order |
| ManifestProtocol.EndScanKeeps | src/folio_insights/bridge_ingest/manifest.py:115-128 | A scan that took its lines in several steps, with lines landing in between, ends on the file as it is at its last step |
| ManifestProtocol.ReadsAreInstants | src/folio_insights/bridge_ingest/manifest.py:233-252 | A finished lock-free read returned, for every IRI with a line of the corpus, all of its lines in order, as the file was at some instant since the call began |
| ManifestProtocol.EarlierLinesNeverChange | src/folio_insights/bridge_ingest/manifest.py:211-222 | No line in the file is ever changed, moved or removed |
| ManifestRuns.AppendRecordsItsCandidates | src/folio_insights/bridge_ingest/manifest.py:168-230 | In every run, when an append has returned, every line it was called with has its key in the file |
| ManifestRuns.ReadAnswersItsCall | src/folio_insights/bridge_ingest/manifest.py:233-252 | In every run, when a read has returned, it has, for the corpus it was called with, all lines of every IRI as the file was at some instant since that call |
| ManifestRuns.AppendGetsThrough | src/folio_insights/bridge_ingest/manifest.py:196-230 | From every reachable state with the lock free, an append left alone returns with the first candidate of every missing key added and the lock given back |
| ManifestRuns.ReadGetsThrough | src/folio_insights/bridge_ingest/manifest.py:233-252 | From every reachable state a read left alone returns the file's lines as they are, cached or not |
| Ingest.WriteNew | src/folio_insights/bridge_ingest/ingest.py:134-151 | One batch, then each shard alone: created and refused split the shards, both in order; the created ones are stored and were in a batch accepted after their last check, the refused ones were submitted alone and refused after it, and are in none; any other failure ends the writing and is raised, a plain refusal for a single shard only |
| Ingest.CheckRound | src/folio_insights/bridge_ingest/ingest.py:190-195 | A round checks every mapped shard once and splits them, in order, into ones it found stored and ones it found absent |
| Ingest.Recheck | src/folio_insights/bridge_ingest/ingest.py:216-222 | A refused shard that landed meanwhile moves to `existing`; the others were absent when checked last; no other IRI is checked |
| Ingest.RunRounds | src/folio_insights/bridge_ingest/ingest.py:189-214 | At most three rounds, each checking every mapped IRI once and submitting only IRIs absent then; what is returned splits the mapped IRIs, in order, by what the log says of each, a refused one having been refused alone; a storage failure, or a conflict on the caller's operation ID, is raised by the submission that met it, any other lost race only after the third round |
| Ingest.InMappedOrderKeeps | src/folio_insights/bridge_ingest/ingest.py:226-227 | Sorting the existing IRIs by mapped order loses and repeats none and puts them in mapped order |
| Ingest.WithIrisExact | src/folio_insights/bridge_ingest/ingest.py:231-234 | Filtering the manifest by landed IRIs keeps exactly their entries, each once and in mapped order |
| Ingest.IngestRecord | src/folio_insights/bridge_ingest/ingest.py:186-236 | Against any concurrent writer the three lists are the mapped IRIs, in mapped order, that were in a batch accepted after their last check, that their last check found, and that it did not find and no batch accepted after holds; each refused one had been submitted alone and refused before that check; the first two are stored, and the manifest entries offered are exactly theirs, in order |
| Mapping.MembersExact | src/folio_insights/bridge_ingest/mapping.py:266-278 | A group is never empty and holds exactly the usable propositions that mint its IRI |
| Mapping.MembersSorted | src/folio_insights/bridge_ingest/mapping.py:280-325 | An entry's sources are the propositions with text that mint its IRI, by type and ID, ties in record order |
| Mapping.FoundersOf | src/folio_insights/bridge_ingest/mapping.py:266-278 | Shards and entries stand in the order in which the record first mints their IRIs, and a group's hash is that of its first proposition |
| Mapping.KindsSorted | src/folio_insights/bridge_ingest/mapping.py:292 | The listed types are those of the sources, each once and ascending |
| Mapping.ShardIsLed | src/folio_insights/bridge_ingest/mapping.py:280-313 | Every shard has its span, relation, subject and speech act from the proposition that comes first, by type and ID and then record order, among those that mint its IRI; its span mints its IRI, and its hash too when one IRI has one hash |
| Mapping.DidOkExact | src/folio_insights/bridge_ingest/mapping.py:85 | A DID is accepted exactly when a scheme, one of three methods and a character that is no newline start it |
| Mapping.AccountedOnce | src/folio_insights/bridge_ingest/mapping.py:266-325 | Every proposition is accounted for once: skipped, or a source under its minted IRI |
| Mapping.ShardsHaveTheirIris | src/folio_insights/bridge_ingest/mapping.py:280-325 | Shard IRIs are distinct and aligned with the manifest |
| Mapping.PermutingPropositionsPermutesShards | src/folio_insights/bridge_ingest/mapping.py:280-325 | Permuting the record permutes shards and manifest entries and changes none |
| Mapping.GroupPropositions | src/folio_insights/bridge_ingest/mapping.py:266-278 | The loop groups in order of first appearance, lists the skipped in order with their reasons, and stops at the first proposition whose stamped IRI differs |
| Mapping.BuildShards | src/folio_insights/bridge_ingest/mapping.py:280-325 | The loop builds one shard and one manifest entry per minted IRI, in order, every field told of the record alone |
| Mapping.PropositionsToShards | src/folio_insights/bridge_ingest/mapping.py:242-325 | The four refusals in order, a mismatch naming the first differing proposition; success exactly when every stamped IRI is the minted one, and then shards, entries and skips, field by field, are what the record says |
| PyText.SplitAppend | api/auth.py:218 | Text added after a terminated text splits into the old lines and its own |
| PyText.SplitNewline | src/folio_insights/api_cli.py:51-56 | A newline at the end completes the last line or adds one blank line |
| PyText.SplitKeepExact | api/auth.py:218 | Lines make up the text; each ends in one boundary but perhaps the last, which may end in none; `\r\n` is one boundary |
| PyText.ChompExact | api/auth.py:218 | Dropping the terminator leaves exactly what stands before it |
| PyText.StrLtExact | src/folio_insights/bridge_ingest/mapping.py:290 | Strings compare by their first difference, a proper beginning first |
| Tokens.UnhexHex | api/auth.py:177-179 | Decoding the hex form of bytes gives the bytes |
| Tokens.DigestFieldRoundTrip | api/auth.py:177-179 | The printed digest field is well formed and reads back as the digest |
| Tokens.PrintedLineParses | api/auth.py:205-246 | A line printed for a valid handle and role parses to exactly its entry |
| Tokens.ParseExact | api/auth.py:210-246 | Lines are accepted exactly when none is malformed and no digest is listed twice, and give the entries on them, in order |
| Tokens.RefusalNamesFirst | api/auth.py:218-243 | A refusal names the first line that makes the file unacceptable |
| Tokens.FieldsAreWords | api/auth.py:222 | The fields are the maximal runs without white space, in order |
| Tokens.ParseLineSays | api/auth.py:218-243 | A line is skipped when blank or a comment, refused for the first thing wrong with it, or an entry: three fields, `sha256:` and the 64 digits of its digest, a handle of the pattern that does not look like a token, and one of the two roles |
| Tokens.ParseSays | api/auth.py:210-246 | A text without a line to refuse gives the entries of its entry lines, in order; otherwise the refusal of the first malformed or repeating line |
| Tokens.EntryLineSays | api/auth.py:205-207 | A line is printed exactly for a good handle and role: digest, handle and role |
| Tokens.ParseTokens | api/auth.py:210-246 | The parsing loop with its early refusals gives what the lines say |
| Tokens.LoadTokens | api/auth.py:263-291 | More than a mebibyte is refused before parsing |
| Tokens.AppendedLines | src/folio_insights/api_cli.py:51-56 | The appended file has the old lines, perhaps a blank one, and the new line |
| Tokens.AppendedFileParses | src/folio_insights/api_cli.py:47-59 | On any text the parser accepts, the text left parses to the old entries and the new one, or is refused as a duplicate exactly when the digest was listed |
| Tokens.AppendedFileLoads | src/folio_insights/api_cli.py:35-59 | On any file that loads, and on a new one, the file left loads, with exactly one entry more, if and only if the digest is new and the new size is within the limit |
| Tokens.AppendedSizeIs | src/folio_insights/api_cli.py:51-56 | The size of the file left, in bytes |
| Tokens.Utf8One | api/auth.py:278-281 | What a character counts toward the size limit |
| Tokens.TokensFile.AppendLine | src/folio_insights/api_cli.py:26-59 | A bad file is refused unchanged; otherwise the line is appended and the result validated |
| Lockfile.HeaderAndBlocks | scripts/pin_folio_resolve_lock.py:108-119 | Splitting a lockfile into header and entry blocks loses nothing |
| Lockfile.EntryNameExact | scripts/pin_folio_resolve_lock.py:61-63 | A line is an entry exactly when a name of letters, digits and separators, the first no separator, stands before its first `==`; its name is that one, normalized |
| Lockfile.NormalizeParts | scripts/pin_folio_resolve_lock.py:66-68 | Words and separator runs of a name are normalized one by one |
| Lockfile.NormalizeWord | scripts/pin_folio_resolve_lock.py:66-68 | A word is put in lower case |
| Lockfile.NormalizeRun | scripts/pin_folio_resolve_lock.py:66-68 | A run of separators becomes one hyphen |
| Lockfile.Assembled | scripts/pin_folio_resolve_lock.py:108-119 | A file assembled from a header and blocks reads back as them |
| Lockfile.FindEntries | scripts/pin_folio_resolve_lock.py:108-119 | The two loops give name, start and end of exactly those blocks |
| Lockfile.RenderBlock | scripts/pin_folio_resolve_lock.py:98-105 | The rendering loop gives exactly those lines |
| Lockfile.RenderedIs | scripts/pin_folio_resolve_lock.py:98-105 | A block is its requirement line, one line per hash, continued but for the last, and the line that names what asked for it |
| Lockfile.NewBlockOk | scripts/pin_folio_resolve_lock.py:98-105 | A rendered block reads as one entry named by the normalized package |
| Lockfile.FindMissing | scripts/pin_folio_resolve_lock.py:138 | Exactly the requirements the lockfile does not pin, the package itself apart, in their order |
| Lockfile.OldVersionReports | scripts/pin_folio_resolve_lock.py:154 | The old version is the first word after the name's `==`; without one the message fails |
| Lockfile.PlacedTells | scripts/pin_folio_resolve_lock.py:135-165 | Refused exactly when a requirement other than the package is no entry's name; otherwise the first entry of the name is left alone, if it is the rendered block, or exchanged for it, and without one the block goes in front of the first greater name, its first line counted from one |
| Lockfile.ApplyPin | scripts/pin_folio_resolve_lock.py:122-165 | All of this of the text left and the outcome: refused, unchanged, updated, inserted, or failed after the write |
| Lockfile.WrittenFileReads | scripts/pin_folio_resolve_lock.py:122-165 | A written file reads back as the old header and the placed blocks |
| Lockfile.PinIsIdempotent | scripts/pin_folio_resolve_lock.py:14-15 | Running the pin again changes nothing, on every newline-terminated lockfile |
| Lockfile.SecondRunIsUnchanged | scripts/pin_folio_resolve_lock.py:14-15 | After a change the second run reports that nothing is to do: it is neither refused nor writes |
| Lockfile.PinChangesOneBlock | scripts/pin_folio_resolve_lock.py:148-165 | After a change the header and the other entries are the same lines in the same order, and the target's first block is the rendered one |
| Lockfile.PlacedKeepsOthers | scripts/pin_folio_resolve_lock.py:148-165 | Placing a block leaves every other block as and where it was |
| Lockfile.PinKeepsFileSorted | scripts/pin_folio_resolve_lock.py:157-164 | A name-sorted lockfile is name-sorted after the pin |
| Lockfile.OtherBytesStay | scripts/pin_folio_resolve_lock.py:10-12 | A changed file is the old one with the target's entry and indented lines exchanged, the lines after them up to the next entry left out, and universal newlines in the rest; the bytes outside the target's own lines are left alone if and only if there are no such lines and no carriage return is among them |
| Lockfile.ExtraLineIsDeleted | scripts/pin_folio_resolve_lock.py:148-155 | A concrete lockfile in which a line after the target's entry is deleted, whatever version is pinned |
| Lockfile.TranslateCut | scripts/pin_folio_resolve_lock.py:132 | Every cut of the text as read is a cut of the file's bytes |
| Lockfile.TranslateIdentity | scripts/pin_folio_resolve_lock.py:132 | Reading with universal newlines is the identity exactly on files without carriage returns |
| Lockfile.TranslateParts | scripts/pin_folio_resolve_lock.py:132 | Newline translation goes part by part |
| Lockfile.TranslateOne | scripts/pin_folio_resolve_lock.py:132 | A carriage return, with or without a newline, becomes a newline, and nothing else changes |
| Lockfile.ReturnsAreRewritten | scripts/pin_folio_resolve_lock.py:132 | A changed file has no carriage return, wherever the old one had them |
| Structure.PopCounts | api/routes/validate.py:126-138 | Taking any stack item and pushing its children takes exactly one value off the count |
| Structure.PopShallow | api/routes/validate.py:130-138 | The stack nests within bounds exactly when the item taken does and the next stack does |
| Structure.PopShort | api/routes/validate.py:134-138 | The same for list lengths |
| Structure.Walk | api/routes/validate.py:122-138 | In any pop order: accepts exactly the acceptable values, a refusal names a bound really exceeded, and at most limit plus one items are popped |
| Structure.CheckStructure | api/routes/validate.py:122-138 | The last-in-first-out walk decides the recursive specification |
| Spine.NewAtNextLevel | src/folio_insights/bfo/spine.py:158-169 | The next frontier is exactly what is first reached in one step more, with no branch before it |
| Spine.NothingBeyond | src/folio_insights/bfo/spine.py:158 | Once a frontier is empty nothing lies farther, on cyclic ancestry too |
| Spine.ExpandLevel | src/folio_insights/bfo/spine.py:159-168 | One level: branches are found, the other nodes offer their unseen parents once |
| Spine.TopLevelBranches | src/folio_insights/bfo/spine.py:150-171 | Returns exactly the branches on a parent path of at most `max_depth` steps with no earlier branch, sorted and each once |
| Spine.AnswerIgnoresParentOrder | src/folio_insights/bfo/spine.py:150-171 | Order and repeats of parents do not change the answer |
| Spine.TrivialAnswers | src/folio_insights/bfo/spine.py:153-155 | A branch stands for itself; without a resolver nothing else resolves; a negative bound finds nothing |
| ValidTime.StatuteWindows | src/folio_insights/frameworks/valid_time.py:62-83 | One window per distinct start date, oldest first, each closed by the next start or the repeal, with its evidence |
| ValidTime.NewYearExact | src/folio_insights/frameworks/valid_time.py:120 | 1 January of year 1 is day 1, and every year has the days of the Gregorian calendar |
| ValidTime.UtcCountsDays | src/folio_insights/frameworks/valid_time.py:58-59 | A day is 24 hours of microseconds |
| ValidTime.WindowsAreContiguous | src/folio_insights/frameworks/valid_time.py:62-83 | Starts increase strictly and every window but the last ends where the next starts |
| ValidTime.HistoryCovers | src/folio_insights/frameworks/valid_time.py:38-39 | An instant is covered exactly from the effective date on and, once the last version has begun, before any repeal |
| ValidTime.OnlyTheGreatestStart | src/folio_insights/frameworks/valid_time.py:38-39 | The one window that holds an instant is the one with the greatest start not after it |
| ValidTime.OutsideIsUncovered | src/folio_insights/frameworks/valid_time.py:96-105 | A version date is in no window exactly when it precedes the effective date or, with the last version begun, follows a repeal |
| ValidTime.InferValidTime | src/folio_insights/frameworks/valid_time.py:86-127 | The version in force at the version date, the latest when none is given, none exactly when outside; and the windows of the other kinds, each with its evidence |
| ValidTime.HistoryIgnoresAmendmentOrder | src/folio_insights/frameworks/valid_time.py:66-68 | Order and repeats of amendment dates do not change the windows |
| ValidTime.InferenceIgnoresAmendmentOrder | src/folio_insights/frameworks/valid_time.py:86-127 | Nor the inferred window |
| TaskForest.ComputeDepth | api/routes/discovery.py:388-397 | Ends on every parent map, at the first end, repeat or visited task of the chain |
| TaskForest.DepthCountsLinks | api/routes/discovery.py:388-397 | The depth counts the parent links of a chain that ends, an unknown parent included, and is unique |
| TaskForest.BuildForest | api/routes/discovery.py:363-411 | Depths, children and roots of every task, in row order |
| TaskForest.ForestTells | api/routes/discovery.py:363-411 | Children are the rows that name the task as parent, roots those that name none or an unknown one, each in row order |
| TaskForest.ForestIsLinked | api/routes/discovery.py:402-411 | Children and roots are exactly what the parent links say, no list naming a task twice |
| TaskForest.ShownOnceIffChainEnds | api/routes/discovery.py:402-411 | A task is in the forest exactly once if its parent chain ends, and not at all if it runs into a cycle |
| TaskForest.DepthIsNesting | api/routes/discovery.py:387-411 | A shown task's depth is how deep it is shown, one more if its root's parent is unknown |
| TaskEdits.Board.Delete | api/routes/discovery.py:741-773 | An unknown task is refused; otherwise exactly its row and links go and the edit is recorded |
| TaskEdits.Board.HierarchyEdit | api/routes/discovery.py:813-855 | What move, merge and every other kind do to tasks, links and the record |
| TaskEdits.DropTaskIs | api/routes/discovery.py:767-771 | All rows but one stay, in their order |
| TaskEdits.ReparentIs | api/routes/discovery.py:829-835 | One row changes, and only in its parent |
| TaskEdits.RelinkUnits | api/routes/discovery.py:838-845 | The row-by-row update moves each link whose unit the target lacks |
| TaskEdits.RelinkedThenDropped | api/routes/discovery.py:838-850 | Update and clean-up leave the other links, and carry over exactly the units the target lacked |
| TaskEdits.MergeMovesUnits | api/routes/discovery.py:838-850 | After a merge into another task the target has every unit either had, and the source none |
| TaskEdits.MergeKeepsUnitsHeldIff | api/routes/discovery.py:837-855 | Every unit of a stored task stays with a stored task if and only if the source is not stored, the target is another stored task, or every unit of the source is linked to another stored task |
| TaskEdits.MergeIntoItselfLosesUnits | api/routes/discovery.py:837-855 | A merge into itself drops all the task's links |
| TaskEdits.EndsAfterDrop | api/routes/discovery.py:767-771 | After a removal a chain ends exactly if it did or went through the removed task |
| TaskEdits.EndsAfterMove | api/routes/discovery.py:829-835 | After a move a chain through the moved task ends exactly if the target's did without meeting that task |
| TaskEdits.RemovalHidesNothing | api/routes/discovery.py:753-773 | A delete or a merge into another task never hides a remaining task |
| TaskEdits.ShownAfterMove | api/routes/discovery.py:829-835 | Exactly which tasks are shown after a move |
| TaskEdits.MoveHidesNothingIffSafe | api/routes/discovery.py:829-835 | A move hides nothing if and only if the moved task was not shown, or its target is shown or unknown and not in its subtree |
| TaskEdits.MoveUnderACycleHides | api/routes/discovery.py:829-835 | A concrete move outside the subtree that hides the moved task |
| Sorting.SortKeeps | api/routes/shard.py:447-450 | Sorting is a permutation |
| Sorting.SortSorted | api/routes/shard.py:447-450 | Sorting sorts |
| Sorting.SortRanks | src/folio_insights/bridge_ingest/mapping.py:290 | Sorting is stable |
| Sorting.SortedIsUnique | src/folio_insights/bridge_ingest/mapping.py:290 | Under an order without ties there is one sorted arrangement |

## Left out

- Node labels, reference paths, citations and shard types of a graph node: they do not affect the walk.
- `derivation_payload` and the kernel traversal behind it: the traversal is not part of this model.
- Parsing payloads into shards, the Tractarian index and the lazily derived fields of a snapshot.
- Replacement of a journal file by another one at the same path: a journal keeps its device and inode.
- Torn manifest lines, `fsync`, the lock's timeout (`ManifestBusy`), permissions and ownership of files.
- The PII gate's patterns: one predicate per line.
- Opening the storage context and its retry on a locked database; a store that fails while it is being read.
- Reason texts of refused shards, and error message texts everywhere.
- The constant and record-level fields of a mapped shard, `type_slug`, timestamps and prompt hashes: the same for every shard of a record.
- UTF-8 decoding errors and byte-order marks in text files.
- `_TokenCache`, request authentication and the loopback rules.
- Fetching hashes and requirements from the package index, and the pin script's command line.
- Python's recursion limit in `_compute_depth`; the depth is that of unbounded recursion.
- Task labels, review state, unit counts and signatures; rows of other corpora.
- The aliasing of the node dictionaries nested in one another: the forest names children by ID.
- BFO classification, `branch_for`, and the resolver that reads a loaded ontology.
- Job queues, secret stores, SSE streams, governance, LLM and framework detection, SPARQL, SHACL and reasoners.
- Ingest.RunRounds: which error is retried and which is raised is the source's, but the texts and operation IDs are not modelled.
