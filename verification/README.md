# Verified models of the research display, its readers and its small protocols

This project models the parts of the repository that carry an argument: the co-purchase graph engine
of the research display, the readers and cursors that feed it, the dependency checks around code
bundles and exported history, the retrying submission, and a few codecs and caches. Everything is
Dafny; `dafny verify dfyconfig.toml` checks all of it.

* **Graph engine** (`PairGraph`, `Modularity`, `LocalMoving`, `Choice`, `Walks`, `Connectivity`, `Ascent`,
  `Partition`, `SplitGroup`). The sweep over
  mutable membership and totals arrays is proved equal, step by step, to a reference rule without
  running totals, candidate maps or adjacency lists. For that rule the potential
  2\*mass\*(weight inside groups) - (sum of squared group totals) rises with every move by exactly
  2\*mass times the gain. For every run it follows that moves are bounded, that `stable` is local
  optimality, that wallets of one group are joined in the graph through wallets that have carried its
  label, and that labels never return; `Choice` tells which label a visit takes. A group itself can fall apart, and exactly when is stated.
* **Groups, neighbourhoods, filter, drawing** (`Model`, `Build`, `Groups`, `Links`, `GroupIndex`,
  `Neighbourhood`, `Filter`, `Display`, `PairTables`, `Committed`, `Pipeline`, `Drawings`). From a loaded table to a drawn view:
  every pair is in one bucket, every counter is a recount, and graph insertion refuses a view only where
  two different wallets print alike.
* **Paged table** (`Loader`, `Exchange`, `Service`, `Cursor`, `Base64`, `Decimal`). The reader ends against any
  server, returns only complete tables that pass its checks, and recovers the stored table from the
  repository's own route. Signer fields may hold any value: its printed form is matched and ordered,
  while `===`, sets and maps tell values apart. A server is a function from the number of the request
  and its cursor to an answer, so it may answer one cursor differently each time.
* **Dependencies** (`DependencyGraph`, `Acyclic`, `CodeBundles`, `History`, `Export`). Depth-first
  search, the recursive indexer and the lineage worklist are proved sound and complete.
* **Submission** (`Submission`, `Delivery`). The client is split at its pauses into methods over one
  object; a world around it adds a network that may delay, repeat and lose messages, the job queue and
  other clients. Attempts are referenced by index, as the paused calls share one attempt object.
* **Documents, pages, charts, layout, views** (`Transcoder`, `EntryPages`, `Chart`, `Layout`,
  `ViewLayout`, `ViewMemory`).

`Results`, `Ordering` and `Identity` hold shared notions.

## Where the code and its comments differ

* `research-graph-load.js:51` calls a duplicate pair invalid. Lines 49-54 never ask whether a signer is
  text: lists around one address print alike but are different values, so a pair can repeat
  (`PairTables.BoxedPairAccepted`), count as more wallets and make the page view throw. The pairs of an
  accepted table ascend exactly under `PairTables.AcceptedAscends`, it is a committed table exactly when
  every signer is text (`PairTables.AcceptedIsPairTable`), and a view draws exactly when the wallets it
  shows print differently and no two of its rows print one pair (`Pipeline.Draw`).
* Nothing promises that a group is connected in itself, and a wallet that holds one together can leave it. In
  `SplitGroup.StableGroupInTwoPieces` the run ends stable with a group in two pieces that only meet outside
  it. `Connectivity.TogetherIffUncut` states when all groups stay connected in themselves.
* `result-contracts.ts:76` says that a page cannot skip unseen entries. `parsePage` notices a skipped row
  only if the cursor names it (`EntryPages.SkippedRowAccepted`); an honest server skips none
  (`EntryPages.HonestChain`), and its cursors come to an end (`EntryPages.HonestEnds`).
* The number pattern admits `-0`. Padded keys then order and repeat rows differently from their numbers,
  exactly in the case of `EntryPages.KeyOrderIsNumeric`; `Chart.RanksRise` states the same for ranks.
* `export-history.py:291-305` marks an artifact as indexed before its inputs. On a cycle it therefore
  succeeds (`History.CycleIsIndexed`) and commits some artifact before an input; `History.IndexRuns` states
  that the order is topological if and only if no cycle is reachable.
* A second run that is already indexed as another run's input returns no manifest and ends the export
  with an error (`History.RepeatedRunFails`); `History.IndexRuns` counts it among the failures.
* Retries of one form create one job up to the receipt, wherever in a session they start
  (`Delivery.OneJobWhileClicking`, `Delivery.OneJobAtReceipt`). A form that changes and changes back is a new
  operation by design, and stores the command again (`Delivery.ChangedFormStartsOver`);
  `Delivery.JobsAccounted` bounds the jobs of every run by the operations given up this way.
* The pair reader admits weights up to 9,007,199,254,740,991 and the model builder only 2,000,000, so a
  loaded table can still be refused (`Pipeline.HeavyTableRefused`); `Pipeline.Assemble` states exactly when.

## Model

| member | source | states |
|---|---|---|
| `PairGraph.Handshake` | frontend/src/research/research-graph-model.js:18 | the mass that the loop divides by is twice the total pair weight |
| `PairGraph.StrengthIsListed` | frontend/src/research/research-graph-model.js:18 | a wallet's strength is the summed weight of the pairs on its adjacency list |
| `Modularity.TotalOfMove` | frontend/src/research/research-graph-model.js:27-44 | moving one wallet takes its strength from one group's total and adds it to another's, for every group at once |
| `Modularity.InsideOfMove` | frontend/src/research/research-graph-model.js:28-43 | moving one wallet changes the weight inside groups by its tie to the new group less its tie to the old one |
| `Modularity.MoveChangesPhi` | frontend/src/research/research-graph-model.js:35-44 | for any move, the potential 2*mass*inside - sum of squared totals changes by exactly 2*mass*(score of the new group - score of the old one) |
| `Modularity.PhiBounded` | frontend/src/research/research-graph-model.js:18 | for every labelling the potential lies between minus and plus the squared mass |
| `LocalMoving.BestDominates` | frontend/src/research/research-graph-model.js:36-41 | the scan's result stays, or beats the old group by more than eps; no neighbouring group beats the result by more than eps |
| `Choice.FirstOfEquals` | frontend/src/research/research-graph-model.js:38-42 | a label that differs from the old one scores strictly more than every neighbouring label below it: of equal candidates the first is taken |
| `Choice.VisitTakesFirstBest` | frontend/src/research/research-graph-model.js:35-45 | where scores are equal or more than eps apart, the wallet carries a label after its visit if and only if that is the old label and none exceeds it, or the smallest one of the greatest score |
| `Choice.GreedyTakesFirstBest` | frontend/src/research/research-graph-model.js:35-45 | the same at every labelling and wallet for the modularity score, as long as the mass times eps is below one: scores are whole multiples of one over the mass |
| `Partition.NeighbourWeights` | frontend/src/research/research-graph-model.js:25-33 | the candidate map holds exactly the neighbouring groups, each with the whole weight that ties the wallet to it |
| `Partition.Choose` | frontend/src/research/research-graph-model.js:35-41 | the scan over sorted candidates with running totals picks the group of the reference rule over all labels, which `Choice` tells without a scan |
| `Partition.VisitNode` | frontend/src/research/research-graph-model.js:25-45 | one visit is one step of the reference rule; afterwards every running total equals the summed strength of its group; `moved` is exact |
| `Partition.SweepNodes` | frontend/src/research/research-graph-model.js:22-46 | one sweep is one pass of the reference rule, totals still match, and `moves` counts the wallets that changed group |
| `Partition.Partition` | frontend/src/research/research-graph-model.js:15-53 | the result is the reference run after `passes` passes, every pass before the last moved a wallet, `stable` says that the last one did not, and without it the limit was reached |
| `Ascent.VisitRises` | frontend/src/research/research-graph-model.js:35-45 | a visit that relabels its wallet raises the potential by at least one and by more than 2*mass*eps |
| `Ascent.PhiLifts` | frontend/src/research/research-graph-model.js:35-44 | both bounds hold at every labelling and wallet, so the potential fits the run theorems |
| `Ascent.PhiNeverFalls` | frontend/src/research/research-graph-model.js:21-50 | the potential never falls from any state of a run, mid-pass included, to any later one |
| `Ascent.MovesBounded` | frontend/src/research/research-graph-model.js:21-50 | all passes of any run together make at most 2*mass^2 moves, and that many tolerances fit into the range of the potential |
| `Ascent.BusyPassesBounded` | frontend/src/research/research-graph-model.js:21-50 | at most 2*mass^2 passes in a row can move anything, so the loop would stop without its cap |
| `Ascent.StableIffOptimal` | frontend/src/research/research-graph-model.js:22-48 | a pass moves nothing if and only if its labelling is locally optimal, if and only if it returns the labelling it was given |
| `Partition.PartitionSound` | frontend/src/research/research-graph-model.js:15-53 | a result reported stable is locally optimal; stable or not, wallets with one label are joined by pairs of the graph, and if no visit has cut a group, every group is connected in itself |
| `Partition.LargeLimitIsStable` | frontend/src/research/research-graph-model.js:21 | with a limit above 2*mass^2 the loop always ends because it is stable |
| `Connectivity.SameLabelJoined` | frontend/src/research/research-graph-model.js:21-46 | at every reachable state, mid-pass included, two wallets with one label are joined by a walk along pairs of the graph; the walk may leave the group |
| `Connectivity.CarriersConnected` | frontend/src/research/research-graph-model.js:21-46 | at every reachable state the wallets that have carried one label so far are connected through each other |
| `Connectivity.UnleftConnected` | frontend/src/research/research-graph-model.js:21-46 | a group that no wallet has left is connected in itself |
| `Walks.LeavingSplits` | frontend/src/research/research-graph-model.js:36-43 | a connected group that loses a wallet stays connected exactly when the members which that wallet is paired with stay joined |
| `Connectivity.VisitTogether` | frontend/src/research/research-graph-model.js:25-45 | where all groups are connected in themselves, a visit keeps them so exactly when it cuts nothing from the group its wallet leaves |
| `Connectivity.TogetherIffUncut` | frontend/src/research/research-graph-model.js:21-46 | over whole runs: all groups of all states so far are connected in themselves if and only if no visit so far has cut the group that its wallet left |
| `SplitGroup.StableGroupInTwoPieces` | frontend/src/research/research-graph-model.js:21-53 | a run over six wallets, for any tolerance below 1/42 and so for 1e-9, that ends stable after two passes with a group in two pieces |
| `LocalMoving.LabelsNeverReturn` | frontend/src/research/research-graph-model.js:21-46 | a label out of use at any state, mid-pass included, is never used again, so the number of groups never grows |
| `Build.Lookup` | frontend/src/research/research-graph-model.js:92-97 | the lookup has as many entries as wallets exactly when no wallet repeats, and then inverts the wallet list |
| `Build.Index` | frontend/src/research/research-graph-model.js:88-112 | which of the three errors is raised and when none is; wallets ascend in their printed forms; the built model holds the rows' own ends and weights, and its strengths and adjacency lists are those of the graph |
| `Groups.Bucket` | frontend/src/research/research-graph-model.js:57-64 | the buckets are the label classes, each once, larger first and then by first wallet |
| `Groups.Number` | frontend/src/research/research-graph-model.js:65-67 | every wallet gets the number of the one class that holds it |
| `Groups.NumbersAgree` | frontend/src/research/research-graph-model.js:57-67 | group numbers agree with labels up to renaming, and membership with numbers |
| `Links.KeyInjective` | frontend/src/research/research-graph-model.js:73 | a text key names one pair of groups |
| `GroupIndex.SplitPairs` | frontend/src/research/research-graph-model.js:69-77 | after the pass the internal lists and the crossing map hold exactly the pairs of their groups, in order |
| `GroupIndex.PushLinks` | frontend/src/research/research-graph-model.js:78-79 | the sorted links are listed at both of their groups and nowhere else |
| `GroupIndex.CountersAgree` | frontend/src/research/research-graph-model.js:81-83 | the counters of every finished index add up to the number of pairs |
| `GroupIndex.BuildIndex` | frontend/src/research/research-graph-model.js:56-85 | the index is an exact partition of wallets and pairs, and its guard never throws |
| `GroupIndex.PairInOneBucket` | frontend/src/research/research-graph-model.js:69-77 | every pair is in exactly one internal list or in exactly one link's list |
| `GroupIndex.CountersCount` | frontend/src/research/research-graph-model.js:81-84 | `internal` is the number of pairs whose ends have one group number, and `external` the number of all others |
| `GroupIndex.LinksInOrder` | frontend/src/research/research-graph-model.js:73-78 | links ascend by their lower and then their higher group, and their keys print the two with a colon between |
| `GroupIndex.LinkInTwoGroups` | frontend/src/research/research-graph-model.js:79 | each link is listed by exactly its two groups, which are different |
| `GroupIndex.GroupsAreLabels` | frontend/src/research/research-graph-model.js:64-67 | two wallets have one group number exactly when they have one label; of two groups the earlier has more members, or as many and the smaller first wallet |
| `Neighbourhood.MeetNeighbours` | frontend/src/research/research-graph-model.js:124-125 | the collected members are exactly the closed neighbourhood |
| `Neighbourhood.InducedParts` | frontend/src/research/research-graph-model.js:132-136 | a pair lies inside the closed neighbourhood exactly when it touches the centre or joins two neighbours |
| `Neighbourhood.Focus` | frontend/src/research/research-graph-model.js:121-139 | unknown wallets fail; otherwise members ascend and are the closed neighbourhood, `indices` lists once each pair of the induced subgraph (or each incident pair), and both counters count their part whatever the toggle |
| `Neighbourhood.ProjectionMeans` | frontend/src/research/research-graph-model.js:124-139 | members are the centre and whoever shares a pair with it; `incident` is the number of pairs at the centre and `extra` that of pairs between two other members |
| `Links.CountIsVisible` | frontend/src/research/sigma-data.ts:43-53 | counting visible pairs while scanning equals filtering the pair's bucket afterwards |
| `Links.BucketsAddUp` | frontend/src/research/sigma-data.ts:42-51 | any selection of pairs is shared out exactly among the internal lists and the links |
| `Filter.FilterPairs` | frontend/src/research/sigma-data.ts:39-52 | thresholds out of range fail; otherwise a pair is marked exactly when its weight is at least the threshold, `shown` is their number, and every counter equals the size of the filtered bucket |
| `Filter.FilterMeans` | frontend/src/research/sigma-data.ts:42-51 | every counter is the number of pairs of at least that weight which lie inside groups, between groups, inside one group, or between the two groups of one link |
| `Filter.ShownUpToItsWeight` | frontend/src/research/sigma-data.ts:45 | a pair is shown at its own weight as threshold and hidden at one more |
| `Filter.LowestThreshold` | frontend/src/research/sigma-data.ts:39-52 | threshold 1 reproduces the index's own counts |
| `Filter.RaisingHides` | frontend/src/research/sigma-data.ts:45-53 | raising the threshold only removes pairs, from any list |
| `Display.InsertAll` | frontend/src/research/sigma-data.ts:18-31 | insertion throws exactly when the graph would not be simple: a repeated key, an unknown end, a loop or a parallel pair |
| `Display.Refused` | frontend/src/research/sigma-data.ts:18-31 | a graph is not simple exactly when two nodes share a key, an edge has an unknown end or is a loop, or two edges share a key or join the same two nodes |
| `Display.WalletViewSimple` | frontend/src/research/sigma-data.ts:20-29 | a choice of pairs whose ends are chosen draws as a simple graph exactly when the chosen wallets print differently and no two chosen rows print one pair |
| `PairTables.AcceptedAscends` | frontend/src/research/research-graph-load.js:51-54 | in a table that the reader accepts, printed pairs ascend strictly exactly when no two neighbouring rows print one first signer, hold different values there and do not ascend in the second |
| `PairTables.AcceptedIsPairTable` | frontend/src/research/research-graph-load.js:47-63 | what the reader accepts is a committed pair table (text, numbered, strictly ascending, at most 5,000 addresses) exactly when every signer in it is text |
| `PairTables.PairTableAccepted` | frontend/src/research/research-graph-load.js:47-63 | every committed pair table is accepted |
| `PairTables.LoadedRowsSimple` | frontend/src/research/research-graph-load.js:47-63 | no row identity and no unordered pair repeats in an accepted table whose pairs ascend |
| `PairTables.ApartAscends` | frontend/src/research/research-graph-load.js:51-61 | where different wallets print differently, an accepted table ascends strictly |
| `PairTables.TextPrintsApart` | frontend/src/research/research-graph-load.js:59-60 | in a table of text, different wallets print differently |
| `PairTables.BoxedPairAccepted` | frontend/src/research/research-graph-load.js:49-60 | a server that sends two rows whose first signers are lists around one address makes the reader accept a table that repeats a pair |
| `PairTables.BoxedRowsExist` | frontend/src/research/research-graph-load.js:49-57 | there are such rows |
| `Committed.RowTellsFact` | frontend/src/research/research-graph-load.js:48-57 | a row passes the checks of single rows exactly when it prints its place, two different addresses in order, three counts, and as total their sum, which is at least one and a safe integer |
| `Committed.CommittedAccepted` | frontend/src/research/research-graph-load.js:47-63 | every list of such facts whose pairs ascend strictly and that names at most 5,000 addresses is, printed, a table that the reader accepts |
| `Committed.CommittedIsPairTable` | frontend/src/research/research-graph-load.js:47-63 | a table is a committed pair table if and only if it is such a list, printed |
| `Pipeline.Assemble` | frontend/src/research/research-graph-model.js:88-118 | a loaded table can be built, grouped and indexed if and only if no weight exceeds 2,000,000, and then every promise of the parts holds together; in a table of text, different wallets print differently |
| `Pipeline.HeavyTableRefused` | frontend/src/research/research-graph-load.js:55-63 | for every weight from 2,000,001 to 9,007,199,254,740,991 there is a committed table of one row that the reader accepts and the builder refuses |
| `Pipeline.OverviewSimple` | frontend/src/research/sigma-data.ts:19-30 | the overview of groups and links draws as a simple graph |
| `Pipeline.Choose` | frontend/src/research/sigma-data.ts:15-17 | each view selects exactly the wallets and pairs it is meant to show |
| `Pipeline.Draw` | frontend/src/research/sigma-data.ts:13-35 | only an unknown wallet fails; in a pair view every edge is keyed by its row, joins that row's two printed wallets and weighs the number that the row's total reads as; in the overview an edge joins two groups and weighs the number of pairs with one end in each; insertion throws exactly when what was drawn is not simple, never in the overview, and otherwise exactly when two wallets that the view shows print alike or two of its rows print one pair |
| `Drawings.OverviewWeights` | frontend/src/research/sigma-data.ts:30 | the overview's weights and the pairs inside groups add up to all pairs |
| `Drawings.PageWeights` | frontend/src/research/sigma-data.ts:29 | the page view's weights add up to the weight of all pairs |
| `Loader.AcceptRow` | frontend/src/research/research-graph-load.js:47-63 | a row passes exactly under the code's conditions, the wallet limit included; signers are matched and ordered by their printed forms and told apart as values |
| `Loader.TakeRow` | frontend/src/research/research-graph-load.js:83-86 | pushing a row succeeds exactly when the longer table is still acceptable |
| `Loader.AcceptPage` | frontend/src/research/research-graph-load.js:81-86 | a page passes exactly when every row extends the table acceptably |
| `Loader.Fetch` | frontend/src/research/research-graph-load.js:75-81 | a page's envelope passes exactly for this artifact, this table, at most 200 rows and at most the rows still expected |
| `Loader.Load` | frontend/src/research/research-graph-load.js:66-98 | ends for every server whatever it answers; a returned table passes every check of its rows, is complete for its total and was delivered by the exchange that was had; whenever any exchange with the server delivers such a table of that total, it is returned |
| `Exchange.DeliversIsTold` | frontend/src/research/research-graph-load.js:75-95 | an exchange delivers a table exactly when its first page answers no cursor, every page is about this table with at most 200 rows, every page before the last holds 200 and a cursor of 1 to 1024 characters, none repeated, that fetched the next, the last holds none, and row j of page i is row 200*i + j |
| `Service.PagesDeliver` | src/backtest/interfaces/api/research.py:203-212 | a server that answers each cursor with the next slice delivers the whole table |
| `Service.RouteDelivers` | src/backtest/interfaces/api/research.py:184-216 | if no page exceeds the response size, the route's own cursors and slices form such an exchange |
| `Service.FinishedFits` | src/backtest/interfaces/api/research.py:203-216 | a finished exchange has seen every page of the table, and none was refused for its size |
| `Service.LoadPublished` | frontend/src/research/research-graph-load.js:66-98 | from the repository's own route the reader recovers exactly the stored table and its sorted wallets if and only if no page exceeds the response size and the stored table passes the reader's checks |
| `Service.LoadCommitted` | frontend/src/research/research-graph-load.js:66-98 | every list of facts that can be committed comes back exactly as printed if and only if no page exceeds the response size; the wallets are its addresses, in order |
| `Base64.DecodeEncode` | src/backtest/application/research_pages.py:24-39 | decoding inverts encoding on every byte string |
| `Base64.SymbolIs` | src/backtest/application/research_pages.py:24 | which character stands for which six bits |
| `Base64.QuadValue` | src/backtest/application/research_pages.py:24 | the four characters of three bytes hold their 24 bits, most significant first |
| `Base64.EncodeInjective` | src/backtest/application/research_pages.py:24 | different bytes have different texts |
| `Cursor.CursorInjective` | src/backtest/application/research_pages.py:13-24 | a cursor names one artifact, table, pair and ordinal |
| `Cursor.AcceptedIffGenerated` | src/backtest/application/research_pages.py:13-47 | a text is read as ordinal n exactly when it is the generated cursor for n and fits 1024 characters |
| `Cursor.ForeignCursorRefused` | src/backtest/application/research_pages.py:28-47 | a cursor made for one view is refused by every other |
| `Cursor.GeneratedFits` | src/backtest/application/research_pages.py:24-36 | the size limit never refuses a generated cursor for 64-bit ordinals and pairs |
| `DependencyGraph.OrderedIsAcyclic` | src/backtest/application/code_bundles.py:507-528 | a graph whose nodes can be listed after their dependencies has no cycle |
| `DependencyGraph.ReturnIsCycle` | src/backtest/application/code_bundles.py:514-515 | meeting an open role again means that there is a cycle |
| `Acyclic.Search.Visit` | src/backtest/application/code_bundles.py:512-524 | a visit raises only on a cycle; otherwise it leaves the open roles as they were and completes its role after all of its dependencies |
| `Acyclic.RequireAcyclic` | src/backtest/application/code_bundles.py:507-528 | raises exactly when the dependencies have a cycle; otherwise all roles are completed in a topological order |
| `CodeBundles.CheckDependencies` | src/backtest/application/code_bundles.py:347-367 | passes exactly when every dependency names a manifest with its bundle and version; otherwise the fault is that of the first one that does not |
| `CodeBundles.Check` | src/backtest/application/code_bundles.py:333-368 | which of the five faults is raised, each exactly when, an unresolved or inexact dependency being the first that is not exact; a closure that passes is sorted, unique, exact and acyclic, and has a topological order |
| `CodeBundles.RolesAscend` | src/backtest/application/code_bundles.py:336-345 | manifests are sorted without a repeated role exactly when their roles ascend strictly |
| `CodeBundles.ExactNames` | src/backtest/application/code_bundles.py:351-366 | a dependency is exact exactly when it names some manifest's role, bundle and version |
| `CodeBundles.GraphLeads` | src/backtest/application/code_bundles.py:507-520 | one role depends on another in the checked graph exactly when its manifest lists a dependency of that role |
| `CodeBundles.RequireComponents` | src/backtest/application/code_bundles.py:378-410 | passes exactly when the components are the manifests in order and the root is theirs |
| `CodeBundles.NamesAreComponents` | src/backtest/application/code_bundles.py:390-408 | components match the manifests exactly when they are the manifests' own roles, bundles and versions, each with some configuration |
| `History.Indexer.Index` | frontend/scripts/export-history.py:291-305 | a call indexes its artifact and everything it needs, commits each artifact once and after every input that does not lead back to it, and fails only if something reachable is missing or there are too many |
| `History.IndexRuns` | frontend/scripts/export-history.py:289-310 | succeeds exactly when nothing reachable is missing, at most 512 artifacts are reachable and no run repeats an indexed one; commits each reachable artifact once and after every input that does not lead back to it, and in topological order exactly when no cycle is reachable |
| `History.CycleIsIndexed` | frontend/scripts/export-history.py:291-305 | two artifacts that name each other are indexed without complaint |
| `History.RepeatedRunFails` | frontend/scripts/export-history.py:307-309 | a second run that is an input of the first one makes the selection fail though nothing is missing |
| `History.FollowLineage` | frontend/scripts/export-history.py:339-350 | ends; succeeds exactly when some set of at most 512 holds the runs and is closed under lineage, and then returns the least such set |
| `Export.SumInsert` | frontend/scripts/export-history.py:203-211 | recording a new route adds its bytes once |
| `Export.AdmittedExactly` | frontend/scripts/export-history.py:181-197 | a response is admitted exactly when it holds no local metadata, is at most 2 MiB and is a success, or for a chart one of the two public refusals |
| `Export.Exporter.Get` | frontend/scripts/export-history.py:176-212 | a response is recorded exactly when it is admitted, agrees with any earlier record of its route and stays within both limits; a new route adds its bytes once, and a failed chart is counted |
| `Submission.Operation.Click` | frontend/src/forms.tsx:84-93 | a click is ignored in a preview or while a call is paused; otherwise it resumes the pending attempt of the same form or begins one, and sends at once if that attempt is prepared |
| `Submission.Operation.Prepare` | frontend/src/forms.tsx:92-93 | preparation fills the attempt's path and body and sends, or fails in the transport before sending |
| `Submission.SentExactly` | frontend/src/api.ts:37-48 | the transport sends a request exactly when its path starts with `/api/v1/` and nowhere holds `://`, and it has no body or a printed one of at most 2 MiB |
| `Submission.PreparedSends` | frontend/src/forms.tsx:92-96 | a prepared call sends its request under its attempt's key exactly in that case; otherwise nothing is sent, the flag falls, and the next click on the same form finds the attempt as it was left |
| `Submission.Operation.Fail` | frontend/src/forms.tsx:96 | a failure lowers the flag and keeps the pending attempt |
| `Submission.Operation.Receive` | frontend/src/forms.tsx:94-96 | a receipt clears the pending attempt |
| `Delivery.SubmitDeduplicates` | src/backtest/adapters/catalog/sqlite/job_queue.py:165-231 | one key keeps one job per command; the same command gets it back, another gets a conflict, only an unused key adds a job, and submitting again changes nothing |
| `Delivery.StepSafe` | frontend/src/forms.tsx:84-97 | every step of client, network, server and other clients keeps the invariant that all results below come from |
| `Delivery.OneCallAtATime` | frontend/src/forms.tsx:86-96 | over every run at most one call is paused, exactly while the flag is up, and nothing is sent in a preview |
| `Delivery.OneRequestPerKey` | frontend/src/forms.tsx:90-93 | over every run no key is ever sent with two different paths or bodies |
| `Delivery.OneJobPerAttempt` | src/backtest/adapters/catalog/sqlite/job_queue.py:175-197 | no attempt is ever stored as two jobs |
| `Delivery.JobsAccounted` | frontend/src/forms.tsx:84-97 | over every run: receipts <= own jobs <= receipts + attempts given up because the form changed + the pending one |
| `Delivery.OneJobWhileClicking` | frontend/src/forms.tsx:89-94 | from any moment of any session, while only one form is clicked and no receipt arrives, all clicks work on one attempt, which is stored as at most one job; nothing of that form is given up |
| `Delivery.OneJobAtReceipt` | frontend/src/forms.tsx:89-96 | at the receipt exactly one job is stored for that attempt, the one that the receipt names |
| `Delivery.ConflictMeansDrift` | src/backtest/application/errors.py:314-326 | the client sees a conflict only if one request was resolved to two different commands; a steady resolution never conflicts |
| `Delivery.RetryRepeats` | frontend/src/forms.tsx:90-93 | after a lost answer, clicking the same form puts the client back where it was and sends the very same message; another form gets a key of its own |
| `Delivery.RepeatFindsJob` | src/backtest/adapters/catalog/sqlite/job_queue.py:175-197 | a repeated message finds the job it was answered with |
| `Delivery.ChangedFormStartsOver` | frontend/src/forms.tsx:89-91 | a run in which form A, form B and form A again store the same command twice without a receipt |
| `Transcoder.DecodesWhatStands` | src/backtest/application/copy_result_codec.py:47-76 | whatever else the language's integer parser takes, decoding accepts exactly the documents with canonical text for the integers under numeric names and nothing else changed |
| `Transcoder.RoundTrip` | src/backtest/application/copy_result_codec.py:35-76 | transport gives a document back exactly when its integers stand directly under numeric names, within 80 characters, and nothing but integers and nulls stands there |
| `Transcoder.AcceptedReturns` | src/backtest/application/copy_result_codec.py:35-76 | an accepted document encodes like the text it came from, and to that very text exactly when the text held no bare integer |
| `Transcoder.EncodeFixes` | src/backtest/application/copy_result_codec.py:35-44 | encoded documents hold no integers, and encoding changes exactly the documents that did |
| `Transcoder.NamelessIntegersStayText` | src/backtest/application/copy_result_codec.py:51-64 | integers in lists, and digits under other names, come back as text |
| `Transcoder.NumericNames` | src/backtest/application/copy_result_codec.py:51-60 | the numeric names are five words and whatever ends in one of six endings |
| `Transcoder.SignedIs` | src/backtest/application/copy_result_codec.py:68-75 | the canonical text of an integer is its digits without leading zeroes, behind a minus if it is negative |
| `EntryPages.CheckRows` | frontend/src/result-contracts.ts:80-86 | the loop accepts exactly the rows that rise by key from the previous cursor and are in range |
| `EntryPages.ParsePage` | frontend/src/result-contracts.ts:77-93 | a page is accepted exactly when it is well formed, within the limit, rising, in range and its cursor is its last row |
| `EntryPages.AcceptedMeans` | frontend/src/result-contracts.ts:77-93 | an accepted page holds at most 200 rows and at most the limit, all in range, any two rising by key and the first above the previous cursor, and a cursor is its last row |
| `EntryPages.KeyOrderIsNumeric` | frontend/src/result-contracts.ts:80-83 | padded text order is numeric order on boundary and identity if and only if the pair is not `-0` beside `0` in misleading order; equal keys mean equal rows |
| `EntryPages.ChainAscends` | frontend/src/result-contracts.ts:77-93 | over any chain of accepted pages from any server no row repeats, and two rows are in numeric order exactly where `-0` does not mislead |
| `EntryPages.SignRepeatsRow` | frontend/src/result-contracts.ts:7-8 | with `-0` one page may hold a row twice |
| `EntryPages.SkippedRowAccepted` | frontend/src/result-contracts.ts:76-93 | leaving out a row goes unnoticed exactly when the cursor of the page does not name it |
| `EntryPages.HonestChain` | src/backtest/application/use_cases/query_strategy_results.py:236-246 | following an honest server's cursors gives accepted pages, and exactly the stored rows once a page has no cursor |
| `EntryPages.HonestLength` | src/backtest/application/use_cases/query_strategy_results.py:236-246 | every page with a cursor is full, and a page has none exactly when the pages so far have room for all rows |
| `EntryPages.HonestEnds` | src/backtest/application/use_cases/query_strategy_results.py:236-246 | from any page on, following the cursors reaches a page without one, after exactly the number of pages that the rows need |
| `Chart.CheckOrder` | frontend/src/result-contracts.ts:142-151 | comparing neighbours accepts exactly the histories with strictly rising boundaries, times that never fall and no revival |
| `Chart.LineEndsWithMarket` | frontend/src/chart-view.ts:14-15 | of any stretch of an accepted history the line is the part up to the end of the market: only its last point can lie past the end |
| `Chart.WindowHolds` | frontend/src/chart-view.ts:7-9 | the window is a contiguous stretch; where some point is at or after its lower bound, a point is in it exactly when the next one is not before that bound and the previous one not after the upper bound; otherwise it is the whole history up to and including the first point after the upper bound |
| `Chart.RetainedHolds` | frontend/src/chart-view.ts:5-9 | without the trade window all points stay; with it exactly the window from 20 seconds before the first marker to 20 seconds after the last, so every point between them |
| `Chart.RangeHolds` | frontend/src/chart-view.ts:17-23 | the automatic range is never empty and holds every amount |
| `Chart.RangePads` | frontend/src/chart-view.ts:17-23 | the range reaches a twentieth of the spread beyond the amounts, at least one, and not below zero; without a spread it is a twentieth of the amount |
| `Chart.ScaleKeepsOrder` | frontend/src/chart-view.ts:24 | amounts keep their order on the scale and stay below 1,000,000 |
| `Chart.TickOfScale` | frontend/src/chart-view.ts:24-25 | the amount read back at an amount's own tick is not above it, and below it by less than one scale unit and one |
| `Chart.TicksKeepOrder` | frontend/src/chart-view.ts:25 | ticks keep their order, below zero as well |
| `Chart.TickTruncates` | frontend/src/chart-view.ts:25 | a tick's amount is the lower end plus its share of the range, cut off towards the lower end on both sides of it |
| `Chart.DrawnOnScale` | frontend/src/chart-view.ts:17-26 | every drawn point and marker is on the scale in the order of its amount |
| `Chart.RanksRise` | frontend/src/chart-view.ts:11-13 | in every order that sorting may give, ranks rise strictly with boundaries if and only if zero is not spelled both `0` and `-0` |
| `Layout.PlaceNodes` | frontend/src/research/layout-core.ts:15-16 | every node's row holds its position, mass one, size and mark, and the lookup finds it |
| `Layout.LayoutInput` | frontend/src/research/layout-core.ts:13-23 | fails exactly beyond the budget; otherwise each node's mass is one plus its weighted degree and each edge lists its ends' offsets and its weight |
| `Layout.NodeColumns` | frontend/src/research/layout-core.ts:15-20 | what each of a node's ten columns holds |
| `Layout.DegreeCounts` | frontend/src/research/layout-core.ts:20 | with weights of one, a node's summed weight is the number of edges at it |
| `Layout.TotalMassIs` | frontend/src/research/layout-core.ts:16-20 | the mass column adds up to the order plus twice the total weight |
| `Layout.ValidateInput` | frontend/src/research/layout-core.ts:24-27 | throws exactly on matrices that break a bound, an offset, a loop or a weight rule |
| `Layout.ValidInputIs` | frontend/src/research/layout-core.ts:24-27 | what passes is exactly what has at most 5,000 rows of ten and at most 200,000 of three, each naming two different rows by offset and a weight of at least one |
| `Layout.InputValid` | frontend/src/research/layout-core.ts:13-27 | what the layout is given passes its validation if and only if every weight is at least one |
| `Layout.LayoutOutput` | frontend/src/research/layout-core.ts:30-35 | copies each node's two coordinates, and throws exactly when one is out of reach |
| `Layout.ApplyCoordinates` | frontend/src/research/layout-core.ts:39-42 | writes the coordinates in node order and changes nothing else; refused coordinates change nothing |
| `Layout.ThereAndBack` | frontend/src/research/layout-core.ts:13-42 | with no engine step the way there and back changes no node, and is refused exactly when a start is out of reach |
| `Layout.SimpleIsDrawn` | frontend/src/research/sigma-data.ts:18-30 | every graph that insertion accepts meets the layout's precondition |
| `ViewLayout.DrawnWithinBudget` | frontend/src/research/sigma-data.ts:15-31 | every view of an opened model has at most 5,000 nodes and 200,000 edges, and weights of at least one |
| `ViewLayout.LayOut` | frontend/src/research/layout-core.ts:13-27 | wherever the nodes start, no view that draws is refused by the layout's budget or its validation |
| `ViewMemory.Memory.Read` | frontend/src/research/navigation.ts:10 | a hit moves its key to the newest place and returns its view; a miss or a wrong order changes nothing |
| `ViewMemory.Memory.Save` | frontend/src/research/navigation.ts:11-17 | the saved view becomes the newest and the oldest make room; an oversized graph changes nothing |
| `ViewMemory.AlwaysByRecency` | frontend/src/research/navigation.ts:7-20 | after any operations at most eight views are held, ordered by last use |
| `ViewMemory.HeldExactly` | frontend/src/research/navigation.ts:10-19 | after any history, what one more operation leaves held: the key it uses and every held key, except that clearing drops all, forgetting its own, and a save of a new key with eight held exactly the least recently used |
| `ViewMemory.HoldsMostRecent` | frontend/src/research/navigation.ts:10-17 | as long as nothing is forgotten, a key is held exactly when it was used and is not older than eight held ones |
| `ViewMemory.HoldsMostRecentSince` | frontend/src/research/navigation.ts:10-19 | the same from the last clear on, whatever came before it |
| `ViewMemory.HoldsLastSaved` | frontend/src/research/navigation.ts:10-19 | what is held under a key is what was last saved under it |
| `ViewMemory.ReadsLastSaved` | frontend/src/research/navigation.ts:10-17 | after any history a read hits exactly if its key is held and its last save was of a graph of that order |
| `ViewMemory.SavedIsRead` | frontend/src/research/navigation.ts:10-17 | a view saved last is read back with its camera, its bounds and every node's two coordinates in order |

## Left out

- Floating point: scores, layout numbers and the tolerance 1e-9 are exact reals, the tolerance being any eps >= 0; rounding of Float32 and Float64 and the layout engine's own steps are not modelled.
- Fixed integer widths: Int32, Uint16 and Uint32 arrays are unbounded here; the limits of 5,000 wallets and 200,000 pairs keep every stored index and counter within them.
- `checkpoint`, abort signals, progress reports, timeouts and deadlines: an aborted call returns nothing.
- HTTP, streams, byte budgets while streaming, files, hashing and SQLite transactions; the byte total that `load` returns is left out with them.
- `Number`, `json.loads` and `int` are parameters; only where a result needs it they are assumed to read back what was printed. Strictness variants of base64 padding in the library beyond valid and invalid quantums are not modelled, since the comparison with the regenerated cursor decides.
- A value that is not text is identified by the row and field it was read from, and by its printed form; objects whose own `toString` fails to print make the reader fail and are not modelled.
- The size of a response is any condition on its page (`fits` in `Service`); the browser's own byte budgets are left out with the streams.
- Text order is by code units of `char`, which is the order of both languages on the ASCII texts that are compared.
- Python's recursion limit in `_require_acyclic` and `index`.
- `generate`: the checks of snapshots, ranges and summaries around the indexer and the worklist; `History.FollowLineage` takes the published lineage as a fixed function.
- Export.Exporter.Get: the privacy pattern as an expression (it is a flag of the response) and the written files.
- Delivery.ConflictMeansDrift: the server's resolution of a request to a command is any value at each step, so the resolver itself is not modelled; keys are taken as never drawn twice.
- Submission.Operation.Prepare: the prepare callback's own requests and its memory in `resolveBody`; its result is any path and body.
- ViewMemory.HoldsMostRecent: stated for histories, or stretches since the last clear (ViewMemory.HoldsMostRecentSince), without forget, where it has a closed form; ViewMemory.HeldExactly covers every history step by step.
- Layout.ThereAndBack: the engine's steps between the two ends.
- Layout.ValidateInput: typed-array and finiteness tests, which exact reals always pass.
- Chart.CheckOrder: the remaining field checks of `parseChart` (identities, markers against attempts, ranges), each settled by reading one line.
- EntryPages.ParsePage: entry fields other than boundary and identity, and their refinements.
- Colours, labels, sizes and spiral starts of drawn nodes.
- Catalogue, backup, benchmark, dataset and run-contract codecs, and the typed records behind `copy_position_from_document`: field-by-field validation that would add only easy members.
