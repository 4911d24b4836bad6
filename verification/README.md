# Verified models of the server extension's stateful parts

Six parts of the extension are modelled in Dafny and proved correct: the waypoint
graph with its A* search, cached shortest-path trees and save file; the JSON bridge with
its memory forecast and asynchronous saves; the rate limiter; the HTTP/WebSocket client;
the client slots of the proxies; and the string formatter. `dafny verify dfyconfig.toml`
checks everything.

## How it is built

Objects that the program updates in place are classes over arrays, sequences and maps
(`AStarGraph`, `SearchScratch`, `Heap`, `JobList`, `BucketPool`, `Proxy`, `HttpWsClient`,
`JsonCost`, `ScriptMemory`, `Sink`). Each method's contract equates its effect with a
function of the old state, and the theorems are about those functions. Concurrent parts
are state machines whose steps are the sections run under a lock or the callbacks of a
library, and their theorems speak about every state of every run.

| Part | Files |
|---|---|
| Binary heap of the search | `EntryHeap.dfy` |
| Graphs, walks, edits | `GraphTypes.dfy`, `GraphEdits.dfy`, `NodeRemoval.dfy`, `EditTheorems.dfy` |
| A* and what its answers are worth | `Search.dfy`, `SearchTheorems.dfy`, `SearchResults.dfy`, `Optimality.dfy`, `Budgets.dfy`, `BudgetedAnswers.dfy` |
| Reused scratch arrays | `Scratch.dfy` |
| Reverse Dijkstra and the tree cache | `ShortestTree.dfy`, `ReverseDijkstra.dfy`, `AStarGraph.dfy`, `CacheTheorems.dfy`, `Ceilings.dfy`, `PathQueries.dfy` |
| Checksum and save file | `Crc32.dfy`, `SaveFile.dfy`, `FileLayout.dfy` |
| JSON | `JsonKeys.dfy`, `JsonPush.dfy`, `JsonSave.dfy`, `JsonRoundTrip.dfy`, `JsonBudget.dfy`, `JsonNormal.dfy`, `JsonMeaning.dfy`, `JsonMemory.dfy`, `StringMemory.dfy` |
| Asynchronous JSON jobs | `AsyncJobs.dfy`, `AsyncProtocol.dfy`, `AsyncOutcomes.dfy` |
| Rate limiter | `RateLimit.dfy`, `AddressPool.dfy`, `BucketChains.dfy` |
| Proxy slots | `ProxyClients.dfy` |
| HTTP/WebSocket client | `HttpWs.dfy`, `HttpWsObject.dfy`, `HttpOutcomes.dfy`, `HttpMessages.dfy` |
| Formatter | `FormatFields.dfy`, `Formatter.dfy`, `FormatMeaning.dfy`, `FormatterLoop.dfy` |

## Reading notes

- Costs and distances are reals; the distance between two origins is a parameter, and
  its metric laws are hypotheses of the theorems that need them. `FLT_MAX` is the
  program's "no path" mark, so tree costs are exact up to it.
- What an edit does to the cached trees is part of `AStarGraph.Valid`: at most eight
  trees, one per goal and masks, each usable, and exact while no cost is negative.
- Times in the rate limiter and the order of submissions in the JSON jobs are explicit.
- Several classes carry bookkeeping that the program does not have: histories, stamps,
  owners. It is ghost where the class is concerned and named as bookkeeping where a state
  machine carries it.

## Where the code does less than one would expect

- A cached tree answers whatever the server's expansion ceiling is, although the comment
  at `code/gsc_graph.cpp:698-701` lists the conditions under which a tree may answer.
  `Ceilings.CeilingIsHarmlessExactly`: a ceiling makes no difference on any graph of n
  nodes exactly when there is none or it is at least n; below that
  `Ceilings.LineShowsCeiling` gives a graph, a cache and a query whose answers differ.
- The last node of an answer is the documented sign of a full path
  (`code/gsc_graph.cpp:619-625`). `BudgetedAnswers.EndTellsExactly`: on graphs of n nodes
  it tells that the path is within the weight exactly when the budget is at most one or at
  least n; for every other budget `BudgetedAnswers.EndingAtGoalIsNotEnough` gives a graph
  whose answer ends at the goal and is dearer.
- The header counts of a save file are outside its checksum. `SaveFile.CountDamageExactly`:
  changed counts get through exactly when they stay within the node cap and split the same
  body into nodes and edge records none of which is bad; one count alone never does
  (`SaveFile.OneCountIsChecked`), two can (`SaveFile.CountsAreOutsideTheChecksum`).
- Requests with a smaller burst may reclaim a bucket that still holds tokens of a larger
  one. `AddressPool.MixKeepsBoundExactly`: runs that mix two bursts of one period keep to
  the window bound exactly when the bursts differ by at most 1 ms of leaking;
  `AddressPool.MixedLimitsLoosen` is the run that breaks it otherwise, as for the bursts
  10 and 20 at `code/ratelimiter.cpp:176` and `:289`.
- `RateLimit.LongPauseIsDenied`: a full bucket left alone for 2^32 ms still denies,
  because the interval is kept in 32 bits; `DeniedExactly` is the exact condition, and
  `PauseIsAnsweredExactly` names the pauses that are safe.
- `JsonRoundTrip.SpelledLikeAnIndex`: a string key spelled like an index comes back as
  the index; `JsonBudget.StoredComesBackExactly` shows that nothing else goes wrong.

## Model

| member | source | states |
|---|---|---|
| EntryHeap.Heap.HeapSiftUp | code/gsc_graph.cpp:436-450 | the loop on the array is the function SiftUp |
| EntryHeap.Heap.HeapSiftDown | code/gsc_graph.cpp:452-474 | the loop on the array is the function SiftDown |
| EntryHeap.Heap.HeapPush | code/gsc_graph.cpp:476-484 | the heap grows by one entry in place |
| EntryHeap.Heap.HeapPop | code/gsc_graph.cpp:486-497 | returns the root and leaves the rest |
| EntryHeap.SiftUpRestoresHeap | code/gsc_graph.cpp:436-450 | a heap with one low entry out of place becomes a heap with the same entries |
| EntryHeap.SiftDownRestoresHeap | code/gsc_graph.cpp:452-474 | a heap with one high entry out of place becomes a heap with the same entries |
| EntryHeap.PushIsInsertion | code/gsc_graph.cpp:476-484 | a push keeps the heap and adds exactly its entry |
| EntryHeap.PopIsExtractMin | code/gsc_graph.cpp:486-497 | a pop takes a least entry, and a heap of exactly the others remains |
| SearchTheorems.AdvanceKeeps | code/gsc_graph.cpp:779-836 | one turn of the search loop keeps the search tree, the queue of open nodes and the followed edges right |
| SearchResults.TurnsDecrease | code/gsc_graph.cpp:779-836 | every turn of the loop brings the search nearer its end, for any costs and weight |
| SearchResults.AnswerIsSimpleWalk | code/gsc_graph.cpp:583-617 | full or partial, the answer starts at the start, repeats no node and follows only allowed edges |
| SearchResults.FullExactlyWhenReachable | code/gsc_graph.cpp:769-847 | without a budget the answer ends at the goal exactly when an allowed walk leads there |
| SearchResults.PartialEndsClosest | code/gsc_graph.cpp:769-847 | otherwise it ends at a reachable node that no reachable node is closer to the goal than |
| Optimality.DistanceCostsAreConsistent | code/gsc_graph.cpp:161-168 | costs that cover the straight line make the heuristic consistent under any masks |
| Optimality.PopIsNearOptimal | code/gsc_graph.cpp:779-836 | a node is closed at no more than the weight times any walk to it, although it is never reopened |
| Optimality.FullAnswerIsNearOptimal | code/gsc_graph.cpp:747-836 | a full unbudgeted answer costs at most the weight times any allowed walk, so the least at weight one |
| Budgets.LargeBudgetIsNone | code/gsc_graph.cpp:748-753 | a budget of at least the number of nodes changes no answer |
| Budgets.BudgetOfOneStaysPut | code/gsc_graph.cpp:796-800 | a budget of one gives the start alone |
| Budgets.SmallBudgetFallsShort | code/gsc_graph.cpp:796-800 | where every edge leads at most one id on, a budget not above the ids between start and goal never reaches the goal |
| BudgetedAnswers.FoundAnswerIsNearOptimal | code/gsc_graph.cpp:779-836 | whatever the budget, an answer whose goal was popped is within the weight |
| BudgetedAnswers.PartialEndsClosestDiscovered | code/gsc_graph.cpp:796-847 | whatever the budget, a partial answer ends at a discovered node that no discovered node is closer to the goal than |
| BudgetedAnswers.EndingAtGoalIsNotEnough | code/gsc_graph.cpp:619-625 | for every weight and every budget from 2 to n - 1 there is a graph of n nodes whose answer ends at the goal at more than the weight allows |
| BudgetedAnswers.HarmlessAnswersWell | code/gsc_graph.cpp:619-625 | under a budget of at most one or of at least the number of nodes an answer that ends at the goal is within the weight, whatever is masked or skipped |
| BudgetedAnswers.EndTellsExactly | code/gsc_graph.cpp:619-625 | that an answer ends at the goal tells that it is within the weight, on every graph of n nodes, exactly when the budget is at most one or at least n |
| Scratch.SearchScratch.Begin | code/gsc_graph.cpp:503-530 | no stamp left from an earlier search equals the new search id, wraparound included |
| Scratch.SearchScratch.MarkSkipped | code/gsc_graph.cpp:536-577 | the marked nodes are exactly the listed ones that exist |
| Scratch.SearchScratch.PushPath | code/gsc_graph.cpp:583-617 | the pushed ids are the chain of parents from the start to the node |
| Scratch.SearchScratch.FindPath | code/gsc_graph.cpp:738-851 | the search on the reused arrays answers what a search from nothing answers |
| ShortestTree.FollowIsWalk | code/gsc_graph.cpp:711-731 | following the next hops of an exact tree is a simple walk to the goal of exactly the stored cost |
| ReverseDijkstra.BuildIncoming | code/gsc_graph.cpp:2008-2031 | every node's list holds exactly the unfiltered edges into it |
| ReverseDijkstra.PoppedIsFinal | code/gsc_graph.cpp:2036-2069 | with non-negative costs a popped node's cost is least |
| ReverseDijkstra.GrowTree | code/gsc_graph.cpp:2008-2069 | the tree is exact: least cost to the goal or the no-path mark, next hops on least walks |
| GraphStore.Find | code/gsc_graph.cpp:131-142 | the only cached tree of a goal and masks, or none |
| GraphStore.AStarGraph.FindPath | code/gsc_graph.cpp:627-851 | the answer is a function of graph, cache and query; the search leaves the graph valid |
| GraphStore.AStarGraph.AddNode | code/gsc_graph.cpp:1228-1289 | a new unlinked node at the end or nothing at the cap; consistency, edge count and cache stay right |
| GraphStore.AStarGraph.AddEdge | code/gsc_graph.cpp:1296-1380 | one edge appended between two live nodes; false and nothing changed for a direction that is there already or a bad end |
| GraphStore.AStarGraph.SetEdgeCost | code/gsc_graph.cpp:1428-1479 | the cost of that edge alone changes, and all trees go |
| GraphStore.AStarGraph.SetEdgeType | code/gsc_graph.cpp:1482-1518 | the type of that edge alone changes, and all trees go |
| GraphStore.AStarGraph.RemoveEdge | code/gsc_graph.cpp:1524-1560 | that edge alone goes and the counter with it |
| GraphStore.AStarGraph.SetNodeType | code/gsc_graph.cpp:1608-1640 | the type of that node alone changes, and all trees go |
| GraphStore.AStarGraph.SetNodeOrigin | code/gsc_graph.cpp:1647-1707 | the node moves and every edge touching it gets its new length as cost |
| GraphStore.AStarGraph.RemoveNode | code/gsc_graph.cpp:1895-1949 | the node is marked, its edges both ways go, and the counter drops by exactly those |
| GraphStore.AStarGraph.PrecomputePathsToNode | code/gsc_graph.cpp:1959-2091 | the tree of the goal and masks is exact on the current graph, replacing its predecessor, the oldest of eight going first |
| GraphStore.AStarGraph.LinkNodesTyped | code/gsc_graph.cpp:309-370 | exactly the typed links: both ways where walkable, one drop where a player can fall, each direction only if it is not there yet |
| GraphStore.AStarGraph.Autodiscover | code/gsc_graph.cpp:2255-2438 | whatever the traces answer, the graph is exactly what the list of discoveries adds up to: nodes and links are only added, and all invariants stay |
| GraphEdits.WithoutErased | code/gsc_graph.cpp:1923-1939 | erasing matches one at a time leaves the other edges in order |
| GraphEdits.PurgeKeeps | code/gsc_graph.cpp:1921-1946 | after a removal no edge touches the node and the graph is consistent |
| EditTheorems.MoveRecosts | code/gsc_graph.cpp:1683-1703 | edges that touch a moved node cost their new length, and nothing else changes |
| EditTheorems.MoveStaysCovered | code/gsc_graph.cpp:1683-1703 | where costs covered the distance they do so after a move |
| EditTheorems.NewLinksAreJustified | code/gsc_graph.cpp:309-370 | a new drop leads from the higher node to the lower, 8 to 128 units down where stepping off is clear; a new walk is flat or a step as its type says |
| EditTheorems.LinksAreMade | code/gsc_graph.cpp:309-370 | and every link that is so justified is there afterwards |
| EditTheorems.CacheForgetsOldestOnly | code/gsc_graph.cpp:2071-2087 | after a precompute the cache has the new tree and all it had, but for the oldest of eight when the new one replaces none |
| NodeRemoval.RemovingIsSkipping | code/gsc_graph.cpp:1895-1949 | the walks of the graph without a node are, ids and costs alike, those that skip it |
| CacheTheorems.ExactTreesAgree | code/gsc_graph.cpp:125-142 | a cached tree has the costs of a tree computed afresh |
| CacheTheorems.UnknownMeansUnreachable | code/gsc_graph.cpp:704-709 | a start at the no-path mark has no walk to the goal below that cost |
| CacheTheorems.CachedAnswerIsLeast | code/gsc_graph.cpp:704-736 | an answer read from a tree is a walk of least cost |
| CacheTheorems.CacheOnlySavesTime | code/gsc_graph.cpp:704-847 | with consistent costs and no ceiling below the number of nodes the cache changes neither reachability nor the cost of an answer |
| Ceilings.LineShowsCeiling | code/gsc_graph.cpp:698-753 | for every n and ceiling below it, the line of n nodes with its cached tree is a valid graph where cache and search differ |
| Ceilings.CeilingIsHarmlessExactly | code/gsc_graph.cpp:698-753 | a ceiling leaves every query on every graph of n nodes as without the cache exactly when there is none or it is at least n |
| Ceilings.LineShowsBudget | code/gsc_graph.cpp:738-753 | a budget of the call below the number of nodes cuts the search short, whatever the ceiling and the cache |
| PathQueries.UndefinedExactly | code/gsc_graph.cpp:682-745 | no answer exactly for ends that do not exist or are removed and for a skip argument that is no array |
| PathQueries.AnswerIsRoute | code/gsc_graph.cpp:532-577 | an answer starts at the start, repeats no node, and after it meets no node that the array names, is removed or has a masked type, over no edge of a masked type |
| PathQueries.EndsAtGoalExactly | code/gsc_graph.cpp:694-851 | with no limit below the number of nodes it ends at the goal exactly when such a route leads there from a start the array does not name, or start and goal are one |
| PathQueries.FullAnswerCostsLittle | code/gsc_graph.cpp:694-851 | with covering costs it then costs at most the weight, or one, times any such route, from the cache or not |
| Crc32.GraphCrc32 | code/gsc_graph.cpp:171-185 | the loops compute the bit-serial checksum |
| Crc32.CrcIsTableCrc | code/gsc_graph.cpp:170-185 | it is the table-driven checksum of section 8 of RFC 1952 on every byte string |
| Crc32.BurstChangesCrc | code/gsc_graph.cpp:171-185 | bodies of one length that differ inside at most four consecutive bytes have different checksums |
| SaveFile.Save | code/gsc_graph.cpp:2673-2739 | with the edge counter right the buffer is filled exactly, with the image of the graph |
| FileLayout.HeaderStands | code/gsc_graph.cpp:2687-2703 | magic, version 1, no flags, node count, edge count and checksum of the rest, least significant byte first |
| FileLayout.NodeStands | code/gsc_graph.cpp:2705-2716 | the i-th node record: origin, type and removed mark at 20 + 20 i |
| FileLayout.EdgeStands | code/gsc_graph.cpp:2718-2736 | the edge records follow all nodes, those of each node in order: from, to, type and cost |
| SaveFile.Load | code/gsc_graph.cpp:2817-2989 | a load gives the graph the bytes describe or the first reason to refuse them |
| SaveFile.SaveThenLoad | code/gsc_graph.cpp:2633-2989 | loading what was saved rebuilds origins, types, removed marks, edge lists in order and the edge count |
| SaveFile.AnyGraphComesBack | code/gsc_graph.cpp:2633-2989 | so does a graph over any numbers with faithful 32-bit patterns |
| SaveFile.BuildCollects | code/gsc_graph.cpp:2949-2985 | a node gets exactly its records in file order, and the load succeeds exactly when no record is bad |
| SaveFile.BuildNamesFirstBad | code/gsc_graph.cpp:2965-2981 | a refusal names the first bad record |
| SaveFile.LoadedIsConsistent | code/gsc_graph.cpp:2817-2989 | whatever the bytes, a loaded graph is consistent, counts its edges right and is within the node cap |
| SaveFile.BurstIsRefused | code/gsc_graph.cpp:2905-2913 | any change inside four consecutive body bytes of a loadable file is refused as corrupt |
| SaveFile.ChecksumIsChecked | code/gsc_graph.cpp:2905-2913 | so is a changed checksum |
| SaveFile.LoadsExactly | code/gsc_graph.cpp:2817-2989 | a file loads exactly when magic, version, node cap, size, checksum and graph cap hold and no record is bad |
| SaveFile.HeaderDamageExactly | code/gsc_graph.cpp:2846-2913 | a loadable file with a changed header loads exactly when magic, version and checksum are as they were and the changed counts split the body |
| SaveFile.CountDamageExactly | code/gsc_graph.cpp:2872-2903 | changed counts alone get through exactly when they are within the cap and split the same body into records none of which is bad |
| SaveFile.OneCountIsChecked | code/gsc_graph.cpp:2872-2903 | a change of one count alone is always refused |
| SaveFile.MagicAndVersionAreChecked | code/gsc_graph.cpp:2846-2870 | a wrong magic or version is refused as such, whatever the rest |
| SaveFile.FlagsAreIgnored | code/gsc_graph.cpp:2846-2870 | files that differ in the flag bytes alone load alike |
| SaveFile.CountsAreOutsideTheChecksum | code/gsc_graph.cpp:2872-2903 | an instance: 160 zero bytes load as 8 nodes and as 4 nodes with 5 edges |
| StringMemory.MtSize | code/gsc_json.cpp:252-261 | the least block size that holds a string with header and terminator |
| StringMemory.MtFits | code/gsc_json.cpp:330-349 | the dry run answers by the sums over size classes |
| StringMemory.FitsExactly | code/gsc_json.cpp:330-349 | best fit with splitting succeeds and leaves the reserve exactly when every size class covers its requests and enough nodes remain |
| StringMemory.OrderDoesNotMatter | code/gsc_json.cpp:328-349 | the answer depends on the multiset of requests only |
| StringMemory.FewerAlsoFit | code/gsc_json.cpp:328-349 | leaving a request out never makes the others fail |
| JsonKeys.KeyIndexExactly | code/gsc_json.cpp:159-170 | a key is an index exactly when it is the decimal text of one in range |
| JsonPush.VariablesCounted | code/gsc_json.cpp:176-303 | the count covers the variables of the loaded value, and is exact when no object repeats a key |
| JsonPush.SameStrings | code/gsc_json.cpp:176-303 | load and count meet the same strings equally often, in different orders |
| JsonMemory.JsonCost.Count | code/gsc_json.cpp:263-303 | the recursive count adds up variables, distinct strings and their blocks |
| JsonMemory.ScriptMemory.Push | code/gsc_json.cpp:176-241 | a load never holds more variables at once than were counted, interns what was counted and builds the value its tree stands for |
| JsonMemory.CountedStringsFit | code/gsc_json.cpp:221-349 | if the dry run passed in the count's order, all string blocks can be taken in the load's order |
| JsonRoundTrip.SavedLoadsBack | code/gsc_json.cpp:159-650 | a loadable value whose save went through comes back equal, with insertion order where there are string keys |
| JsonRoundTrip.RoundTripExactly | code/gsc_json.cpp:159-650 | it comes back equal exactly when no string key is spelled like an index |
| JsonBudget.SavedExactly | code/gsc_json.cpp:463-650 | a save goes through exactly when the entries and the string bytes of the value are within the caps, in whatever order they are written |
| JsonBudget.StoredComesBackExactly | code/gsc_json.cpp:159-650 | a loadable value within the caps is saved, and comes back equal exactly when no string key is spelled like an index |
| JsonMeaning.SaveStandsFor | code/gsc_json.cpp:463-650 | what is saved stands for the value: numbers and strings as themselves, a list for indices from zero, an object for keys in insertion order |
| JsonMeaning.LoadStandsFor | code/gsc_json.cpp:159-241 | what is loaded is the value the tree's normal form stands for |
| JsonNormal.RoomyLoadSavesNormal | code/gsc_json.cpp:159-650 | loading any tree and saving the value within the caps gives its normal form: booleans as 1 and 0, large integers as reals, the last of repeated keys, index keys sorted or as a list, what cannot be loaded as null |
| JsonNormal.NormalExactly | code/gsc_json.cpp:159-650 | a tree comes back as it is exactly when it is normal, and what came back once comes back again |
| JsonRoundTrip.SpelledLikeAnIndex | code/gsc_json.cpp:159-170 | the string key "7" does not |
| AsyncJobs.JobList.SaveRename | code/gsc_json.cpp:1099-1119 | a superseded save is dropped and still succeeds; else the data is installed and older running saves of the path are superseded |
| AsyncJobs.JobList.IsFull | code/gsc_json.cpp:1123-1148 | full by running or unclaimed jobs, or by the bytes of their loads |
| AsyncJobs.JobList.Submit | code/gsc_json.cpp:1405-1416 | a fresh id at the head of the list |
| AsyncJobs.JobList.FinishSave | code/gsc_json.cpp:1253-1257 | the job is done, with its result, and no other changes |
| AsyncJobs.JobList.FinishLoad | code/gsc_json.cpp:1220-1230 | the job holds its document or has failed, and no other changes |
| AsyncJobs.JobList.TrimSaves | code/gsc_json.cpp:1318-1341 | the list walk drops the finished saves beyond the limit |
| AsyncJobs.TrimKeepsNewest | code/gsc_json.cpp:1313-1341 | exactly the newest 1024 finished saves stay and no other job is touched |
| AsyncJobs.JobList.CleanupOnLevelLoad | code/gsc_json.cpp:1285-1311 | exactly the running jobs stay |
| AsyncJobs.JobList.Claim | code/gsc_json.cpp:1528-1563 | takes a finished job off the list, leaves a running or unknown one |
| AsyncProtocol.EventKeeps | code/gsc_json.cpp:954-1588 | every step of the script thread or a worker keeps the protocol's invariant |
| AsyncProtocol.DataNeverGoesBack | code/gsc_json.cpp:1096-1119 | in every run data at a path is replaced by later-submitted data only |
| AsyncProtocol.SuccessMeansOnDisk | code/gsc_json.cpp:1096-1258 | once a save has reported success its data or later data is at its path in every later state |
| AsyncProtocol.ClaimedSuccessIsOnDisk | code/gsc_json.cpp:1520-1588 | the same for a finished job whose claim will say 1 |
| AsyncProtocol.QuietFileIsNewestSave | code/gsc_json.cpp:1096-1258 | with no save of a path running the file is the newest-submitted save that reported success |
| AsyncProtocol.RunningJobIsNeverFreed | code/gsc_json.cpp:1283-1341 | the job of a live worker is listed in every state |
| AsyncProtocol.ClaimedOnce | code/gsc_json.cpp:1520-1588 | no run claims an id twice |
| AsyncProtocol.ListStaysBounded | code/gsc_json.cpp:1123-1148 | ids strictly descend, and jobs and load bytes stay within the caps, although they are checked in an earlier section |
| AsyncOutcomes.SaveNowTakesEffect | code/gsc_json.cpp:1099-1119 | json_save replaces the file and reports success exactly when its rename works |
| AsyncOutcomes.InstallTakesEffect | code/gsc_json.cpp:1099-1119 | a worker puts its data in place when its rename works and nothing newer is there, and succeeds then or when something newer is |
| AsyncOutcomes.FinishTellsTruth | code/gsc_json.cpp:1253-1257 | the job of a finished save says how its worker went, and successes alone are reported |
| AsyncOutcomes.LoadTellsTruth | code/gsc_json.cpp:1220-1230 | the job of a finished load holds the document exactly when it was parsed |
| AsyncOutcomes.EveryOutcomeHasItsReason | code/gsc_json.cpp:954-1258 | in every run a finished save says 1 exactly when its rename worked or newer data was there, and 0 when the rename or the write failed |
| AsyncOutcomes.AdmittedExactly | code/gsc_json.cpp:1123-1148 | a submit is let in exactly when one more job, and the bytes of a load, still fit |
| AsyncOutcomes.CleanupLeavesRunning | code/gsc_json.cpp:1285-1311 | a new level leaves exactly the running jobs |
| RateLimit.AskStaysWithin | code/ratelimiter.cpp:111-141 | a request keeps the level within its limit, and a granted one raises the charge by a period |
| RateLimit.WindowBound | code/ratelimiter.cpp:111-141 | n requests granted by one bucket in T ms satisfy n * period < (burst + 1) * period + T |
| RateLimit.DeniedExactly | code/ratelimiter.cpp:118-137 | denied exactly when the bucket is full and the low 32 bits of its age are below a period |
| RateLimit.PauseIsAnsweredExactly | code/ratelimiter.cpp:118-137 | the pauses after which every bucket grants a request are exactly those whose low 32 bits are at least a period and at most 2^32 ms minus a period |
| RateLimit.LongPauseIsDenied | code/ratelimiter.cpp:118-137 | a full bucket denies after a pause of exactly 2^32 ms |
| RateLimit.ExpiredIsSpent | code/ratelimiter.cpp:73-84 | where the bursts are close enough, a bucket that may be reclaimed has leaked all it held |
| RateLimit.ReclaimIsFairExactly | code/ratelimiter.cpp:73-84 | a limit reclaims only leaked buckets exactly when its burst times the period is at most 1 ms below that of the largest burst |
| AddressPool.ServeKeeps | code/ratelimiter.cpp:49-166 | a request keeps one bucket per address and every level within the limit |
| AddressPool.AddressBound | code/ratelimiter.cpp:49-166 | over any run of limits that reclaim fairly, as under one limit, each address keeps to the window bound, whatever other addresses do |
| AddressPool.AddressBoundWithLoss | code/ratelimiter.cpp:49-166 | over any run of mixed bursts of one period, each address keeps to the window bound plus what reclaiming took from it |
| AddressPool.LossIsBounded | code/ratelimiter.cpp:73-84 | one reclaim takes less than the periods by which its burst falls short of the largest |
| AddressPool.MixedLimitsLoosen | code/ratelimiter.cpp:49-166 | where the smaller limit does not reclaim fairly, three full larger bursts of one address get through, more than the bound allows |
| AddressPool.MixKeepsBoundExactly | code/ratelimiter.cpp:49-166 | all runs that mix two limits of one period keep every address to the window bound exactly when the smaller burst times the period is at most 1 ms below the larger |
| BucketChains.UnlinkKeeps | code/ratelimiter.cpp:77-83 | taking a bucket off its chain leaves all chains threaded and frees just its slot |
| BucketChains.LinkKeeps | code/ratelimiter.cpp:86-103 | a cleared bucket put at the head of its chain leaves all chains threaded |
| BucketChains.OnExactlyOneChain | code/ratelimiter.cpp:49-109 | a bucket in use is at one place of one chain, that of its address's hash |
| BucketChains.PointersAreInverse | code/ratelimiter.cpp:49-109 | next and prev undo each other |
| BucketChains.BucketPool.FindOnChain | code/ratelimiter.cpp:59-63 | the walk over one chain finds the address's bucket if there is one anywhere |
| BucketChains.BucketPool.BucketForAddress | code/ratelimiter.cpp:49-109 | the address's bucket, else the first free or expired one, else none; the chains stay threaded |
| BucketChains.BucketPool.RateLimit | code/ratelimiter.cpp:111-141 | the in-place update is the leaky-bucket function; no bucket means denied |
| BucketChains.BucketPool.RateLimitAddress | code/ratelimiter.cpp:160-167 | the pool with chains answers as the pool without them |
| ProxyClients.Proxy.HandlePacket | code/proxy/proxy.c:902-1036 | the step of a packet, and the socket it is forwarded on: that of the live thread that holds the slot of the client, else one of a new thread |
| ProxyClients.Proxy.HandleExit | code/proxy/proxy.c:1628-1649 | the step of a thread's end |
| ProxyClients.EventKeeps | code/proxy/proxy.c:902-1649 | packets, failed starts and exits keep slots owned, sockets held and closed once, and the count exact |
| ProxyClients.LateExitSparesOthers | code/proxy/proxy.c:1628-1636 | in every run a thread's end leaves another thread's slot alone, even at equal wrapped generations |
| ProxyClients.OwnExitClears | code/proxy/proxy.c:1628-1636 | a thread that still has its slot clears it |
| ProxyClients.AllReturned | code/proxy/proxy.c:902-1649 | with no thread left every socket was closed once, no slot names one and the count is zero |
| ProxyClients.ServedClientStays | code/proxy/proxy.c:902-917 | a packet of a client whose live thread still holds its slot changes nothing |
| ProxyClients.OtherClientIsServed | code/proxy/proxy.c:917-1036 | any other packet gives its client a socket and a thread, if both can be had |
| HttpWs.FinishKeeps | code/http_websocket_client.hpp:554-571 | reporting a request settles it: one outcome, or its level is over |
| HttpWs.WsEndedKeeps | code/http_websocket_client.hpp:588-614 | the end of a connection is told by a close exactly when its open was |
| HttpWs.LevelChangedKeeps | code/http_websocket_client.hpp:174-188 | a level change drops the queue and detaches every slotted socket |
| HttpWs.ReapKeeps | code/http_websocket_client.hpp:664-690 | only connections the library has let go are freed, and their slots with them |
| HttpWs.StepKeeps | code/http_websocket_client.hpp:63-690 | every callback, timer, script call and frame step keeps the invariant |
| HttpWs.OneOutcome | code/http_websocket_client.hpp:63-67 | in every run a request is told at most once, and exactly once when it has ended in its own level with both callbacks |
| HttpOutcomes.OutcomesHaveReasons | code/http_websocket_client.hpp:554-586 | every success told was completed with no error or kill before it and has all bytes of the body; every failure was a bad or stillborn request, one that broke off, or one with an error or kill |
| HttpOutcomes.SuccessIsTold | code/http_websocket_client.hpp:554-571 | and every such success in the level of its request is told to a script that hears it |
| HttpOutcomes.FailureIsTold | code/http_websocket_client.hpp:554-586 | and every such failure, with its first or overwriting message |
| HttpMessages.MessageIsHeard | code/http_websocket_client.hpp:848-880 | the end of a message tells all bytes of its parts, unless they are over 65000, nobody listens or the level is over; a full queue kills the socket |
| HttpMessages.OnlyEndsTellMessages | code/http_websocket_client.hpp:848-880 | nothing else tells a message |
| HttpWs.NothingFreedEarly | code/http_websocket_client.hpp:12-15 | everything the library holds is in memory and no slot names a freed socket |
| HttpWs.NoOldCallbacks | code/http_websocket_client.hpp:174-188 | in every run a delivered callback is that of a request or socket made in the level that runs, after every level change so far |
| HttpWs.BytesAreCounted | code/http_websocket_client.hpp:545-552 | the count of undelivered message bytes is that of the queue |
| HttpWs.SessionsMatch | code/http_websocket_client.hpp:588-614 | a script that hears opens and closes is between the two exactly while connected |
| HttpWsObject.HttpWsClient.OpenSocket | code/http_websocket_client.hpp:101-136 | the first free slot gets the socket, or -1 |
| HttpWsObject.HttpWsClient.ChangeLevel | code/http_websocket_client.hpp:174-188 | the loop over the slots is the level change of the protocol |
| HttpWsObject.HttpWsClient.ReceivePart | code/http_websocket_client.hpp:848-880 | parts add up to one message or a dropped one, and a full queue kills the socket |
| HttpWsObject.HttpWsClient.ReapAll | code/http_websocket_client.hpp:664-690 | the loops free exactly the ended connections and empty their slots |
| FormatFields.DigitsReadBack | code/lib/qvsnprintf.c:1170-1183 | the digits read in their base are the number |
| FormatFields.NoLeadingZero | code/lib/qvsnprintf.c:1170-1183 | only zero starts with a zero |
| FormatFields.IntFieldLength | code/lib/qvsnprintf.c:730-829 | an ungrouped field is max(width, sign + prefix + max(precision, digits)) long |
| FormatFields.IntFieldReadsBack | code/lib/qvsnprintf.c:730-829 | it is padding, sign, prefix, and zeros and digits that read back to the value |
| FormatFields.GroupedKeepsDigits | code/lib/qvsnprintf.c:819-824 | grouping only adds commas |
| FormatterLoop.ConvertDigits | code/lib/qvsnprintf.c:1170-1183 | the digits in reverse order, and 64 bits never fill the buffer |
| FormatterLoop.FmtStr | code/lib/qvsnprintf.c:697-728 | the loops print the string field |
| FormatterLoop.FmtInt | code/lib/qvsnprintf.c:730-829 | the loops print the integer field |
| FormatterLoop.Step | code/lib/qvsnprintf.c:330-683 | one turn of the switch leaves what the rest prints unchanged, or has found an overflow |
| FormatterLoop.QVsnprintf | code/lib/qvsnprintf.c:295-694 | the buffer holds the first size - 1 characters of the unlimited output and a terminator, nothing else changes, and the result is the full length or -1 |
| FormatMeaning.DirectiveIsRead | code/lib/qvsnprintf.c:330-683 | flags in any order, width, precision, stars and modifier of a directive are read as what they ask for, and the rest of the format goes on with the next argument |
| FormatMeaning.PrintsSigned | code/lib/qvsnprintf.c:464-495 | %d and %i print the argument, as a value of its type, in base ten: sign, zeros and digits that read back, padded as asked |
| FormatMeaning.PrintsUnsigned | code/lib/qvsnprintf.c:496-540 | %u, %o, %x and %X print it in base 10, 8 and 16, with 0x or 0X exactly for a non-zero alternative form |
| FormatMeaning.PrintsString | code/lib/qvsnprintf.c:697-728 | %s prints what the precision allows, padded with spaces on the side asked for |
| FormatMeaning.PrintsCharacter | code/lib/qvsnprintf.c:593-674 | %c prints the byte and %% a percent sign |
| FormatMeaning.PrintsPointer | code/lib/qvsnprintf.c:602-628 | %p prints the address in hexadecimal with its prefix, or (nil) |
| FormatMeaning.HugeWidthOverflows | code/lib/qvsnprintf.c:370-377 | a width past INT_MAX ends the output as an overflow |
| FormatMeaning.HugePrecisionOverflows | code/lib/qvsnprintf.c:401-410 | so does such a precision |

## Left out

- Engine entry points, script argument checks, the list of graphs, graph ids and statistics: one-branch facts around the modelled calls.
- Floating-point rounding, NaN and square roots: costs are reals and the distance a parameter.
- GraphStore.AStarGraph.Autodiscover: traces, the grid and the caps decide the list of discoveries, and that list is arbitrary here.
- ReverseDijkstra.GrowTree: exact for non-negative costs only; with negative ones, which the calls refuse but a file may hold, the tree can still be walked, but nothing is said of its costs.
- PathQueries.AnswerIsRoute: with a cache the costs must not be negative, for the same reason; without one any costs will do.
- Node queries by reachability, closest node and closest edge, and the listing calls: read-only members that would add easy facts.
- SaveFile.Save: opening, writing and closing the file are not part of this model, nor is a total size past 32 bits.
- JsonRoundTrip.SavedLoadsBack: structs, entities, vectors and reference cycles are not part of the model, the text form of JSON is not either, and the walk budgets are threaded as values.
- JsonMemory.CountedStringsFit: speaks of each string's first interning; strings freed by a repeated key and interned again are not modelled.
- AsyncProtocol.EventKeeps: two texts that name one file are different paths, ids do not wrap at 2^31, and quitting is left out.
- AddressPool.AddressBoundWithLoss: the limits of a run have one period, as those of the program have.
- BucketChains.BucketPool.BucketForAddress: addresses have a non-zero type, as the program's callers give.
- ProxyClients.EventKeeps: stopping and shutdown, timeouts, and how an address becomes an identifier are left out; two clients with one identifier count as one.
- HttpWs.StepKeeps: timers may fire at any time, so nothing depends on clock values; send queues, pings and close frames, the byte budget of a frame and shutdown are left out, and level numbers do not wrap.
- HttpWs.NoOldCallbacks: one turn of the delivery loop, without the byte budget of a frame; timers, and the library's error, body and completion callbacks are steps of the protocol, not methods of the class.
- FormatterLoop.QVsnprintf: what a floating-point conversion prints is a parameter, the store of `%n` is not modelled, and the class library's locale separator is the comma of the default build.
- MySQL, command execution, sound, hooking, BSP dump and jump physics: input and output or foreign calls.
