# CodeWalker: a verified model of the step graph, the Navigate call and the review pipeline

CodeWalker walks a client through code. A session holds a graph of steps; the client moves over
its edges, and each move streams a narration of the step it reaches. This project models three
parts of the server and proves what they promise, for every input, every run and every schedule.

**The step graph** (`StepGraph`, `Cycles`, `CycleTheory`, `CycleEscapes`, `CycleDetector`,
`Walking`, `WalkTheory`, `Walker`, `Building`, `BuildTheory`, `BuildCoverage`, `BuiltStepTheory`,
`Builder`). Steps
are heap objects in a map. Cycle detection is the nested recursive search over two maps; it is
proved equal to a functional search, and that search is proved sound, complete in the sense that
every cycle is met, exact and terminating on every graph, with dangling targets and self-loops, in
every order of the roots; which IDs every search reports is settled by a condition on the graph.
The walker is an object whose methods refine a small state machine, about which whole runs are
proved. The builder is the recursive compiler from parser nodes to steps, with its counter and its
choice of the entry; each step is proved to carry its node, call by call and child by child, and
the whole to be a forest that the detector accepts.

**One session under concurrent calls** (`Narration`, `NarrationTheory`, `Navigation`,
`NavigationTheory`, `ServeTheory`, `Sessions`, `NavigateCall`, `SessionStore`). A Navigate call is a machine whose
actions are those of the provider, the summary goroutine, the client and the scheduler. Any number
of calls on one session interleave freely; only the critical section, the cache lookup and the cache
write are atomic. The theorems are about every schedule. The imperative call, with its critical
section, select loop, replay and cache write, is proved to carry out a run of that machine. The
session registry is an object over an abstract clock, with theorems about timed runs.

**The review pipeline** (`Text`, `Decimals`, `Patches`, `PatchTheory`, `Orderers`, `OrderTheory`,
`ReviewGraph`, `ReviewTheory`, `ReviewNavigation`, `ReviewSession`, `Summaries`). Patch text is split into hunks, files
are sorted, hunks are chained into a graph, and the steps are listed for the client. The end result
is that Forward order, the order on the wire and file and hunk order are one list, exactly when the
hunks have distinct places, and that the order in which the forge lists the files does not matter
to the sorting orderers; concurrent FORWARD calls are answered along that list. The hunk header is the one of the unified format in POSIX.1-2017 (IEEE Std
1003.1), Shell and Utilities, `diff`, section "Diff -u or -U Output Format", with the section
heading that Git adds.

Each loop of the program is a method with its invariants, proved against a function on values; the
theorems are lemmas about those functions. `dafny verify dfyconfig.toml` checks everything.

## Where the code does less than its comments say

The model follows the code.

- `internal/graph/cycle.go:3` promises all IDs that take part in a cycle. Only the ends of back arcs
  are recorded. `CycleDetector.RingNotFullyReported` gives a ring of three steps of which two are
  reported; `CycleTheory.DetectExact` says which IDs one search reports. Over all orders of the roots
  and of each step's edges, `CycleEscapes.CommentKeptIff` gives the exact condition on the graph:
  no ID on a cycle may have an escape, a simple path to it to which it has no arc back and around
  which it reaches no step with an arc to it. `CycleEscapes.AlwaysReportedIff` says it ID by ID.
- `internal/session/session.go:13-14` calls a replay byte-for-byte identical to the live output. A
  replay carries the Complete of its own call and the summary after the tokens.
  `NarrationTheory.ReplayIdenticalIff` gives the exact condition for one live stream: the same step,
  edges and breadcrumb, and no summary or one that came after the last token.
  `NarrationTheory.AlwaysIdenticalIff` gives it for all streams the first call could have sent, in
  terms known before the replay. `NavigationTheory.RevisitDiffers` is a witness on every graph: a step
  gone to twice in a row. `NarrationTheory.LiveEqualsReplayUpToSummary` says what always holds: the
  same tokens, then each call's own Complete.
- `internal/graph/builder.go:115-116` speaks of edges between siblings. Only edges from parent to
  child are made: `BuildTheory.NoSiblingEdges`, with `BuildTheory.TwoSiblings` as an example.
- `internal/graph/walker.go:91` says that GoTo checks for an edge to its target. It accepts any step
  of the graph: `WalkTheory.GoToSucceedsIff`, with `WalkTheory.GoToWithoutEdge` as an example.
  The comment is right exactly on the graphs of `WalkTheory.GoToFollowsEdgesIff`.
- `internal/graph/builder.go:12` and `92`: with an entry symbol that no function bears, the first
  node is built twice when it is a function. `BuildCoverage.EachFunctionOnce` and
  `BuildCoverage.StepCount` give the exact condition under which each function is built once.

## Model

| member | source | states |
|---|---|---|
| CycleTheory.DetectCorrect | internal/graph/cycle.go:5-45 | for every graph and every root order: no ID is reported twice, each reported ID is an end of an arc that closes a simple cycle, every cycle holds an arc whose target's visit ends no earlier than its source's, so one that was recorded and has both ends reported, and nothing is reported if and only if the graph is acyclic |
| CycleTheory.DetectExact | internal/graph/cycle.go:20-35 | an ID is reported if and only if it is an end of an arc whose target's visit ends no earlier than its source's visit |
| CycleTheory.DetectVisitsAll | internal/graph/cycle.go:10-43 | the search visits exactly the steps and the non-empty targets of their edges, dangling ones included, each exactly once, and leaves no ID on the stack |
| CycleTheory.EveryCycleHasBackArc | internal/graph/cycle.go:24-34 | in a finished search every cycle holds a recorded arc, with both its ends reported |
| CycleEscapes.AlwaysReportedIff | internal/graph/cycle.go:20-43 | every search, over all orders of roots and edges, reports an ID if and only if the graph has no escape to it |
| CycleEscapes.CommentKeptIff | internal/graph/cycle.go:3 | every search reports exactly the IDs on cycles if and only if no ID on a cycle has an escape |
| CycleEscapes.UnreportedEscapes | internal/graph/cycle.go:11-36 | the active path on which a search entered an ID it did not report is an escape to it |
| CycleEscapes.EscapingSearch | internal/graph/cycle.go:20-43 | along an escape there is an order of roots and edges in which the ID is not reported |
| CycleTheory.AllReportedWhenShort | internal/graph/cycle.go:3 | an ID with a self-loop or a two-step cycle is reported, with the edges in the order they have and the roots in any |
| CycleDetector.RingNotFullyReported | internal/graph/cycle.go:3 | on a ring of three steps the search from the first reports two of the three IDs |
| CycleDetector.CycleSearch.Dfs | internal/graph/cycle.go:10-37 | the nested function changes the maps and the result as one visit of the functional search does, and terminates by the number of unvisited IDs |
| CycleDetector.CycleSearch.Follow | internal/graph/cycle.go:21-34 | one edge: an empty target is skipped, an unvisited one is entered, one on the stack has both ends recorded once |
| CycleDetector.DetectCycles | internal/graph/cycle.go:5-45 | for some order of the map loop the result is that of the functional search |
| CycleDetector.Contains | internal/graph/cycle.go:47-54 | found if and only if the ID is in the list |
| WalkerObject.Walker.GoTo | internal/graph/walker.go:93-124 | the object moves as the state machine does, with the same error in each failing case, and marks the target visited |
| WalkerObject.Walker.Back | internal/graph/walker.go:127-140 | the object pops the breadcrumb as the state machine does |
| WalkerObject.Walker.FollowEdgeLabel | internal/graph/walker.go:148-159 | the first navigable edge with the label decides, as in the state machine |
| WalkerObject.Walker.Forward | internal/graph/walker.go:143-145 | follows the first navigable NEXT edge, as the state machine does |
| WalkerObject.Walker.NavigableEdges | internal/graph/walker.go:162-174 | exactly the navigable edges of the current step, in order |
| WalkTheory.StepShape | internal/graph/walker.go:93-159 | a failed operation changes nothing, a move pushes one ID, a Back pops one, visited flags are never taken back, and the trail invariant is kept |
| WalkTheory.TrailFromStart | internal/graph/walker.go:72-159 | after any run from the entry the trail begins at the entry, holds graph IDs, has length 1 + moves - backs, and everything after its first ID is visited |
| WalkTheory.RunKeepsTrail | internal/graph/walker.go:93-159 | the trail invariant over any run from any state that has it |
| WalkTheory.PrefixKept | internal/graph/walker.go:93-140 | a run that never goes back beyond a depth leaves the trail up to that depth as it was |
| WalkTheory.ExcursionRestores | internal/graph/walker.go:93-140 | a run that never goes back beyond its start and has as many backs as moves ends at the same step with the same breadcrumb |
| WalkTheory.BacksUndoMoves | internal/graph/walker.go:93-140 | k successful moves followed by k Backs restore the current step and the breadcrumb |
| WalkTheory.GoToSucceedsIff | internal/graph/walker.go:93-118 | GoTo succeeds if and only if the current step and the target are in the graph |
| WalkTheory.GoToWithoutEdge | internal/graph/walker.go:91 | GoTo leads between two steps without any edge |
| WalkTheory.GoToFollowsEdgesIff | internal/graph/walker.go:91 | every successful GoTo follows a navigable edge if and only if every step has one to every step, itself included |
| WalkTheory.ApplyMeans | internal/graph/walker.go:93-159 | what each command does, without naming its function: Forward and Follow go along the first edge of the current step that has the label and is navigable, no earlier one having both, and fail with NoSuchEdge exactly when there is none; GoTo goes to its target; Back goes to the last ID of the breadcrumb and takes it off; each error case changes nothing or is a Back to a step that is gone |
| WalkTheory.NavigableIs | internal/graph/walker.go:162-174 | the navigable edges of a list are those at rising places that are all the places of navigable edges |
| BuilderObject.Builder.BuildNode | internal/graph/builder.go:23-76 | the recursive builder adds exactly the compiled steps of the node, in preorder, and advances the counter by their number |
| BuilderObject.Builder.BuildChildren | internal/graph/builder.go:117-136 | the edges returned are the child edges in child order, and the children's steps are added |
| BuilderObject.Build | internal/graph/builder.go:13-113 | the graph is the compiled plan with later steps replacing earlier ones of the same ID, and its entry is the compiled entry |
| BuildTheory.PlaceIsCounter | internal/graph/builder.go:17-27 | the number in a step's ID is the step's place in the preorder, whatever IDs the nodes bring |
| BuildTheory.FreshInjective | internal/graph/builder.go:17-20 | different counters give different IDs, past four digits too |
| BuildTheory.FreshIdIs | internal/graph/builder.go:17-20 | a numbered ID is the prefix and a decimal numeral of the counter of at least four digits, without a leading zero when it has more |
| BuildTheory.ColonNotFresh | internal/graph/builder.go:19 | an ID with a colon is never mistaken for a numbered one |
| BuildTheory.WellNamedDistinct | internal/graph/builder.go:24-27 | distinct explicit IDs, none of the numbered form, give distinct step IDs |
| BuildTheory.DistinctIffNamesApart | internal/graph/builder.go:17-27 | the step IDs are distinct if and only if the nodes bring distinct IDs and none brings the number that a node without an ID will get |
| BuildTheory.CountIffDistinct | internal/graph/builder.go:48 | the graph has one step for each compiled step if and only if the IDs are distinct |
| BuildTheory.NextEdgesConserved | internal/graph/builder.go:117-136 | the compiled IDs are, as a multiset, the targets of NEXT edges together with the roots |
| BuildTheory.NextForest | internal/graph/builder.go:117-136 | with distinct IDs every step but the roots has exactly one incoming NEXT edge, the roots have none, and no NEXT edge leaves the graph |
| BuildTheory.ChildOrder | internal/graph/builder.go:119-134 | the k-th child edge leads to the step compiled from the k-th child |
| BuildTheory.NoSiblingEdges | internal/graph/builder.go:115-134 | with distinct IDs no NEXT edge leads from a sibling, or from any step below one, to a sibling |
| BuildTheory.TwoSiblings | internal/graph/builder.go:115-134 | a node with two children: one edge to each child and none between them |
| BuildTheory.DetectorAccepts | internal/graph/builder.go:22-76 | with distinct IDs and no internal call targets the detector reports nothing, in any root order |
| BuiltStepTheory.StepCarries | internal/graph/builder.go:23-76 | the step compiled at a place of the preorder has the ID, label, kind, 32-bit source lines and columns and raw text of the node there; its edges are, in order, one CALL edge for each call, navigable if and only if the call is internal, aimed at the call's target if internal and naming package and symbol if not, and then one navigable NEXT edge for each child, to the step of that child |
| BuiltStepTheory.NavigableOfStep | internal/graph/builder.go:51-73 | the navigable edges of a built step are those of its internal calls, in order, and then all its child edges |
| BuiltStepTheory.ForwardToFirstChild | internal/graph/builder.go:117-136 | with distinct IDs Forward from a built step leads to the step of its first child, whatever calls come first, and fails with NoSuchEdge if and only if the node has no children |
| BuildCoverage.PlanIs | internal/graph/builder.go:78-106 | which nodes are built and in which order: the functions the symbol names, or the first function, then the functions whose label is not the entry's, then the first node if no entry was found |
| BuildCoverage.EntryChosen | internal/graph/builder.go:79-110 | the entry is the last function that the symbol names, or the first function when there is no symbol, or else the first node |
| BuildCoverage.EachFunctionOnce | internal/graph/builder.go:78-106 | each top-level function is built exactly once if and only if a check on the labels and the symbol passes |
| BuildCoverage.StepCount | internal/graph/builder.go:78-106 | when that check passes, the graph has one step for each node of each function tree and of the tree that the fallback builds, if and only if the names of the nodes built are apart |
| BuildCoverage.EntryInGraph | internal/graph/builder.go:79-110 | the entry is a step of the graph if and only if there is any node, duplicate IDs or not |
| BuildCoverage.EntryTreeReached | internal/graph/builder.go:79-110 | with distinct IDs every step of the entry's tree is reachable from the entry, whatever calls the nodes make |
| BuildCoverage.EntryReachesItsTree | internal/graph/builder.go:79-110 | without internal call targets no other step is reachable |
| NarrationTheory.ActKeepsInv | server/navigate.go:82-175 | no action of provider, goroutine, client or scheduler breaks the invariant of a call: tokens sent are tokens received, a summary at most once, Complete only at the end |
| NarrationTheory.DoneLive | server/navigate.go:126-175 | a live call that ends well has received the whole stream and has sent its tokens in order, its summary somewhere among them, and Complete with the same summary last |
| NarrationTheory.FailsIff | server/navigate.go:86-240 | the actions by which a call fails, each with its error, are exactly the provider's refusal, a cancellation, and a failed send of a token, a summary, a replayed event or Complete; nothing more is then sent or cached |
| NarrationTheory.LiveTracesExactly | server/navigate.go:126-175 | the traces that live calls can send for given tokens and summary are exactly those with SummaryReady after any number of tokens |
| NarrationTheory.LiveStreams | server/navigate.go:126-175 | a live trace is the tokens in order, the summary at most once, and a single Complete, last, with the call's step, edges, breadcrumb and summary |
| NarrationTheory.ReplayRefinesLive | server/navigate.go:199-240 | the trace of a replay is one that a live call could have sent |
| NarrationTheory.ReplayStreams | server/navigate.go:199-240 | a replay trace is the cached tokens in order, the cached summary, and a single Complete, last, with the replaying call's step, edges and breadcrumb and the cached summary |
| NarrationTheory.ReplayIdenticalIff | internal/session/session.go:12-15 | a live stream and the replay of a later call are identical if and only if both calls end with the same Complete and there is no summary or it came after all tokens |
| NarrationTheory.AlwaysIdenticalIff | internal/session/session.go:12-15 | the replay is identical to every stream the first call could have sent if and only if step, edges and breadcrumb are the same and there is no summary or no token |
| NavigationTheory.RevisitDiffers | server/navigate.go:50-80 | on every graph a step gone to twice in a row is answered with a longer breadcrumb, so the replay is never identical |
| NarrationTheory.LiveEqualsReplayUpToSummary | server/navigate.go:126-240 | without SummaryReady both a live stream and the replay of a later call are the tokens and each call's own Complete, so equal if and only if the two Completes are |
| NarrationTheory.ActDecreases | server/navigate.go:126-158 | every action that changes a call in or after the loop decreases a measure |
| NarrationTheory.LoopEnds | server/navigate.go:121-158 | from every state of the loop some schedule within the measure leaves it |
| NavigationTheory.RunsKeepInv | server/navigate.go:28-175 | the system invariant over every schedule of any number of calls |
| NavigationTheory.WalkerIsSequential | server/navigate.go:28-52 | under every schedule the walker is where the requests, served one at a time in lock order, put it, and no call is served twice |
| ServeTheory.ServeMeans | server/navigate.go:28-65 | a request for a walker command is served by that command; the call goes on if and only if the command succeeds, and then it hands on the ID of the step reached, whether that is a hunk, its navigable edges and the labels of the breadcrumb steps in the graph |
| ServeTheory.ServedRuns | server/navigate.go:31-47 | walker commands served one after the other leave the walker where running them leads |
| ServeTheory.ServedAnswer | server/navigate.go:31-65 | the i-th of a sequence of commands is answered Ok if and only if it succeeds from where the earlier ones have led, and then with the step it reaches |
| NavigationTheory.CompleteIsOwn | server/navigate.go:50-65 | every Complete carries the step, edges and breadcrumb of its own call's critical section, and is the last event of its stream |
| NavigationTheory.CacheIsFullOutput | server/navigate.go:161-164 | an entry stored under a step is the full output that some call received narrating that step |
| NavigationTheory.CacheOnlyGrows | internal/session/session.go:73-77 | no step leaves the cache |
| NavigationTheory.LookupAfterWriteIsHit | server/navigate.go:78-80 | a call that has not looked up when a step is in the cache never asks the provider about that step |
| NavigationTheory.CallsEndWell | server/navigate.go:78-176 | how every call ends: a live success has streamed all tokens and its summary, then one Complete with its own step, edges and breadcrumb, and has written the cache; a replay has streamed a stored entry in full in the same shape; a failure has sent no Complete, and has written only if Complete was all that was missing |
| NavigationTheory.SendNeverBlocks | server/navigate.go:82-101 | the summary goroutine finds its slot empty in every reachable state, also after its call has returned |
| NavigationTheory.EveryReplayIsLive | server/navigate.go:78-80 | in every run, what a replay sent is what a live call for the same step could have sent |
| Sessions.Session.MoveWalker | server/navigate.go:31-47 | the switch over the destination applies the one walker command |
| Sessions.Session.Move | server/navigate.go:28-65 | the critical section and the labels give the walker state and the answer of the machine |
| Sessions.Session.CrumbLabels | server/navigate.go:60-65 | the labels of the breadcrumb steps that are in the graph, in order |
| Sessions.SelectLoop | server/navigate.go:126-158 | for every sequence of events the loop's variables, its stream and the way it ends are those of the machine |
| Sessions.ReplayCached | server/navigate.go:199-240 | what is sent is the replay trace up to the first cancellation seen before a token or the first failed send, and the error says which |
| NavigateCall.Navigate | server/navigate.go:28-176 | one whole call is a run of the concurrent machine: same walker, same cache, same stream, same end |
| NavigateCall.NarrateLive | server/navigate.go:82-175 | the part after a cache miss is the rest of such a run |
| SessionStore.Store.Set | internal/session/store.go:23-27 | the session is registered under its ID |
| SessionStore.Store.Get | internal/session/store.go:30-39 | the session if there is one, its clock set to now, and no other clock |
| SessionStore.Store.Delete | internal/session/store.go:42-46 | exactly that ID is gone |
| SessionStore.Store.Evict | internal/session/store.go:83-94 | exactly the sessions not older than the cutoff are kept |
| SessionStore.LeavesIff | internal/session/store.go:42-94 | a session leaves by Delete or by an eviction that finds it idle for longer than the limit, and by nothing else |
| SessionStore.StaysIff | internal/session/store.go:30-94 | over a run with a monotone clock, a session neither deleted nor replaced is there at the end if and only if each eviction found a use no older than its limit |
| SessionStore.SurvivesAfterGet | internal/session/store.go:30-39 | a session returned by Get at time t survives every eviction up to t plus the limit |
| Decimals.AtoiReadsSigned | internal/forge/forges/github.go:463-471 | reading back a printed integer gives it, if and only if it fits in 64 bits |
| Decimals.AtoiIff | internal/forge/forges/github.go:463-471 | exactly the words of an optional sign and at least one digit whose value fits in 64 bits are read, as that value |
| Text.JoinSplit | internal/forge/forges/github.go:402 | the lines of a text, joined, are the text, and hold no newline |
| Text.SplitJoin | internal/forge/forges/github.go:402 | lines without a newline, joined and split, are those lines |
| Patches.ParseHunks | internal/forge/forges/github.go:398-421 | for every text the loop, which never indexes out of bounds, gives one hunk for each block of lines from a header to the next, or the error of the first header that cannot be read |
| PatchTheory.BlocksFacts | internal/forge/forges/github.go:402-419 | the blocks are the lines from the first header on, each with one header, its first line, and are as many as the headers |
| PatchTheory.ParsesIffHeadersDo | internal/forge/forges/github.go:398-457 | a patch parses if and only if every line that begins with @@ does, and otherwise the error is that of the first that does not |
| PatchTheory.NothingLost | internal/forge/forges/github.go:403-419 | the hunks are as many as the header lines, and their raw texts together are the patch text from its first header on and one newline |
| PatchTheory.OneHeaderEach | internal/forge/forges/github.go:411-414 | the raw text of a hunk has exactly one header line, its first |
| PatchTheory.RangeReadsBack | internal/forge/forges/github.go:461-474 | a printed range, with its count or with a count of 1 left out, reads back |
| PatchTheory.ParseRangeIff | internal/forge/forges/github.go:461-474 | a word is read as a range if and only if it is one character and then a start, or a start, a comma and a count, both integers; the count left out is 1 |
| PatchTheory.HeaderExactly | internal/forge/forges/github.go:425-457 | every line that could be a header by what becomes of it: malformed without the opening mark, refused without a closing one, and otherwise the words up to the first closing mark decide: too few, a bad first range, a bad second one, or the four numbers |
| PatchTheory.HeaderReadsBack | internal/forge/forges/github.go:425-457 | a printed header reads back for all 64-bit ranges, whatever the section heading, @@ included |
| PatchTheory.PrintedReadBack | internal/forge/forges/github.go:398-474 | printing any hunks after any lines that are no headers, and parsing the text, gives the ranges and raw texts back |
| Orderers.SliceStable | internal/forge/orderers/entry_points_first.go:100-106 | sorts in place to the stable order |
| Orderers.Order | internal/forge/orderers/entry_points_first.go:97-108 | a new slice in stable order, the input untouched; the alphabetical and as-fetched orderers are the other instances |
| Orderers.SortAsFetched | internal/forge/orderers/as_fetched.go:21-25 | as fetched, the order is that of the input |
| Orderers.Tier | internal/forge/orderers/entry_points_first.go:25-85 | the tiers from the last down: tests, documentation, infrastructure, repositories, and among the rest domain code and entry points, each claiming what no later tier has claimed |
| OrderTheory.SortIsStable | internal/forge/orderers/entry_points_first.go:100-106 | the result is sorted by tier and path, is a permutation of the input, and keeps the order of files with equal keys |
| OrderTheory.PathLessIff | internal/forge/orderers/alphabetical.go:26-28 | a path is less than another if and only if it is a proper prefix of it or has the smaller character at the first place where they differ |
| OrderTheory.AlphabeticalOrder | internal/forge/orderers/alphabetical.go:23-30 | in the alphabetical result no path precedes an earlier one, in that sense |
| OrderTheory.EntryPointsOrder | internal/forge/orderers/entry_points_first.go:97-108 | in the entry-points-first result no tier is below an earlier one, and inside a tier no path precedes an earlier one |
| OrderTheory.ToLowerAt | internal/forge/orderers/entry_points_first.go:26 | letter by letter: A to Z become a to z, the two other letters whose lower case is ASCII become that, all others stay |
| OrderTheory.TestTier | internal/forge/orderers/entry_points_first.go:28-31 | a path is in the last tier if and only if it has one of the marks of a test anywhere, or ends as one |
| OrderTheory.OtherTiers | internal/forge/orderers/entry_points_first.go:33-84 | the condition for each other tier, on paths that no tier before it in the program's order has claimed, by which words occur anywhere and which stand at the end |
| OrderTheory.SortedUnique | internal/forge/orderers/entry_points_first.go:100-106 | there is only one such result |
| OrderTheory.SortIdempotent | internal/forge/orderers/entry_points_first.go:97-108 | ordering twice is ordering once |
| OrderTheory.OrderOfInputIrrelevant | internal/forge/orderers/entry_points_first.go:97-108 | with distinct paths the result of a sorting orderer does not depend on the input order |
| OrderTheory.TestsLast | internal/forge/orderers/entry_points_first.go:28-31 | no test comes before a file that is no test |
| OrderTheory.TierIsAlphabetical | internal/forge/orderers/alphabetical.go:23-30 | the files of any one tier appear as the alphabetical orderer puts them |
| ReviewGraph.BuildHunkGraph | server/open_review_session.go:138-193 | the graph, the file entries, the ordered IDs and the entry are those of the flattened list of hunks, with truncated 32-bit fields, contexts, and a later step replacing an earlier one of its ID |
| ReviewGraph.ProtoReviewSteps | server/open_review_session.go:212-229 | the steps of the listed IDs that are in the graph, in list order |
| ReviewTheory.IdInjective | server/open_review_session.go:148 | equal step IDs mean equal path and equal start, colons and digits in paths notwithstanding |
| ReviewTheory.StepIdExample | server/open_review_session_step_order_test.go:79-84 | the form of a step ID on two of the IDs that the program's own test expects |
| ReviewTheory.GraphSize | server/open_review_session.go:171 | the graph has as many steps as there are hunks if and only if the hunks' places are distinct |
| ReviewTheory.HunkOnWire | server/open_review_session.go:148-188 | with distinct places the step of hunk k, in the graph and k-th on the wire, has the file's path, that hunk's old and new start and count, each as it is when it fits in 32 bits, its raw text if and only if raw text is not left out, its label, and one link, to hunk k + 1, or none at the end |
| ReviewTheory.WireOrder | server/open_review_session.go:208-229 | the IDs on the wire are the ordered IDs, and the steps on the wire are the hunks' own steps if and only if the places are distinct |
| ReviewTheory.ForwardOrder | server/open_review_session.go:181-188 | k Forwards from the entry lead through the first k hunks, for every k, if and only if the places are distinct; the next Forward after the last fails and changes nothing |
| ReviewTheory.ReviewGraphAccepted | server/open_review_session.go:181-188 | the cycle detector reports nothing on a review graph with distinct places |
| ReviewTheory.ContextSurrounds | server/open_review_session.go:160-163 | the context of a hunk is what stands in its own file's lines right before and right after the hunk's lines, at most five lines on either side, fewer only at the ends of the file, also for hunks that begin before the file or lie past it |
| ReviewTheory.FileEntryIsFirst | server/open_review_session.go:174-176 | with distinct paths a file's entry is its first hunk, and a file has an entry if and only if it has hunks |
| ReviewTheory.FileWalk | server/open_review_session.go:174-188 | from a file's entry, Forward covers exactly that file's hunks and then goes to the entry of the next file that has hunks, or fails, changing nothing, when there is none |
| ReviewNavigation.ForwardRequests | server/navigate.go:31-65 | on a review with distinct places the i-th FORWARD request is answered with hunk i + 1, its link to the next, and the labels of the hunks before it as breadcrumb; every one after the last hunk is refused |
| ReviewNavigation.ForwardCompletes | server/navigate.go:28-175 | of any number of concurrent FORWARD calls under any schedule, a call that completes and held the lock as the i-th completes with hunk i + 1 and its breadcrumb |
| ReviewTheory.PipelineOrder | server/open_review_session.go:69-114 | for files with distinct paths and ascending hunks, under each of the three orderers: Forward order, wire order and file and hunk order are one list, every hunk has its step, and the walk ends after the last |
| ReviewTheory.PipelineCanonical | server/open_review_session.go:65-92 | the order in which the forge lists files with distinct paths has no influence under the sorting orderers, and as fetched it has none if and only if the files with hunks come in the same order |
| ReviewTheory.AsFetchedFollowsForge | internal/forge/orderers/as_fetched.go:21-25 | as fetched, two files with hunks listed the other way round give another order |
| ReviewSession.GhFilesToReviewFiles | internal/forge/forges/github.go:362-382 | one file each, in order, with the hunks of its patch, or the error of the first patch that cannot be read |
| ReviewSession.ConvertedFields | internal/forge/forges/github.go:362-395 | a converted file has the forge's name, former name and counts, the kind of change that the status word stands for, and the hunks of its patch, none without a patch |
| ReviewSession.OpenReview | server/open_review_session.go:59-127 | succeeds if and only if every patch parses, and then hands out the ordered files, the graph, the file entries, the steps, the total and the entry of those files |
| ReviewSession.PrintedReviewOrder | server/open_review_session.go:59-127 | for hunks printed as patches of files with distinct paths, the whole pipeline from text to Forward visits exactly those hunks in canonical order, and the steps on the wire carry the printed ranges and raw texts: each step those of a hunk, and each hunk on a step |
| Summaries.ParseStepSummary | internal/llm/anthropic.go:128-173 | the loop leaves in each field the value of the last line with its key |
| Summaries.FieldsDecided | internal/llm/anthropic.go:128-173 | for every text each of the eight fields is filled, by the last line with its key, or by the placeholder when there is none |
| Summaries.OtherLinesIgnored | internal/llm/anthropic.go:141-171 | a line without a colon or with another key changes nothing, wherever it is put |
| Summaries.EntryOfParts | internal/llm/anthropic.go:141-153 | a line is cut at its first colon; key and value are trimmed and an empty value becomes the dash |
| Summaries.NoColonNoEntry | internal/llm/anthropic.go:146-149 | a line without a colon holds no entry |
| Summaries.PrintedReadBack | internal/llm/anthropic.go:128-173 | eight trimmed single-line values, colons included, are read back from their printed lines |

## Left out

- AlwaysReportedIff: ranges over the order of each step's edges as well as of the roots; what a search reports with one edge order is exact in `DetectExact`.
- DetectorAccepts: stated for trees without internal call targets, because a CALL edge to a caller is a cycle that the detector is meant to report.
- EntryReachesItsTree: stated for trees without internal call targets, because a CALL edge leads into other trees; that the entry's own tree is reached is stated for all in `EntryTreeReached`.
- TrailFromStart: that the trail holds only graph IDs is stated for an entry in the graph; `EntryInGraph` says when the builder provides one.
- PipelineOrder: stated for ascending hunk starts in each file, which gives distinct places; `ForwardOrder` has the exact condition.
- ContextSurrounds: stated for counts that are not negative and line numbers whose sums stay inside 64 bits; `ReviewGraph.SpanOf` models the wrap-around for all others.
- Decimals.Atoi: 64-bit int, as on the platforms the server is built for.
- Text and paths are sequences of code points, that is, valid UTF-8; invalid bytes are not modelled. Dropping the first byte of a range word that begins with a longer character always gives an error, and so does the model.
- Orderers.ToLower: maps the letters that can matter for a match with ASCII text, not all of Unicode.
- The elements of a file list are values; that the reordered slice shares its elements with the input is not modelled.
- The stable sort is an insertion sort, not the library's; the specification is the library's.
- gRPC transport, status codes and messages, logging, `main`, configuration and generated code. A send is an append to a stream that may fail.
- The check of the session ID and the store lookup at the head of Navigate; `SessionStore.Store.Get` is modelled by itself.
- The code text, language, level and call chain handed to the provider, and `sliceSource`. The provider is a finite token sequence or an error, and an optional summary.
- Mutexes are atomic steps of the machine. Reads of step data after the session lock is released are of fields that never change.
- The clock is an integer parameter and the eviction ticker is a sequence of timed operations; the background goroutine and its cancellation are not modelled.
- HTTP, JSON and base64 of the forge, URL parsing, file contents (a parameter), change-kind and error conversions to the wire, and the ForgeContext record apart from the entry step IDs.
- The choice of an orderer by its name, and of the default one: a lookup in a registry.
- Parsers, resolver, git access, glossary, rephrasing, prompts, registries of forges and orderers: foreign libraries, I/O or single-branch lookups.
- `Session.Summary`, `Store.All` and `Graph.AllSteps`: snapshots without logic.
