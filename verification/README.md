# The build model and its arena, verified

Nobify reads a CMake project as a stream of events, builds a draft of it, validates and freezes
the draft, and answers queries about the frozen model; everything is allocated from arenas. This
project models the parts of that pipeline whose correctness is an algorithmic claim, and proves
the claims for all inputs and all runs.

| file | what it models |
|---|---|
| `Graphs.dfy`, `Chains.dfy`, `Ids.dfy`, `Records.dfy`, `Sequences.dfy` | finite graphs, walks along single links, ids and the name index, shared enumerations, concatenation |
| `CycleCheck.dfy` | the colour searches over the execution graph and over the explicit dependencies |
| `Aliases.dfy` | alias resolution, link-item targets, directory parent chains |
| `LinkLanguage.dfy`, `BuildOrder.dfy`, `BuildOrderViews.dfy`, `Usage.dfy` | the three traversals of the query engine, and the build-order views |
| `Paths.dfy`, `PathPrefixes.dfy` | the lexical path algebra |
| `SessionKeys.dfy`, `Caches.dfy`, `Session.dfy` | the keys and the caches of the query session |
| `Builder.dfy`, `Streams.dfy`, `Validate.dfy`, `Producers.dfy`, `PropertyLists.dfy` | the event-driven builder, the draft read off a stream, the structural pass, duplicate producers, mixed property lists |
| `Arenas.dfy`, `ArenaRuns.dfy`, `ArenaObject.dfy` | the arena: its operations on values, whole runs, the object that is updated in place |
| `ArenaArrays.dfy`, `ArrayWorlds.dfy`, `ArenaArrayObject.dfy` | growable arrays in an arena, likewise |

Where the source changes state, a class or a method with loops has the same fields and branches
and is proved equal to a function of the old state; lemmas then prove what the program promises
about that function. Graph nodes are positions in the tables of the model. The successors of a
node are a fixed function: a query normalises its context at each node in a way that does not
depend on the route taken there.

## Where the program and its promises differ

- Rebase-if-needed is not idempotent: on the base `a/b` the value `../c` moves a second time.
  `PathPrefixes.RebaseIfNeededIsIdempotent` gives the exact condition under which it is.
- The key of a cached query is built as a length-prefixed string, which is injective, but it is
  looked up as a C string. It belongs to its request alone if and only if no string in the
  request holds a NUL character (the install prefix may end in one):
  `SessionKeys.KeyIsUniqueExactlyWhen`. A session answers a call as the direct query does, in
  every model and after whatever calls, if and only if the key of the call is its own:
  `Session.AnsweredRightExactlyWhen`. Otherwise it gives what was computed first under the key.
- A comment at `src_v2/arena/arena_dyn.h:151` says that shrinking an array works only when the
  array is the last allocation of its arena. The code, which the model follows, copies the array
  elsewhere in all other cases, and succeeds exactly if there is room for the copy:
  `ArenaArrays.FitSucceedsExactlyWhen`, with a run in `ArenaArrays.FitCanCopy`.
- Stripping a prefix gives the empty text for values that do not lie below it. The prefixes `/`
  and `.` count as prefixes of themselves only, so that stripping `/` from `/a` gives the empty
  text as well.

## Model

| member | source | states |
|---|---|---|
| CycleCheck.ExecEdge | src_v2/build_model/build_model_validate_cycles.c:271-376 | the edges of the execution graph are exactly the nodes that the views of a target or step list |
| CycleCheck.TargetEdges | src_v2/build_model/build_model_validate_cycles.c:310-330 | before a target come exactly the targets and steps of its seven spans |
| CycleCheck.StepEdges | src_v2/build_model/build_model_validate_cycles.c:332-376 | before a step come exactly its target dependencies and its producer dependencies |
| CycleCheck.MutualProducersAreACycle | src_v2/build_model/build_model_validate_cycles.c:361-374 | two steps that name each other as producers, or one that names itself, are a cycle |
| CycleCheck.StepOfItsOwnTargetIsACycle | src_v2/build_model/build_model_validate_cycles.c:323-360 | a target and a step of one of its spans that depends on the target are a cycle |
| CycleCheck.ExecutionCycleCheck.VisitNode | src_v2/build_model/build_model_validate_cycles.c:378-395 | a visit keeps: black nodes are listed in finishing order, an error is raised only over a cycle, gray nodes reach the current one; its node ends black; it fails only where a view is missing |
| CycleCheck.ExecutionCycleCheck.VisitTarget | src_v2/build_model/build_model_validate_cycles.c:310-330 | after the seven spans of a target view every prerequisite of the target is black, unless an error was raised |
| CycleCheck.ExecutionCycleCheck.VisitOrderSpan | src_v2/build_model/build_model_validate_cycles.c:271-308 | a span leaves all its nodes black next to those dealt with before, unless an error was raised |
| CycleCheck.ExecutionCycleCheck.VisitStep | src_v2/build_model/build_model_validate_cycles.c:332-376 | the same for the target and producer dependencies of a step |
| CycleCheck.ExecutionCycleCheck.VisitEdge | src_v2/build_model/build_model_validate_cycles.c:246-269 | an edge to a gray node raises an error, and then a cycle exists; as long as no error is raised its end is black afterwards |
| CycleCheck.Starting | src_v2/build_model/build_model_validate_cycles.c:378-395 | turning a white node gray keeps the invariants of the search and shrinks its measure |
| CycleCheck.Finishing | src_v2/build_model/build_model_validate_cycles.c:378-395 | turning a node black after its prerequisites keeps the finishing order along the edges |
| CycleCheck.FinishedSearchIsExact | src_v2/build_model/build_model_validate_cycles.c:397-421 | when all nodes are black the error flag is raised if and only if the graph has a cycle (or it was raised before), and otherwise the finishing order is a build order |
| CycleCheck.ValidateExecutionCyclesForContext | src_v2/build_model/build_model_validate_cycles.c:397-421 | for every target and step graph: succeeds iff all views can be computed; then had_error is raised iff a directed cycle exists, and if it is not, every edge goes to a node finished earlier |
| CycleCheck.ValidateExecutionCycles | src_v2/build_model/build_model_validate_cycles.c:423-440 | over all contexts: an error iff the graph of some context has a cycle |
| CycleCheck.ExplicitCycleCheck.VisitDependency | src_v2/build_model/build_model_validate_cycles.c:8-40 | one dependency name: unknown names are skipped, a gray target is a cycle, a white one is visited |
| CycleCheck.ExplicitEdges | src_v2/build_model/build_model_validate_cycles.c:17-19 | a target depends on exactly the targets its dependency names find |
| CycleCheck.ValidateExplicitCycles | src_v2/build_model/build_model_validate_cycles.c:442-460 | an error iff the name-resolved explicit dependency graph has a cycle; otherwise the finishing order is a build order |
| Graphs.BuildOrderHasNoCycle | src_v2/build_model/build_model_validate_cycles.c:378-395 | a list of all nodes in which all successors come earlier exists only where there is no cycle |
| Graphs.BackEdgeClosesCycle | src_v2/build_model/build_model_validate_cycles.c:252-262 | an edge back to a node that reaches the current one closes a directed cycle |
| Graphs.AvoidingUnfold | src_v2/build_model/build_model_query.c:1291-1363 | the simple-path argument: what a node reaches around the nodes of the current path is itself and what its successors reach when it is blocked too |
| Graphs.AvoidingOneMore | src_v2/build_model/build_model_query.c:571-585 | blocking one more node loses only what that node reaches itself |
| Chains.Pigeonhole | src_v2/build_model/build_model_query.c:477-490 | a list without repeats of numbers below n has at most n entries |
| Chains.ChainFits | src_v2/build_model/build_model_validate.c:23-57 | a walk that ends is no longer than the number of records, so the fuel cuts off no walk that ends |
| Aliases.ResolveAliasIsComplete | src_v2/build_model/build_model_query.c:477-490 | with fuel equal to the number of targets the walk returns the endpoint that is no alias iff there is one, and INVALID otherwise |
| Aliases.ResolveAliasIsIdempotent | src_v2/build_model/build_model_query.c:477-490 | resolving a resolved id changes nothing |
| Aliases.ResolveAliasInQuery | src_v2/build_model/build_model_query.c:477-490 | the loop of the query engine computes the resolution, for every id |
| Aliases.ResolveAliasInFreeze | src_v2/build_model/build_model_freeze.c:606-615 | the loop of the freeze step computes the same resolution where ids are in range |
| Aliases.ResolveLinkItemTargetIds | src_v2/build_model/build_model_freeze.c:617-652 | every item of the list that names a target gets the resolved id, all others are untouched |
| Aliases.FrozenItemIsResolved | src_v2/build_model/build_model_query.c:1254-1272 | after freezing such an item holds INVALID or the id of a target that exists and is no alias, the endpoint of its name, and the query engine finds the same |
| Aliases.EndpointMeans | src_v2/build_model/build_model_query.c:477-490 | an endpoint is the last of a list of targets, each but the last an alias of the next, the last no alias |
| Aliases.FreezingKeepsTheRest | src_v2/build_model/build_model_freeze.c:617-652 | freezing changes the id of items that name a target, and nothing else of any item |
| Aliases.FoundByStoredId | src_v2/build_model/build_model_query.c:1260-1261 | a stored id comes first: the item leads to the endpoint of that id |
| Aliases.FoundByTargetName | src_v2/build_model/build_model_query.c:1262-1263 | a target name comes second: the item leads to the endpoint of the first entry of that name |
| Aliases.FoundByValue | src_v2/build_model/build_model_query.c:1264-1266 | every other item leads to the endpoint of the first entry named like its value |
| Aliases.NotFound | src_v2/build_model/build_model_query.c:1267-1269 | an item whose name has no entry leads nowhere |
| DirectoryChains.ValidateDirectoryChain | src_v2/build_model/build_model_validate.c:23-57 | accepts iff the parent chain ends; the step counter rejects no chain that does |
| LinkLanguage.TargetEffectiveLinkLanguage | src_v2/build_model/build_model_query.c:1366-1377 | CXX iff a target reachable along link items contributes C++, else C iff one contributes C, else none; it fails only where a query of a reachable target fails; on cyclic graphs too |
| LinkLanguage.Infer | src_v2/build_model/build_model_query.c:1274-1364 | the recursion under a set of targets being visited: the answer is reachability around them, and the marks are as before on every return |
| LinkLanguage.Classify | src_v2/build_model/build_model_query.c:1300-1327 | a list of languages is C++ iff some entry is, else C iff some entry is |
| LinkLanguage.SearchedAll | src_v2/build_model/build_model_query.c:1329-1363 | link items that all answer without C++ decide the answer of the target, though only the current path was marked |
| LinkLanguage.LinkEdges | src_v2/build_model/build_model_query.c:1300-1345 | a target leads to exactly the targets its link items find, an imported one to none |
| LinkLanguage.ContributesLanguage | src_v2/build_model/build_model_query.c:1300-1328 | a target contributes the languages it is imported with, else those of its sources, and fails where the query for its languages or link items does |
| LinkLanguage.CxxIsAWord | src_v2/build_model/build_model_query.c:1246-1248 | C++ is the word CXX, in either case and with white space around it |
| LinkLanguage.CIsAWord | src_v2/build_model/build_model_query.c:1250-1252 | C is the word C, likewise |
| LinkLanguage.WhiteSpace | src_v2/build_model/build_model_query.c:1246-1252 | white space is the blank and the five control characters |
| BuildOrder.CollectPrerequisites | src_v2/build_model/build_model_query.c:2104-2126 | the list holds, without repeats and without the root, exactly the buildable targets that the explicit dependencies lead to through targets that are not built, around the root |
| BuildOrder.CollectPrerequisite | src_v2/build_model/build_model_query.c:2069-2102 | one dependency adds exactly what it leads to around the marked targets and restores the marks |
| BuildOrder.PushUnique | src_v2/build_model/build_model_query.c:2028-2038 | appends a node that is not in the list yet |
| BuildOrder.CollectedThrough | src_v2/build_model/build_model_query.c:2088-2101 | a target that is not built stands for the targets its own dependencies lead to |
| BuildOrder.WhatIsBuilt | src_v2/build_model/build_model_query.c:2040-2067 | built are the local executables, utilities and libraries of known kinds but interface libraries; no alias and no imported target |
| BuildOrder.CutEdges | src_v2/build_model/build_model_query.c:2086-2101 | a target that is not built leads to the targets behind its explicit dependencies, one that is built nowhere |
| BuildOrder.LeadsToMeans | src_v2/build_model/build_model_query.c:2069-2102 | an id leads to a built target by a way of targets that are not built, each depending on the next, none of them blocked |
| BuildOrderViews.EffectiveBuildOrderView | src_v2/build_model/build_model_query.c:2191-2260 | the seven spans of a view list exactly the prerequisites, link prerequisites, producers and hook steps of the target behind the aliases that its kind calls for; a view is missing only for an id without target or link items that do not evaluate |
| BuildOrderViews.CollectOrderSteps | src_v2/build_model/build_model_query.c:2128-2140 | the steps of the kind that the target owns, once each and in order |
| BuildOrderViews.CollectGeneratedSourceSteps | src_v2/build_model/build_model_query.c:2142-2153 | the valid producers, once each |
| BuildOrderViews.ViewsAreClosed | src_v2/build_model/build_model_query.c:2191-2260 | views name targets and steps of the model only, which is what the cycle check assumes |
| BuildOrderViews.SpansByKind | src_v2/build_model/build_model_query.c:2040-2060 | which spans a view has, kind by kind: link prerequisites for executables, shared and module libraries; hooks for these and static libraries; producers for these and object libraries; custom steps for utilities; explicit prerequisites for all |
| BuildOrderViews.NoViewExactlyWhen | src_v2/build_model/build_model_query.c:2207-2231 | there is no view exactly for an id without target and for a target that needs its link items where they do not evaluate |
| BuildOrderViews.ListsInTurn | src_v2/build_model/build_model_query.c:2128-2153 | which steps the lists hold: those of the kind that the target owns, and the valid ids among the producers |
| Usage.PreorderIsReachability | src_v2/build_model/build_model_query.c:525-585 | a depth-first walk with one visited set meets exactly the reachable nodes, once each, on cyclic graphs too |
| Usage.PreorderSplits | src_v2/build_model/build_model_query.c:533-540 | walking a list is walking its first part and then the rest with what has been visited |
| Usage.CollectDependencyInterface | src_v2/build_model/build_model_query.c:571-585 | visiting a target marks and hands on exactly what the walk from it meets, in first-visit order; it fails only for an id that names no target or leads to a target that fails |
| Usage.CollectDependencyUsage | src_v2/build_model/build_model_query.c:525-541 | the same for a list of link items; a target fails where its links do not evaluate or lead outside the model |
| Usage.CollectItems | src_v2/build_model/build_model_query.c:296-306 | appends the items that are not private, in order |
| Usage.OneInherited | src_v2/build_model/build_model_query.c:302 | private items stay, public and interface items are handed on |
| Usage.InheritedAppend | src_v2/build_model/build_model_query.c:301-304 | what a list hands on is what its parts hand on, in order |
| Usage.InInherited | src_v2/build_model/build_model_query.c:301-304 | handed on are exactly the items that are not private |
| Usage.InRawItems | src_v2/build_model/build_model_query_effective.c:725-746 | what is evaluated: the local items, and the items that are not private of exactly the targets reachable around the root |
| Usage.OneContribution | src_v2/build_model/build_model_query.c:583 | a target contributes what it hands on |
| Usage.DepthFirst | src_v2/build_model/build_model_query.c:533-584 | a target comes first, then all that its links lead to, in their order, then the rest of the list |
| Usage.KnownIdsAppend | src_v2/build_model/build_model_query.c:533-536 | links are followed in their order |
| Usage.OneKnownId | src_v2/build_model/build_model_query.c:534-536 | a link without id is skipped |
| Usage.UsageEdges | src_v2/build_model/build_model_query.c:525-585 | a target leads to exactly the targets its evaluated links name, and fails where they do not evaluate or name none of the model |
| Usage.InheritanceIsReachability | src_v2/build_model/build_model_query_effective.c:729-746 | the targets that contribute are exactly those reachable from the seeds by paths avoiding the root, once each |
| Usage.TargetEffectiveItems | src_v2/build_model/build_model_query_effective.c:708-758 | for every id and all seeds: the result is the evaluation of the local items followed by the non-private items of those targets in first-visit order, each key kept at its first occurrence; it is missing only where something fails |
| Usage.FirstByKeyKeepsKeys | src_v2/build_model/build_model_query_effective.c:639-669 | removing duplicates keeps every key exactly once |
| Usage.KeptItemsAreFirst | src_v2/build_model/build_model_query_effective.c:650-664 | an item is kept iff no earlier item has its key, and the kept items keep their order |
| Usage.Dedup | src_v2/build_model/build_model_query_effective.c:639-669 | the double loop keeps exactly the entries whose key no earlier entry has |
| Paths.NormalizePath | src_v2/build_model/build_model_builder.c:194-242 | the scanning loops compute the printed stack of the path's segments |
| Paths.NormalizeIsCanonical | src_v2/build_model/build_model_builder.c:194-242 | no empty or `.` segment but the lone `.`, `..` only leading and never in absolute paths, splitting the result gives back the stack, and normalising twice is normalising once |
| Paths.SegmentsOfPrint | src_v2/build_model/build_model_builder.c:226-236 | splitting a printed canonical stack gives the stack back |
| Paths.SegmentsAtSlash | src_v2/build_model/build_model_builder.c:202-206 | a slash splits a path into two that are read separately |
| Paths.RelativePathIsAnAction | src_v2/build_model/build_model_builder.c:202-224 | normalising a relative path, leading `..` included, keeps its effect on every segment stack |
| Paths.RebaseIsAssociative | src_v2/build_model/build_model_builder.c:257-261 | rebase(rebase(a, b), c) = rebase(a, rebase(b, c)) for all paths |
| Paths.PathJoin | src_v2/build_model/build_model_builder.c:244-255 | the join is the normal form of the two texts with one slash between |
| Paths.PathRebase | src_v2/build_model/build_model_builder.c:257-261 | an absolute path stays, a relative one is joined to the base |
| Paths.OneSegmentBelow | src_v2/build_model/build_model_builder.c:208-223 | what one more segment does: a name is added, `.` changes nothing, `..` takes a name off, and on top of none is kept in relative paths and lost in absolute ones |
| Paths.DownAndUp | src_v2/build_model/build_model_builder.c:208-216 | going into a child and back is going nowhere |
| Paths.EmptyPaths | src_v2/build_model/build_model_builder.c:226-236 | the normal forms of the empty path, the root and the lone dots |
| Paths.JoinMeans | src_v2/build_model/build_model_builder.c:244-255 | joining puts one slash between two texts, none after an empty one |
| Paths.RebaseMeans | src_v2/build_model/build_model_builder.c:257-261 | rebasing leaves absolute paths where they are and takes relative ones from the base |
| PathPrefixes.PathPrefixIsStackPrefix | src_v2/build_model/build_model_freeze.c:558-562 | on normal forms the text test for a prefix is the test on segments |
| PathPrefixes.PathStripPrefix | src_v2/build_model/build_model_freeze.c:584-604 | strips the prefix with its slash, the empty text where the value is not below it |
| PathPrefixes.RebaseUndoesStrip | src_v2/build_model/build_model_freeze.c:584-604 | stripping leaves something exactly for the prefix itself and for values below a prefix other than `/` and `.`, and rebasing it on the prefix gives back the normal form of the value |
| PathPrefixes.PathRebaseIfNeeded | src_v2/build_model/build_model_freeze.c:564-582 | rebases relative values that are not under the base yet |
| PathPrefixes.RebasedExactlyWhen | src_v2/build_model/build_model_freeze.c:572-581 | a value is rebased unless it is absolute or lies in a relative base, segment by segment |
| PathPrefixes.AbsoluteBaseGivesAbsolute | src_v2/build_model/build_model_freeze.c:572-581 | onto an absolute base every relative value is rebased, and the result is absolute |
| PathPrefixes.StrippedSegments | src_v2/build_model/build_model_freeze.c:584-604 | stripping leaves `.` for the prefix itself, the remaining segments below it, and nothing elsewhere |
| PathPrefixes.RebaseIfNeededIsIdempotent | src_v2/build_model/build_model_freeze.c:564-582 | a second application changes nothing iff the value or the base is absolute or the leading `..` of value and base satisfy a stated condition |
| PathPrefixes.RebaseIfNeededCanMoveTwice | src_v2/build_model/build_model_freeze.c:564-582 | the values for which it fails exist |
| SessionKeys.BuildEffectiveKey | src_v2/build_model/build_model_query_session.c:196-215 | the pieces appended one by one are the encoding of id, kind, usage, current target, flags and strings, read up to the first NUL |
| SessionKeys.FieldsSplit | src_v2/build_model/build_model_query_session.c:83-93 | length-prefixed fields of the same shape are determined by their text, whatever follows |
| SessionKeys.DigitsAreInvertible | src_v2/build_model/build_model_query_session.c:83-93 | printed lengths are equal only for equal lengths |
| SessionKeys.OwnKeyIsUnique | src_v2/build_model/build_model_query_session.c:196-215 | a request without inner NUL shares its key with no other request |
| SessionKeys.SharedKey | src_v2/build_model/build_model_query_session.c:196-215 | every other request does share its key, with a request that is constructed |
| SessionKeys.KeyIsUniqueExactlyWhen | src_v2/build_model/build_model_query_session.c:196-215 | the two together: the exact condition for a key of one's own |
| Session.QuerySession.EffectiveItems | src_v2/build_model/build_model_query_session.c:297-353 | for every request: an entry under its key is the answer, else the direct answer is computed on the normalised context, stored and given; a failure stores nothing; one hit or one miss is counted |
| Session.QuerySession.EffectiveLinkItems | src_v2/build_model/build_model_query_session.c:355-403 | the same for link items, in a cache of their own |
| Session.QuerySession.EffectiveValues | src_v2/build_model/build_model_query_session.c:405-463 | the same for values, which are the texts of what the item or link-item cache gives, uncounted there |
| Session.QuerySession.ItemsForValues | src_v2/build_model/build_model_query_session.c:438-452 | a value that is not cached asks the cache of link items for link libraries, the other one else |
| Caches.ResponseIsFirst | src_v2/build_model/build_model_query_session.c:297-463 | what the three caches answer is what was computed first under the key, read off the questions without a cache |
| Caches.RespondHolds | src_v2/build_model/build_model_query_session.c:344-350 | one question more keeps the entry under every key the first that was computed |
| Caches.ValuesHaveItems | src_v2/build_model/build_model_query_session.c:438-457 | where values are cached the items they come from are cached under the same key |
| Caches.FirstAnswerIsRight | src_v2/build_model/build_model_query_session.c:297-463 | if all questions under a key mean the same, each is answered as the direct query answers it |
| SessionKeys.SameKeySameNumbers | src_v2/build_model/build_model_query_session.c:196-215 | requests that share a key ask for the same kind of items of the same target, so that they share their item cache |
| Session.SessionAnswersTheFirst | src_v2/build_model/build_model_query_session.c:297-463 | every answer of every session, for shared keys too: what was computed first under the key of the call |
| Session.SafeCallIsAnsweredRight | src_v2/build_model/build_model_query_session.c:297-463 | a call with a key of its own gets the direct answer after any calls whatever |
| Session.SharedCallCanGoWrong | src_v2/build_model/build_model_query_session.c:297-463 | for every other call there is a model and an earlier call after which its answer is not the direct one |
| Session.AnsweredRightExactlyWhen | src_v2/build_model/build_model_query_session.c:297-463 | the exact condition: a call is answered right in all models and after all calls iff its key is its own |
| Session.RunCalls | src_v2/build_model/build_model_query_session.c:297-463 | over every sequence of calls each answer is the first under its key, hence the direct one for each call with a key of its own, and each call counts as one hit or one miss |
| Session.RightIsDirect | src_v2/build_model/build_model_query_session.c:146-172 | the right answer to a call for values is the text of each item of the direct query, in order, of the link items for link libraries; other calls get the items themselves |
| Session.ContextOfCall | src_v2/build_model/build_model_query_session.c:51-60 | the context of a query: the caller's with the asked target as current one where it names none, or the default one of the kind |
| Caches.ValuesInTurn | src_v2/build_model/build_model_query_session.c:153-155 | values are the texts of the items, one for each and in their order |
| Caches.NothingStoredWithoutMemory | src_v2/build_model/build_model_query_session.c:337-342 | a call without memory stores nothing and answers only what was stored |
| Producers.ValidateDuplicateStepProducers | src_v2/build_model/build_model_validate_cycles.c:66-130 | an error iff some path is listed twice among all outputs and byproducts of all steps |
| Producers.SomeComparisonSeesClash | src_v2/build_model/build_model_validate_cycles.c:66-130 | comparing each place with other steps and with later places of its own step misses no duplicate |
| Producers.ClashMeans | src_v2/build_model/build_model_validate_cycles.c:66-130 | a duplicate is a path that stands in two places among the output and byproduct lists of the steps |
| Producers.FindProducerStepIdByPath | src_v2/build_model/build_model_freeze.c:534-546 | the id of the first step that lists the path, INVALID if there is none |
| Producers.FindsTheFirstProducer | src_v2/build_model/build_model_freeze.c:536-544 | the first step with the path among its outputs or byproducts is found, duplicates or not |
| Producers.FindsNoProducer | src_v2/build_model/build_model_freeze.c:545 | a path in no list has no producer |
| Producers.ProducerIsUnique | src_v2/build_model/build_model_freeze.c:534-546 | without a duplicate at most one step produces a path |
| Producers.FirstMatchIsTheProducer | src_v2/build_model/build_model_freeze.c:534-546 | without a duplicate the search finds the one producer, in whatever order the steps are scanned |
| PropertyLists.MutationStaysInItsBucket | src_v2/build_model/build_model_builder_target.c:183-205 | a promoted SET, PREPEND or APPEND acts on the items of its visibility and SYSTEM flag as on a plain list and leaves all other items alone, the order among them included |
| PropertyLists.OneItem | src_v2/build_model/build_model_builder_target.c:175-181 | a bucket holds the items of its visibility that agree in the SYSTEM flag |
| PropertyLists.PlainInOrder | src_v2/build_model/build_model_builder.c:556-594 | SET replaces, PREPEND puts the new items before the old, APPEND behind them, each in its own order |
| PropertyLists.OwnBucketInOrder | src_v2/build_model/build_model_builder_target.c:183-205 | the same within the bucket of a shared list |
| PropertyLists.SharedListSimulatesOwnLists | src_v2/build_model/build_model_builder_target.c:175-237 | over any run the shared list, filtered to one bucket, is the result of that bucket's mutations on a list of its own |
| PropertyLists.ItemList.ApplyMutation | src_v2/build_model/build_model_builder.c:556-594 | the plain mutation of the list in place |
| PropertyLists.ItemList.ApplyPromotedMutation | src_v2/build_model/build_model_builder_target.c:183-205 | the mutation of the shared list in place |
| PropertyLists.RunMutations | src_v2/build_model/build_model_builder_target.c:183-205 | after a run on a new list every bucket is what its own mutations make of the empty list |
| Ids.ScanForTargetId | src_v2/build_model/build_model_builder.c:419-427 | the scan finds the first entry with the name |
| Ids.FirstEntryWins | src_v2/build_model/build_model_builder.c:419-427 | the first entry of a name decides, whatever stands behind it |
| Builder.EventBuilder.HandleDirectoryEnter | src_v2/build_model/build_model_builder_directory.c:143-157 | a new directory at the next position, below the current one, on the stack; the first becomes the root |
| Builder.EventBuilder.HandleDirectoryLeave | src_v2/build_model/build_model_builder_directory.c:159-174 | pops the current directory if the event names it, fails otherwise |
| Builder.EventBuilder.EnsurePlaceholder | src_v2/build_model/build_model_builder_target.c:475-497 | the position of the named target, of a new placeholder if there is none and a directory is active |
| Builder.EventBuilder.HandleTargetDeclare | src_v2/build_model/build_model_builder_target.c:504-531 | declares a new target or a placeholder, refuses a second declaration |
| Builder.EventBuilder.HandleTargetPropSet | src_v2/build_model/build_model_builder_target.c:602-656 | sets a property of a target that may not be declared yet |
| Builder.EventBuilder.HandleBuildStepDeclare | src_v2/build_model/build_model_builder_target.c:795-827 | a new step with a key of its own, owned by the current directory |
| Builder.EventBuilder.ApplyEvent | src_v2/build_model/build_model_builder.c:676-766 | one event is one step of the state machine, a failed builder ignores it, and the invariants hold afterwards |
| Builder.EventBuilder.FinalizeDraft | src_v2/build_model/build_model_builder.c:778-791 | the draft, unless the builder failed or a directory is still open |
| Builder.IndexFinds | src_v2/build_model/build_model_builder.c:419-433 | the name index finds a target of the name exactly when there is one |
| Builder.ApplyKeepsGood | src_v2/build_model/build_model_builder.c:676-766 | every event keeps: ids are positions, parents have smaller ids, the stack is a parent chain, names and step keys are distinct, the index lists each target once at its position, owners are in range |
| Builder.EveryRunIsGood | src_v2/build_model/build_model_builder.c:768-791 | these hold in every state a stream can reach, and of every finalised draft |
| Builder.GoodDraftIsInRange | src_v2/build_model/build_model_freeze.c:360-422 | finalised drafts meet what the cycle checks and both alias resolutions assume |
| Builder.BuildDraft | src_v2/build_model/build_model_builder.c:768-791 | a whole stream through the builder object gives the draft of the state machine |
| Streams.BuilderReadsTheStream | src_v2/build_model/build_model_builder.c:676-791 | a stream has a draft iff each event may follow those before it and every directory is left again, and the draft is the one read off the stream: directories, targets with owner, kind, alias, IMPORTED and dependencies in order, steps with outputs in order, the name index and the root |
| Streams.EventAdvances | src_v2/build_model/build_model_builder.c:676-766 | an event is accepted iff it may follow, and then the builder stands for one event more |
| Streams.ConcernedTarget | src_v2/build_model/build_model_builder_target.c:504-656 | what each event does to the record of its target, read off the stream |
| Streams.UnmentionedIsBlank | src_v2/build_model/build_model_builder_target.c:591-600 | nothing is known of a target before it is mentioned |
| Validate.ValidateStructural | src_v2/build_model/build_model_validate.c:322-446 | an error iff the root is missing, an id is not its position, an owner or a parent chain is bad, a target is unnamed or undeclared, or a name occurs twice |
| Validate.ValidateDuplicateTargetNames | src_v2/build_model/build_model_validate.c:294-307 | an error iff two targets have the same name |
| Validate.StructurallyCleanMeans | src_v2/build_model/build_model_validate.c:322-446 | the demands one by one, on ids, owners, parents, names, declarations and the root, in terms of the records |
| Validate.ChainMeans | src_v2/build_model/build_model_validate.c:23-57 | a parent chain ends iff a list of directories leads from one parent to the next up to one without |
| Validate.GoodDraftIsCleanExactlyWhen | src_v2/build_model/build_model_validate.c:322-446 | on a draft of the builder all id, owner, parent-chain and duplicate-name checks pass; it is clean iff there is a directory (or nothing semantic) and every target is declared and named |
| Validate.StreamIsCleanExactlyWhen | src_v2/build_model/build_model_validate.c:322-446 | the verdict on an accepted stream, read off the stream: a directory is entered, no target is unnamed, and every target whose properties are set is declared somewhere |
| Validate.AcceptedStreamIsBalanced | src_v2/build_model/build_model_builder.c:768-791 | a stream gives a draft only if it leaves every directory it enters, and the draft has one record for each |
| Validate.RunHasEffect | src_v2/build_model/build_model_builder_target.c:475-656 | the targets of an accepted run are exactly those its events mention, the declared ones exactly those its events declare |
| Arenas.AllocFailsExactlyWhen | src_v2/arena/arena.c:210-260 | an allocation is refused iff its size is zero or overflows, or no block from the current one on has room and no new block can be had |
| Arenas.AllocTakes | src_v2/arena/arena.c:210-260 | an allocation goes to the current block if it has room, else to the first later one, else to a new one at the end; it starts where the used part ended and takes the rounded size, no more |
| Arenas.NewBlockSize | src_v2/arena/arena.c:228-241 | a new block is the largest of the request, the minimum and twice the current one, cut off where it overflows |
| Arenas.NewBlockFits | src_v2/arena/arena.c:228-259 | a block that was made for an allocation has room for it: the assertion after growing never fails |
| Arenas.AllocKeepsInv | src_v2/arena/arena.c:120-147 | allocation keeps used below capacity, blocks behind the current one empty, and the extents handed out aligned, inside their blocks and disjoint |
| Arenas.ReallocKeepsInv | src_v2/arena/arena.c:270-317 | so does resizing, in place or not, for the true old size |
| Arenas.LastAllocationStays | src_v2/arena/arena.c:282-299 | the last allocation stays where it is whenever its block has room for the new size, and no byte moves |
| Arenas.ReallocFailsExactlyWhen | src_v2/arena/arena.c:270-317 | resizing fails for zero, for overflow, and for want of storage where it cannot happen in place |
| Arenas.InPlaceIsLast | src_v2/arena/arena.c:282-300 | what is resized in place is the last extent handed out, and only it changes |
| Arenas.OnDestroyKeepsInv | src_v2/arena/arena.c:107-118 | registering a cleanup keeps all this, and each registration occupies an extent of its own, behind the older ones |
| Arenas.OnDestroyRegisters | src_v2/arena/arena.c:107-118 | a registration fails only for want of storage; it goes in front of the others |
| Arenas.RewindKeepsInv | src_v2/arena/arena.c:362-386 | rewinding to any mark ever taken, stale or invalid ones included, keeps all this |
| Arenas.ValidMarkRewinds | src_v2/arena/arena.c:374-385 | a rewind to a valid mark, even an old one, brings back its position and empties the blocks behind it |
| Arenas.InvalidMarkResets | src_v2/arena/arena.c:367-373 | an invalid mark runs all cleanups and empties all blocks |
| Arenas.ResetKeepsInv | src_v2/arena/arena.c:319-325 | so does a reset, after which nothing is used and no cleanup waits |
| Arenas.ResetMeans | src_v2/arena/arena.c:319-325 | a reset runs what waits, newest first, empties every block and gives none back |
| Arenas.TakenIsDisjoint | src_v2/arena/arena.c:120-132 | two different extents share no byte |
| Arenas.RewindConserves | src_v2/arena/arena.c:187-196 | every callback ever registered waits or ran once, and a rewind keeps it so |
| ArenaRuns.LiveAllocationsNeverOverlap | src_v2/arena/arena.c:210-386 | after any run of allocations, resizings, registrations, marks, rewinds in any order and resets, live allocations are aligned, inside the used part of one block, and disjoint |
| ArenaRuns.ServeKeepsBytes | src_v2/arena/arena.c:270-317 | no request changes a byte of storage that is handed out |
| ArenaRuns.BytesSurvive | src_v2/arena/arena.c:210-386 | over any run, storage that is not given back keeps its bytes |
| ArenaRuns.ReallocKeepsContents | src_v2/arena/arena.c:270-317 | a resized allocation has room for the new size and keeps its bytes up to the smaller size, moved or not |
| ArenaRuns.RewindRestores | src_v2/arena/arena.c:362-386 | the rewind at the end of a scope restores position, cleanups and used counts, and runs exactly the cleanups that were added and still wait |
| ArenaRuns.ScopeRestores | src_v2/arena/arena.c:351-386 | mark, any well-nested run, rewind: current block, cleanups, the used count of every block that existed and the total are as at the mark, blocks added since are empty, and storage that was live and was not resized is still live |
| ArenaRuns.CountsTheNewOnes | src_v2/arena/arena.c:187-196 | the search for the mark's node stops where the cleanups of the mark begin |
| ArenaRuns.CleanupsFollowTheScopes | src_v2/arena/arena.c:187-196 | which callbacks ran and in which order, and which still wait, is what the nesting of the scopes says: newest first, inner scopes at their end |
| ArenaRuns.EachCleanupRunsOnce | src_v2/arena/arena.c:107-118 | the callbacks that ran by the end of a scope are those registered in it, once each |
| ArenaObject.Arena.Alloc | src_v2/arena/arena.c:210-260 | the method with its three ways to find room makes the step of the model and keeps the invariant |
| ArenaObject.Arena.AllocFromBlock | src_v2/arena/arena.c:120-132 | takes room from one block, or leaves it alone |
| ArenaObject.Arena.FindReusableBlock | src_v2/arena/arena.c:134-147 | the first later block with room |
| ArenaObject.Arena.ReallocLast | src_v2/arena/arena.c:270-317 | resizes in place or moves, as the model does |
| ArenaObject.Arena.RunCleanupsUntil | src_v2/arena/arena.c:187-196 | pops and runs the cleanups in front of the stop |
| ArenaObject.Arena.Rewind | src_v2/arena/arena.c:362-386 | goes back to the mark, or resets everything if the mark is invalid |
| ArenaObject.Arena.Reset | src_v2/arena/arena.c:319-325 | runs all cleanups and empties all blocks |
| ArenaObject.Arena.Destroy | src_v2/arena/arena.c:92-105 | every callback ever registered has run exactly once in the end |
| ArenaObject.Arena.TotalAllocated | src_v2/arena/arena.c:327-337 | the sum of the used parts |
| Arenas.SumUsedAppend | src_v2/arena/arena.c:327-337 | the total of a list of blocks is that of its parts |
| Arenas.SumUsedOfOne | src_v2/arena/arena.c:333 | a block counts with its used part |
| ArenaObject.CreateArena | src_v2/arena/arena.c:73-90 | the new arena is the state that the theorems about runs start from; none if its first block cannot be had |
| Arenas.CreatedMeans | src_v2/arena/arena.c:73-90 | a new arena is one empty block of the asked size, but not below a page |
| ArenaArrays.GrowIsGood | src_v2/arena/arena_dyn.h:80-118 | growing gives the room asked for and keeps the items, or changes nothing |
| ArenaArrays.AppendIsGood | src_v2/arena/arena_dyn.h:120-139 | the array is its old items followed by the new ones, or nothing changed |
| ArenaArrays.GrowSucceedsExactlyWhen | src_v2/arena/arena_dyn.h:86-112 | growing fails only for an overflow of the size or for want of storage |
| ArenaArrays.AppendSucceedsExactlyWhen | src_v2/arena/arena_dyn.h:127-132 | appending fails only where growing does, or for an overflow of the count |
| ArenaArrays.MovedMeans | src_v2/arena/arena_dyn.h:104-112 | the slots of an array are copied exactly when growing gives it another place |
| ArenaArrays.ItemOfContents | src_v2/arena/arena_dyn.h:134-136 | the bytes of an item are found behind the header and the items before it |
| ArenaArrays.FitIsGood | src_v2/arena/arena_dyn.h:141-157 | giving back unused slots keeps the items, or changes nothing |
| ArenaArrays.FitSucceedsExactlyWhen | src_v2/arena/arena_dyn.h:141-157 | fitting succeeds iff nothing is to be done, the array can shrink in place, or there is room for a copy; it moves exactly if it cannot shrink in place |
| ArenaArrays.FitCanCopy | src_v2/arena/arena_dyn.h:150-153 | an array that is not the last allocation and moves when it is fitted |
| ArenaArrays.QuotientTestsSize | src_v2/arena/arena_dyn.h:101-102 | the division by which the source tests for overflow is right |
| ArenaArrays.ReallocMissesOthers | src_v2/arena/arena.c:270-317 | resizing one allocation keeps the extent and the bytes of every other, and the new place overlaps none |
| ArrayWorlds.AppendLeaves | src_v2/arena/arena_dyn.h:120-139 | appending to one array leaves every other array alone |
| ArrayWorlds.PerformFollows | src_v2/arena/arena_dyn.h:80-157 | one action on arrays, plain storage or cleanups adds to its own array what it appends and nothing to others |
| ArrayWorlds.ArraysAreSequences | src_v2/arena/arena_dyn.h:80-157 | under any interleaving each array holds what was appended to it, in order, and count <= capacity |
| ArrayWorlds.GrowthIsAmortised | src_v2/arena/arena_dyn.h:88-99 | without fits and size overflow the capacity is eight times a power of two and at least the count, and fewer than 2n slots are copied for n items |
| ArrayWorlds.ArraysFromTheBeginning | src_v2/arena/arena_dyn.h:80-157 | both, for any run of a new arena with arrays that start empty |
| ArrayWorlds.DoubledIsGeometric | src_v2/arena/arena_dyn.h:91-99 | the doubling loop goes from one such capacity to another, below twice the minimum |
| ArenaArrayObject.ArenaArray.Grow | src_v2/arena/arena_dyn.h:80-118 | the method with its doubling loop makes the step of the model |
| ArenaArrayObject.ArenaArray.Append | src_v2/arena/arena_dyn.h:120-139 | the same for appending, with the new contents |
| ArenaArrayObject.ArenaArray.Fit | src_v2/arena/arena_dyn.h:141-157 | the same for fitting, with the contents unchanged |

## Left out

- Generator expressions, list splitting and string resolution: the evaluation of items is a parameter of the queries, a function that may fail.
- Diagnostics, provenance, telemetry and logging: only the error flags and the result of a call are kept.
- Allocation failure outside the arena: appends to lists in the builder and in the queries succeed; the session has parameters for it.
- Numbers of records: the builder's ids are 32-bit positions; runs are limited to streams of at most 2^32 - 1 events, beyond which ids repeat.
- `malloc`, addresses and the contents of fresh memory: blocks are positions in a list, an allocation is told whether `malloc` succeeds, memory is a function from addresses to bytes with arbitrary initial values.
- The links of the block list and of the cleanup list, and the headers of arrays, are fields of the model and not bytes of the arena's memory; cleanup callbacks are taken not to touch their arena.
- ArenaRuns.ScopeRestores: an allocation from before the mark that is resized in place inside the scope is not claimed to be live afterwards; the rewind cuts off what it gained.
- ArrayWorlds.ArraysAreSequences: runs without rewinds; an array that grows inside a scope it was not made in is a misuse of the arena.
- arena_strdup, arena_strndup, arena_memdup, arena_alloc_zero, arena_da_reserve: allocation followed by a copy.
- The twin code for link items next to items (collection, deduplication, mutations): one generic model stands for both.
- Validate.ValidateStructural: does not model the checks on source records, file sets, replay actions and enumeration ranges; those read records that the model leaves out.
- Builder events on properties, link libraries, sources, tests, installation, packages, exports and replay actions: they keep records of their own and are represented by whether they are accepted.
- The other caches of the session (files, artifacts, languages) have the shape of the three that are modelled.
- The views of build steps: the cycle check takes them as given, with dependencies that name targets and steps of the model.
- Builder.EventBuilder.HandleTargetPropSet: records `IMPORTED` only; the other properties of a target, and the case-insensitive record of artifact properties, are left out.
- Aliases.ResolveLinkItemTargetIds: stands for the three lists of targets, directories and the global scope that the source walks.
- CPack, install, export and package records, compile-feature tables, code generation, argument parsing and host tools.
