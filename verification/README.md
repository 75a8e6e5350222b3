# Butler: a verified model of its scheduling and safety core

Butler is an agent gateway. This project models six parts of it in Dafny and proves what they promise:

- **The workflow scheduler.** A task graph is ordered with Kahn's algorithm, grouped into layers, run in
  batches behind per-node gates, and pruned by routers.
- **Two cycle detectors**, the recursive one of the architecture tooling and the one in the service container.
- **The batch sequence guard**, which moves reads in front of the patches that need them and skips reads a
  write has made stale.
- **The tool-call guardrail**, a per-turn state machine that counts failures and repetitions.
- **Compaction**: where a transcript may be cut, and where its summary goes.
- **The env-profile script**, a line rewriter that replaces one profile block by another.

Each module follows one source file, or states what is proved about it.

| module | content |
|---|---|
| `Sequences`, `Graphs`, `Tasks`, `Text` | distinctness; graphs, paths and cycles; the values of a workflow; string operations |
| `TopologicalSort`, `Layering` | `topological_sort`, `group_into_layers` |
| `NodeGates`, `Settlement` | gates, routers and batches; the scheduler's specification |
| `TaskOrchestrator`, `RunTheorems` | `execute_graph`, and what every run guarantees |
| `CircularDependencyDetector`, `Container` | the two depth-first searches, and their agreement with Kahn |
| `BatchSequenceGuard` | reordering, and the stale-read guard |
| `ToolGuardrails`, `GuardrailTheorems` | the controller, and what it guarantees over a turn |
| `NudgeOvershoot` | which configurations let the soft nudge overshoot a block limit |
| `Transcript`, `CompactionCutoff`, `CompactionPhase` | tool-call blocks, the cut, the summary |
| `EnvProfile`, `ProfileTables` | the rewriter, and the four shipped profiles |

## How the parts fit

**Scheduler.** `Settlement.IsSettlement` says what becomes of each node from what became of its dependencies
alone: cancelled, skipped for a cancelled or failed dependency, approval pending, or run. It mentions no order,
no layers and no batches, and an acyclic graph has exactly one settlement. `TaskOrchestrator.ExecuteGraph` is
the loop over layers, batches and routers; it is proved to report that settlement, and `RunTheorems` draws the
consequences, over the report, the routers' outcomes and the declared dependencies alone. Agents and approvals are
functions of a node and of its context, the results of its completed dependencies: the context picks the recorded
ones from the declared dependencies by position (`NodeGates.IsContext`, `Sequences.Selects`).

**Detectors.** All three searches are measured against `Graphs.Cyclic`, the existence of a closed walk.

**Guards.** The controller's counters, history and nudged set are tied to the full logs of the turn, and the
theorems speak of those logs only. The reordering loop is tied to `BatchSequenceGuard.Reordered`, whose
termination measure counts the patches that no earlier read covers; what tool names and arguments mean for it is
stated literally (`NamesMean`, `ScopePathsMean`), and so is when two calls share a path (`OverlapMeans`).

**Compaction.** A transcript is well formed when every assistant row with tool calls is followed at once by
tool rows answering exactly its unique ids.

**Env profiles.** The rewriter is described by positions: which lines stand in a block, and which remain.

## Where the code differs from what one might expect

- `find_safe_tail_start` is documented to return the earliest safe index. It does so exactly when no call block
  starts at the first boundary; otherwise the whole block goes to the summarised head (`CutIsEarliestIff`).
- A router that raises stops its dependents only if the exception has a message: the scheduler tests the error
  text for truth, so a bare exception fans out (`RaisingRouterStopsIff`).
- The empty string doubles as "no dependency found". A cancelled or failed dependency is overlooked exactly when
  the first bad one is the empty id (`CancelledOverlookedIff`, `FailedOverlookedIff`), which can happen exactly to a
  node that declares the empty id (`NothingOverlookedIff`). `EmptyIdHidesFailure` and `EmptyIdHidesCancellation` are
  runs in which a node runs although its only dependency failed or was cancelled. Workflow files cannot declare such
  a step (butler/workflows/schema.py:51-54); what failures and cancellations stop is stated for nodes that do not
  declare the empty id, and everything else for all graphs.
- A dependency on an id that names no node is ignored by the sort but costs a layer. `LayersOptimalIff` says
  exactly when the layers are still the fewest rounds possible.
- On malformed transcripts the cut may leave a call unanswered in the head; `CutClosedIff` says exactly when,
  and `CutLeavesCallOpen` shows one.
- The soft nudge returns before the counters are looked at, so a nudged call can be executed once past a block
  limit. `ExactOvershootIff` and `ProgressOvershootIff` say for which configurations some turn overshoots each limit;
  the defaults are among them (`DefaultsOvershoot`).
- The halt decision is not first-come: the controller's own blocks and halts overwrite it, and only decisions
  recorded from outside give way (`HaltIsFinal`). Once set it stays set (`HaltStaysSet`).
- The doom-loop check can fire for thresholds one to sixteen only: the history keeps sixteen calls
  (`DoomLoopReachableIff`).

## Model

| member | source | states |
|---|---|---|
| TopologicalSort.TopologicalSort | butler/dag_scheduler.py:12-37 | succeeds exactly on distinct ids without a cycle among known dependencies, repeated and unknown dependencies included, and then returns the FIFO topological order |
| TopologicalSort.BuildTables | butler/dag_scheduler.py:14-21 | adjacency and in-degree tables list exactly the known dependencies, once per occurrence |
| TopologicalSort.InitialQueue | butler/dag_scheduler.py:23 | the queue starts with exactly the ids of in-degree zero, in declaration order |
| TopologicalSort.DrainQueue | butler/dag_scheduler.py:26-32 | when the queue runs dry, every scheduled id follows its known dependencies, first released first, and every other id still waits |
| TopologicalSort.LeftoverIsCyclic | butler/dag_scheduler.py:34-35 | ids left over when the queue runs dry contain a cycle |
| TopologicalSort.FullIsOrder | butler/dag_scheduler.py:34-37 | a full result is a FIFO topological order and rules out every cycle |
| Layering.FifoOrderIsUnique | butler/dag_scheduler.py:23-32 | a graph has at most one FIFO order, so the specification fixes the result of the sort |
| Layering.ComputeDepths | butler/dag_scheduler.py:42-50 | the depth loop solves the depth recurrence and finds its maximum |
| Layering.GroupIntoLayers | butler/dag_scheduler.py:40-55 | the layers are the non-empty depth classes of the order, in order |
| Layering.DepthIsLongestChain | butler/dag_scheduler.py:42-48 | depth is the length of the longest dependency chain starting at the node: attained, never exceeded |
| Layering.DepthIsUnique | butler/dag_scheduler.py:42-48 | the depth recurrence has one solution, whatever order it is computed in |
| Layering.LayerIndexIsDepth | butler/dag_scheduler.py:50-55 | when every dependency names a node, layer `k` holds exactly the nodes of depth `k` |
| Layering.LayersAreOptimal | butler/dag_scheduler.py:40-55 | then no dependency-respecting schedule uses fewer rounds than there are layers, and the layers are such a schedule |
| Layering.LayersOptimalIff | butler/dag_scheduler.py:47-48 | in general the layers are the fewest rounds possible if and only if every node declares a dependency or a deepest chain stays inside the graph |
| Layering.UnknownDependencyCostsARound | butler/dag_scheduler.py:47-48 | two nodes, one waiting for an unknown id: one round would do, the code makes two layers |
| Layering.NoPathWithinLayer | butler/dag_scheduler.py:47-53 | along any dependency path the depth drops, so two nodes of one layer are never joined by a path |
| Layering.LayersFlattenToOrder | butler/dag_scheduler.py:50-55 | when every dependency names a node, concatenating the layers gives back the FIFO order |
| NodeGates.FindsFirstBad | butler/dag_scheduler.py:58-62 | the search returns the first cancelled dependency in declaration order, whatever its name, and nothing if there is none |
| NodeGates.CancelledOverlookedIff | butler/dag_scheduler.py:58-62 | over all ids: nothing is reported if and only if no dependency is cancelled or the first cancelled one is the empty id |
| NodeGates.NothingOverlookedIff | butler/dag_scheduler.py:58-62 | the search overlooks nothing in any state of a run if and only if the node does not declare the empty id |
| NodeGates.FailedIsFirstBad | butler/dag_scheduler.py:78-96 | the search for a failed dependency is the same search, over the recorded failures that are not excused, so it too returns the first one |
| NodeGates.FailedOverlookedIff | butler/dag_scheduler.py:78-96 | over all ids: nothing is reported if and only if no dependency has failed unexcused or the first such one is the empty id |
| NodeGates.InjectDependencyContext | butler/dag_scheduler.py:138-159 | the context holds exactly the dependencies that have a record, in declaration order, once per occurrence, each with its record |
| NodeGates.ContextIsExact | butler/dag_scheduler.py:138-159 | no other list does |
| NodeGates.VerdictMeans | butler/dag_scheduler.py:220-255 | on a successful result a router rules out every direct dependent but the one it names, all of them when it raises with a message, none when it names nothing, and is reported exactly when it raised with a message or named an unknown id or no direct dependent; without a router, or after a failure, nothing is ruled out or reported |
| NodeGates.BatchesCover | butler/dag_scheduler.py:204-217 | batches are consecutive runs of the layer: nothing lost, repeated or reordered, each within the bound, all but the last one full |
| TaskOrchestrator.RunState.PrepareLayerNode | butler/dag_scheduler.py:169-201 | lets a node run if and only if both gates pass it and approval is not required or given, agent and approver both getting the exact context of the recorded dependencies; otherwise returns the skip result of the specification |
| TaskOrchestrator.RouteOne | butler/dag_scheduler.py:69-75 | adding what one router's verdict rules out keeps the cancelled set equal to what all routers so far rule out |
| TaskOrchestrator.RecordedIsNotCancelled | butler/task_orchestrator.py:363-421 | at every point of a run no node is both completed and cancelled |
| TaskOrchestrator.RunState.ApplyNodeRouter | butler/dag_scheduler.py:220-255 | cancels exactly the direct dependents the outcome of the router rules out, the named one never among them, and returns exactly its faults; without a router, or after a failure, changes nothing |
| TaskOrchestrator.RunState.FinalizeUnexecutedNodes | butler/dag_scheduler.py:258-278 | every id of the order that is neither recorded nor cancelled is recorded as skipped, for its first cancelled dependency, where there is one to blame, and is otherwise reported as not executed, one report each, in order |
| TaskOrchestrator.NeverMeans | butler/dag_scheduler.py:274-278 | the reports name exactly the ids no cancelled dependency can be blamed for, in order |
| TaskOrchestrator.GateMatches | butler/task_orchestrator.py:364-379 | in the middle of a run, a node whose dependencies are done passes or fails its gates as the settlement says |
| TaskOrchestrator.RunState.PrepareLayer | butler/task_orchestrator.py:364-381 | the gate pass returns exactly the nodes of the layer that will run, and records the others |
| TaskOrchestrator.RunState.RunBatch | butler/task_orchestrator.py:390-412 | a batch records each member's settled result and appends the members to the execution order |
| TaskOrchestrator.RunState.RouteLayer | butler/task_orchestrator.py:414-421 | the routers of a layer cancel exactly what their verdicts rule out and report exactly their errors |
| TaskOrchestrator.RunState.RunLayer | butler/task_orchestrator.py:363-421 | a layer extends the records, the cancellations, the order and the errors of the settlement by its own nodes, and leaves completed and cancelled ids disjoint |
| TaskOrchestrator.LayerIsIndependent | butler/task_orchestrator.py:386-412 | no member of a batch depends, even indirectly, on another |
| TaskOrchestrator.NothingLeft | butler/task_orchestrator.py:423-429 | after the last layer every node is recorded or cancelled, so finalisation adds nothing |
| TaskOrchestrator.ExecuteGraph | butler/task_orchestrator.py:335-436 | runs exactly the acyclic graphs of at most fifty nodes with distinct ids; reports the settlement of the graph, which the theorems of `RunTheorems` spell out node by node; completed and cancelled ids partition the nodes; every batch is non-empty, within the bound and free of internal dependencies |
| Settlement.StatusIsLocal | butler/dag_scheduler.py:169-201 | a node's status depends on the statuses of its dependencies alone |
| Settlement.SettlementExists | butler/task_orchestrator.py:363-421 | every acyclic graph has a settlement |
| Settlement.SettlementIsUnique | butler/task_orchestrator.py:363-421 | and only one, so the outcome does not depend on the order of execution |
| Settlement.CancelledIff | butler/dag_scheduler.py:220-255 | a node is cancelled if and only if the router of a dependency that ran and succeeded rules it out |
| Settlement.RunsExactlyWhenReady | butler/dag_scheduler.py:169-201 | in any graph a node runs if and only if no router rules it out, it passes the cancellation and the failure gate, and approval is not needed or given; agent and approver get exactly the results of the recorded dependencies, in declaration order; where the empty id hides nothing, passing both gates means that every known dependency is recorded and succeeded or is excused |
| Settlement.SkipsForTheFirstReason | butler/dag_scheduler.py:169-201 | a node that is neither cancelled nor run is recorded as failed, naming its first cancelled dependency, else its first failure that stands, else the missing approval |
| Settlement.FailureIsFinal | butler/dag_scheduler.py:78-96 | nothing runs that an unexcused failure reaches through nodes that are not excused, as far as no node on the way declares the empty id |
| Settlement.EmptyIdHidesFailure | butler/dag_scheduler.py:78-96 | a graph in which a node runs although its only dependency, the empty id, failed |
| Settlement.EmptyIdHidesCancellation | butler/dag_scheduler.py:58-62 | a graph in which a node runs although its only dependency, the empty id, was cancelled |
| Settlement.RoutingIsFinal | butler/dag_scheduler.py:220-255 | where a router returns an id, every other direct dependent is cancelled; the one named is not cancelled by it; a direct dependent or the empty id is no error, an unknown id or another node is exactly one |
| Settlement.RaisingRouterStopsIff | butler/dag_scheduler_ops.py:8-17 | a raising router is reported, and stops its dependents, if and only if its message is not empty |
| Settlement.BareExceptionExample | butler/dag_scheduler_ops.py:8-17 | a graph whose dependent runs although the router of its parent raised |
| RunTheorems.BatchingNeverMatters | butler/task_orchestrator.py:363-421 | two runs of one graph under any `serial` and `max_parallel` report the same results, order and errors |
| RunTheorems.VisitOrderIsUnique | butler/dag_scheduler.py:40-55 | the order in which nodes are visited is determined by the graph and the declaration order |
| RunTheorems.ExecutionIsSafe | butler/task_orchestrator.py:364-412 | in every report no node runs twice; each runs after its known dependencies, past both gates and with approval where required, and its result is what the agent gives on exactly the recorded results of its dependencies, in declaration order; unless it declares the empty id, all its dependencies succeeded or are excused |
| RunTheorems.UnrecordedIff | butler/dag_scheduler.py:220-255 | a node has no record if and only if the router of a dependency that was executed and succeeded rules it out |
| RunTheorems.ExecutedIff | butler/task_orchestrator.py:364-412 | a node is executed if and only if no router rules it out, both gates pass it and approval is not required or given; told from the report alone |
| RunTheorems.SkippedMeans | butler/dag_scheduler.py:169-201 | a recorded node that was not executed carries a failure naming the first cancelled dependency, else the first failure that stands, else the missing approval |
| RunTheorems.NoApproverNoRun | butler/dag_scheduler.py:186-201 | without an approver a node that needs approval is not executed, and unless its failure is excused neither is any direct dependent that does not declare the empty id |
| RunTheorems.SuccessIff | butler/task_orchestrator.py:431-435 | success if and only if there are no errors and every recorded failure is of an optional node, optional steps being enabled; the errors are the faults of the routers of the executed nodes, in execution order |
| RunTheorems.NothingRunsDownstream | butler/dag_scheduler.py:78-96 | in every report, no node downstream of an unexcused failure is in the execution order, as far as no node on the way declares the empty id |
| RunTheorems.UnchosenNeverRuns | butler/dag_scheduler.py:220-255 | in every report, once a router returned an id or raised with a message, no direct dependent but the one named runs or has a record |
| RunTheorems.ChosenIsNotCancelled | butler/dag_scheduler.py:247-255 | the branch a router names leaves a record unless another router rules it out |
| CircularDependencyDetector.CycleDetector.Dfs | butler/core/circular_dependency_detector.py:195-212 | keeps the path a repetition-free walk equal to the stack, every report a new simple cycle, and leaves the node finished or on the stack |
| CircularDependencyDetector.DetectCycles | butler/core/circular_dependency_detector.py:188-217 | every list is a simple cycle closed by its first node, none is repeated, every cycle of the graph uses the closing edge of a report, and the report is empty if and only if there is no cycle |
| CircularDependencyDetector.ReportCoversEveryCycle | butler/core/circular_dependency_detector.py:201-212 | removing the closing edges of the reported cycles leaves an acyclic graph |
| CircularDependencyDetector.BackEdgeCycle | butler/core/circular_dependency_detector.py:204-209 | the list built for a back edge is a simple cycle of the graph |
| Container.DependencyValidator.Dfs | butler/core/container.py:223-241 | an error carries a simple cycle; success leaves the node finished and the path as it was |
| Container.ValidateDependencies | butler/core/container.py:243-252 | `Ok` if and only if the graph is acyclic, otherwise a simple cycle |
| Container.CompareDetectors | butler/core/container.py:223-252 | the container's search fails if and only if the detector reports something, and, ids being distinct, if and only if Kahn's algorithm raises |
| BatchSequenceGuard.ReorderReadsBeforeDestructive | butler/core/batch_sequence_guard.py:72-114 | the loop terminates with a permutation of the batch that keeps all other calls in order, puts a `read_file` before every `patch` it shares a path with, and leaves a batch alone in which every such patch has one before it already |
| BatchSequenceGuard.SamePathIsReadFirst | butler/core/batch_sequence_guard.py:72-114 | of a `patch` and a `read_file` with the same non-blank `path` argument in one batch, the patch ends up behind a read it shares a path with |
| BatchSequenceGuard.NamesMean | butler/core/batch_sequence_guard.py:37-48 | a tool writes if and only if its stripped, lower-cased name starts with `write_`, `edit_` or `patch` or is `apply_patch`; it reads if and only if that name starts with `read_`, `search_`, `grep` or `list_` or is `glob` |
| BatchSequenceGuard.ScopePathsMean | butler/core/batch_sequence_guard.py:134-146 | the paths of a call are exactly the stripped non-blank values of `path`, `file`, `directory`, `root` and `target`, or, when there is none, the pattern of a `grep` or `search_files` that starts with a slash or a dot |
| BatchSequenceGuard.OverlapMeans | butler/core/batch_sequence_guard.py:117-131 | two calls overlap if and only if they share a path after normalisation or a path of one lies inside a path of the other |
| BatchSequenceGuard.MoveHelps | butler/core/batch_sequence_guard.py:99-113 | each move leaves strictly fewer patches without an earlier read: the termination measure |
| BatchSequenceGuard.ReorderedIsSafe | butler/core/batch_sequence_guard.py:78-114 | making every move keeps the calls, keeps the order of those that are not reads, and leaves no misplaced patch |
| BatchSequenceGuard.GateIsHarmless | butler/core/batch_sequence_guard.py:51-57 | a batch turned away by the early exit has no misplaced patch |
| BatchSequenceGuard.FindMove | butler/core/batch_sequence_guard.py:82-113 | finds the first misplaced patch and its first read, or shows that there is none |
| BatchSequenceGuard.Guard.ShouldSkipStaleRead | butler/core/batch_sequence_guard.py:201-213 | skips exactly a read, guard enabled, one of whose paths overlaps a recorded one; path resolution being idempotent, exactly a read that shares a path with a noted write |
| BatchSequenceGuard.Guard.NoteToolResult | butler/core/batch_sequence_guard.py:215-228 | a write that landed, and nothing else, is noted: the recorded paths are the normalised paths of all noted writes, each once |
| BatchSequenceGuard.StaleIffOverlap | butler/core/batch_sequence_guard.py:201-227 | comparing with the recorded normalised paths amounts to sharing a path with a noted write |
| BatchSequenceGuard.RunSequentially | butler/core/tool_batch_runner.py:38-77 | each call's result is told from those before it: interrupted from the first interrupt on, held back by a recorded halt, else skipped if and only if it is a stale read and a write executed earlier in the batch landed on its path |
| BatchSequenceGuard.ResultsMean | butler/core/tool_batch_runner.py:38-77 | what becomes of each call, over the names, paths and outcomes of the calls alone: interrupted, halted, skipped as a read of what an executed write of the batch has landed on, or executed |
| BatchSequenceGuard.PatchedPathIsNotReread | butler/core/batch_sequence_guard.py:201-228 | a `read_file` of the path of a `patch` that was executed earlier in the batch and landed is never executed while the guard is on |
| BatchSequenceGuard.FirstReadIsFresh | butler/core/batch_sequence_guard.py:72-131 | after reordering, with `patch` the only writer, one path per call and paths equal or apart, the first read of a path precedes every patch of it and is never skipped as stale, whatever is interrupted or halted |
| ToolGuardrails.ToolCallGuardrailController.BeforeCall | butler/tool_guardrails.py:220-326 | decides from the full logs of the turn alone, by the decision `BeforeMeans` describes, and latches exactly its own blocks |
| ToolGuardrails.ToolCallGuardrailController.CheckDoomLoop | butler/tool_guardrails.py:241-291 | the sixteen-entry history and the nudged set give the verdict the full attempt log gives |
| ToolGuardrails.ToolCallGuardrailController.CheckCounters | butler/tool_guardrails.py:293-326 | the counter tables give the verdict the full outcome log gives |
| ToolGuardrails.ToolCallGuardrailController.AfterCall | butler/tool_guardrails.py:339-424 | keeps every counter equal to its meaning in the log, decides from the log, by the decision `AfterFailureMeans` and `AfterSuccessMeans` describe, and latches exactly its own halts |
| ToolGuardrails.ToolCallGuardrailController.ResetForTurn | butler/tool_guardrails.py:193-203 | a new turn starts from empty logs and no halt decision |
| ToolGuardrails.FailureRunIsLongest | butler/tool_guardrails.py:359-365 | the failure counts are the longest trailing run of failures of the call, or of the tool |
| ToolGuardrails.StaleRunIsLongest | butler/tool_guardrails.py:408-413 | the no-progress count is the longest trailing run of successes with the same result |
| ToolGuardrails.FailureCounted | butler/tool_guardrails.py:359-365 | one failure moves both failure tables as it moves the log |
| GuardrailTheorems.CountersAreRuns | butler/tool_guardrails.py:359-413 | the three counts are the longest runs at the end of the calls of that signature, or of that tool, picked from the log in order |
| GuardrailTheorems.AfterFailureMeans | butler/tool_guardrails.py:359-399 | after a failure: halt if and only if the hard stop is on and the trailing failures of the tool reach the limit; else warn if and only if warnings are on and the run of the call, or else of the tool, reaches its warn limit, naming that run and its length; else allow |
| GuardrailTheorems.AfterSuccessMeans | butler/tool_guardrails.py:401-424 | after a success: warn if and only if the tool is one of the eleven lookups, warnings are on and the trailing equal results reach the limit; else allow |
| GuardrailTheorems.IdempotentMeans | butler/tool_guardrails.py:26-50 | no tool is on both lists: the idempotent tools are exactly the eleven lookups |
| GuardrailTheorems.BeforeMeans | butler/tool_guardrails.py:238-326 | the decision before a call, over runs in the logs: one nudge per call when its run comes within one of the threshold, then the doom loop, the failure block and the no-progress block in that order, else allow; without the hard stop always allow |
| GuardrailTheorems.DoomWindow | butler/tool_guardrails.py:241-291 | of threshold plus one identical attempts in a row one is blocked: the one completing the window or, if that is let through with a nudge, the next |
| GuardrailTheorems.DoomLoopReachableIff | butler/tool_guardrails.py:202-265 | a doom-loop decision is possible if and only if the hard stop is on and the threshold is one to sixteen |
| GuardrailTheorems.DoomMeansIdenticalTail | butler/tool_guardrails.py:243-265 | a doom-loop decision means that the last `threshold` attempts of the whole turn are identical |
| GuardrailTheorems.NudgedOnce | butler/tool_guardrails.py:246-253 | no call is nudged twice in a turn |
| GuardrailTheorems.DoomIsAnnounced | butler/tool_guardrails.py:246-291 | with the nudge enabled, a doom-loop decision is always preceded by that call's nudge |
| GuardrailTheorems.RetriesAreBounded | butler/tool_guardrails.py:245-379 | whatever the tools return, a caller that obeys the decisions exceeds the exact-failure and no-progress limits by one at most, and only for a nudged call, and never exceeds the tool-failure halt limit |
| NudgeOvershoot.ExactOvershootIff | butler/tool_guardrails.py:245-306 | some turn executes more failures of one call than the exact-failure limit if and only if a nudge can come due and the failures that must stand in a row before it stay below the tool's halt limit, or, with a limit below one, the threshold is two |
| NudgeOvershoot.ProgressOvershootIff | butler/tool_guardrails.py:245-324 | some turn returns more equal results of one idempotent call than the no-progress limit if and only if a nudge can come due, the exact-failure limit is at least one, and a no-progress limit of one leaves room for the failures that must come first |
| NudgeOvershoot.DefaultsOvershoot | butler/tool_guardrails.py:53-62 | under the default configuration some turn executes six failures, and some turn six equal results, of one call, each limit being five |
| GuardrailTheorems.HaltIsFinal | butler/tool_guardrails.py:205-214 | whatever happens between two resets, the halt decision is the controller's last own block or halt, or, when there is none, the first decision recorded from outside, and is unset only if there is neither |
| GuardrailTheorems.HaltStaysSet | butler/tool_guardrails.py:205-214 | once set, the halt decision stays set whatever follows before the next reset |
| GuardrailTheorems.ReplayController | butler/tool_guardrails.py:193-379 | the controller fed any sequence of calls, outcomes and outside decisions has the logs and the halt decision these two speak of |
| GuardrailTheorems.DriveController | butler/tool_guardrails.py:216-379 | the controller driven through a turn has exactly the logs and the halt decision of that turn, and all three of its counter tables keep the bounds |
| Transcript.PendingMeaning | butler/core/compaction_cutoff.py:10-27 | a call is pending if and only if some row opens it and no later row answers it |
| Transcript.PendingMeans | butler/core/compaction_cutoff.py:10-27 | over the rows themselves: an id is pending if and only if an assistant row calls it under a non-blank id and no later tool row carries that id, blanks around ids aside |
| Transcript.ClosedIffBoundary | butler/core/compaction_cutoff.py:10-27 | on a well-formed transcript a prefix has no unanswered call if and only if it ends between blocks |
| Transcript.BoundarySplits | butler/core/compaction_cutoff.py:30-50 | cutting between blocks leaves two well-formed transcripts |
| CompactionCutoff.PrefixToolPairsClosed | butler/core/compaction_cutoff.py:10-27 | true if and only if every call an assistant row of the prefix makes is answered by a later tool row of the prefix |
| CompactionCutoff.FindSafeTailStart | butler/core/compaction_cutoff.py:30-50 | returns the first place from the clamped proposal on with no unanswered call before it, or the end, moved past the tool rows of a call row that stands there |
| CompactionCutoff.CutIsSafe | butler/core/compaction_cutoff.py:30-50 | on a well-formed transcript the head has no unanswered call and head and tail are both well formed, so no tool row is parted from its call |
| CompactionCutoff.CutIsMonotone | butler/core/compaction_cutoff.py:37-50 | a later proposal never gives an earlier cut |
| CompactionCutoff.CutIsEarliestIff | butler/core/compaction_cutoff.py:31-49 | the cut is the earliest boundary if and only if no call block starts there |
| CompactionCutoff.CutSkipsLeadingBlock | butler/core/compaction_cutoff.py:40-48 | one call and its answer, proposal zero: index zero is safe, the code returns two |
| CompactionCutoff.CutClosedIff | butler/core/compaction_cutoff.py:37-50 | on any transcript: the head has no unanswered call if and only if the scan ended before the end, or the whole is closed, and a block moved past is answered in full |
| CompactionCutoff.CutLeavesCallOpen | butler/core/compaction_cutoff.py:40-48 | two calls of which one is answered, proposal zero: the code cuts after both rows and leaves a call of the head unanswered |
| CompactionPhase.ApplySummaryPlacement | butler/core/compaction_phase.py:81-111 | inserts the summary once and keeps everything else in order: right before the last user message that is no summary, or right after the system messages; well-formed parts stay well formed |
| CompactionPhase.RealUserMeans | butler/core/compaction_phase.py:98-104 | a row counts as the user's own if and only if its role is `user` and the compaction mark occurs nowhere in its text |
| CompactionPhase.PlacementKeepsBlocks | butler/core/compaction_phase.py:95-111 | a summary inserted before a user message never splits a block |
| EnvProfile.StripProfileBlock | scripts/apply-butler-env-profile.py:84-109 | the skip-state loop keeps, in order, exactly the lines that stand in no block and set no managed key, and drops the blank ones at the end |
| EnvProfile.KeptExactly | scripts/apply-butler-env-profile.py:84-109 | before trailing blanks are dropped, exactly the lines remain, in order, that stand in no block and set no managed key; a block runs from a header over comments and managed keys up to a blank line, which goes with it, or a foreign one, which stays |
| EnvProfile.StrippedMeans | scripts/apply-butler-env-profile.py:84-109 | the stripped file the other theorems speak of is those lines without the blank ones at the end |
| EnvProfile.BlockEnds | scripts/apply-butler-env-profile.py:90-102 | one block between clean lines: what precedes it and what follows the line that ends it stays, that line too unless it is blank |
| EnvProfile.HeaderMeans | scripts/apply-butler-env-profile.py:81 | a header is a stripped line `#`, `===`, `Terminal Profile:` and anything more, white space allowed before and after the rule |
| EnvProfile.ManagedSettingMeans | scripts/apply-butler-env-profile.py:102-105 | a line sets a managed key if and only if it is no comment and, white space aside, such a key stands before its first equals sign |
| EnvProfile.ApplyProfile | scripts/apply-butler-env-profile.py:112-125 | the stripped lines, one empty line, the comments of the profile and one `key=value` line per entry, in order |
| EnvProfile.StripIsIdempotent | scripts/apply-butler-env-profile.py:84-109 | stripping twice is stripping once, on any file |
| EnvProfile.StripUndoesApply | scripts/apply-butler-env-profile.py:84-125 | stripping a file a profile was applied to gives the stripped original |
| EnvProfile.LastProfileWins | scripts/apply-butler-env-profile.py:112-125 | applying one profile and then another is applying the other |
| EnvProfile.StrippedSettings | scripts/apply-butler-env-profile.py:84-109 | stripping removes every setting of a managed key and keeps every other setting, in order |
| EnvProfile.AppliedSettings | scripts/apply-butler-env-profile.py:112-125 | afterwards each key of the profile is set exactly once, to its value, every other managed key nowhere, every foreign key as before |
| ProfileTables.ShippedProfilesAreSound | scripts/apply-butler-env-profile.py:10-80 | the four shipped tables satisfy what the theorems ask of a profile |
| ProfileTables.ShippedLastWins | scripts/apply-butler-env-profile.py:10-125 | for every pair of shipped profiles and every file the last one applied wins, key by key |

## Left out

- Agent spawning, retry, rescue and `until` steps, coroutines and their exceptions: an agent is a total function of a node id and of the results of its completed dependencies.
- Injected context text, handoff blocks and supervisor notes: only the completed dependency results they are built from are kept, and node configurations are taken fresh for each run.
- Progress callbacks, workflow step markers and logging.
- The text of error and guidance messages; a run's errors are values, and joining them into one string is not modelled.
- The order in which Python iterates a set: neighbour sets are given as lists in any order, for which the theorems hold.
- AST and import scanning, the layer-boundary report and the `dependencies` field of a reported cycle.
- The container's fixed service table: its search is modelled over any graph.
- Parsing tool results, deciding whether a call failed, and hashing: signatures, failures and result hashes are inputs.
- The external tool-loop detector, taken to be silent.
- Re-reading the guardrail's environment settings between calls: they are constant during a turn.
- Locks: every entry point of the guardrail and of the batch guard holds one, so calls are sequential.
- Guardrail payloads, synthetic results, and the skip payload of a stale read.
- Prefetched or concurrent execution of a batch; interrupt checks and recorded halts inside a sequential one are inputs.
- Resolving a path on disk: it is a parameter, assumed idempotent and non-empty on non-empty paths where a theorem needs that.
- Batches of dictionary-shaped tool calls: the early exit reads only a `name` attribute, so they are never reordered.
- Recording edited paths for the read-state tracker.
- Lower-casing beyond ASCII.
- Rows of a transcript handed to summary placement that are no dictionaries; the code would raise on them.
- Reading, splitting, joining and writing the env file, the unknown-profile and missing-file exits, and the command line.
- Every other part of the repository: gateways, settings, secrets, memory, reports, wrappers.
