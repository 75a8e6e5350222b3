/** `TaskOrchestrator.execute_graph`: layers, gates, batches, routers, finalisation, and the proof
    that the run realises the settlement of its graph. */
module TaskOrchestrator {
  import opened Graphs
  import opened Sequences
  import opened Tasks
  import opened TopologicalSort
  import opened Layering
  import opened NodeGates
  import opened Settlement

  const MAX_DAG_NODES := 50

  datatype TaskGraphResult = TaskGraphResult(
    nodes: map<string, AgentResult>,
    executionOrder: seq<string>,
    errors: seq<RunError>,
    success: bool)

  // ---------------------------------------------------------------- what a run leaves behind

  function RanIn(st: Statuses, s: seq<string>): seq<string> {
    if s == [] then []
    else
      var front, id := RanIn(st, s[..|s|-1]), s[|s|-1];
      if id in st && st[id].Ran? then front + [id] else front
  }

  function RouterErrors(nm: NodeMap, st: Statuses, s: seq<string>): seq<RunError> {
    if s == [] then []
    else
      var front, id := RouterErrors(nm, st, s[..|s|-1]), s[|s|-1];
      if id in st && st[id].Ran? && id in nm
      then front + VerdictErrors(RouterVerdict(nm, id, nm[id], st[id].result))
      else front
  }

  function NotRan(st: Statuses, s: seq<string>): set<string> {
    set id | id in s && !(id in st && st[id].Ran?)
  }

  /** The context injected for `id` is the one its settled result is computed from. */
  predicate Primed(rt: Runtime, st: Statuses, contexts: map<string, Context>, id: string) {
    id in contexts && id in st && st[id].Ran? && rt.spawn(id, contexts[id]) == st[id].result
  }

  /** `completed` records the nodes of `done` that were not cancelled. */
  ghost predicate Records(st: Statuses, done: set<string>, completed: map<string, AgentResult>) {
    && (forall id :: id in completed <==> id in done && id in st && !st[id].Cancelled?)
    && (forall id :: id in completed ==> completed[id] == Recorded(st[id]))
  }

  /** Some router of `done` rules `id` out. */
  ghost predicate RuledOut(nm: NodeMap, st: Statuses, done: set<string>, id: string) {
    exists p :: p in done && Cancels(nm, st, p, id)
  }

  /** `cancelled` holds what the routers of `done` have ruled out. */
  ghost predicate Routed(nm: NodeMap, st: Statuses, done: set<string>, cancelled: set<string>) {
    forall id :: id in cancelled <==> RuledOut(nm, st, done, id)
  }

  /** Every known dependency of a member is a member. */
  ghost predicate Closed(nm: NodeMap, done: set<string>) {
    forall id, d :: id in done && id in nm && d in nm[id].dependsOn && d in nm ==> d in done
  }

  ghost predicate ReadyAfter(nm: NodeMap, done: set<string>, id: string) {
    id in nm && forall d :: d in nm[id].dependsOn && d in nm ==> d in done
  }

  lemma SettledStatus(rt: Runtime, nm: NodeMap, st: Statuses, id: string)
    requires IsSettlement(rt, nm, st) && id in nm
    ensures id in st && st[id] == StatusFrom(rt, nm, id, st)
  {
  }

  lemma RoutedIsCancelled(rt: Runtime, nm: NodeMap, st: Statuses, done: set<string>, cancelled: set<string>, id: string)
    requires IsSettlement(rt, nm, st) && Routed(nm, st, done, cancelled) && ReadyAfter(nm, done, id)
    ensures id in st && (id in cancelled <==> st[id].Cancelled?)
  {
    hide IsSettlement;
    SettledStatus(rt, nm, st, id);
    if id in cancelled {
      var p :| p in done && Cancels(nm, st, p, id);
      assert p in nm[id].dependsOn;
    }
    if st[id].Cancelled? {
      var p :| p in nm[id].dependsOn && Cancels(nm, st, p, id);
      assert p in done;
    }
  }

  lemma CancelledIsKnown(nm: NodeMap, st: Statuses, done: set<string>, cancelled: set<string>, id: string)
    requires Routed(nm, st, done, cancelled) && id in cancelled
    ensures id in nm
  {
    var p :| p in done && Cancels(nm, st, p, id);
  }

  lemma CancelsMeansCancelled(rt: Runtime, nm: NodeMap, st: Statuses, p: string, id: string)
    requires IsSettlement(rt, nm, st) && Cancels(nm, st, p, id)
    ensures id in st && st[id].Cancelled?
  {
    assert p in nm[id].dependsOn;
    assert RoutedAway(nm, id, st) by { hide Cancels; }
    hide Cancels, RoutedAway, Gate;
    SettledStatus(rt, nm, st, id);
  }

  /** In the middle of a run too, no node is both recorded and cancelled. */
  lemma RecordedIsNotCancelled(rt: Runtime, nm: NodeMap, st: Statuses, done: set<string>,
                               completed: map<string, AgentResult>, cancelled: set<string>)
    requires IsSettlement(rt, nm, st) && Records(st, done, completed) && Routed(nm, st, done, cancelled)
    ensures completed.Keys !! cancelled
  {
    hide IsSettlement, Cancels, Recorded;
    forall id | id in cancelled ensures id !in completed {
      var p :| p in done && Cancels(nm, st, p, id);
      CancelsMeansCancelled(rt, nm, st, p, id);
    }
  }

  /** Mid-run, a finished dependency looks the way it will look at the end. */
  lemma DependencySettled(rt: Runtime, nm: NodeMap, st: Statuses, done: set<string>, recorded: set<string>,
                          completed: map<string, AgentResult>, cancelled: set<string>, d: string)
    requires IsSettlement(rt, nm, st) && Closed(nm, done) && (d in nm ==> d in done)
    requires done <= recorded && Records(st, recorded, completed) && Routed(nm, st, done, cancelled)
    ensures d in cancelled <==> d in CancelledOf(st)
    ensures d in completed <==> d in CompletedOf(st)
    ensures d in completed ==> completed[d] == CompletedOf(st)[d]
  {
    assert st.Keys == nm.Keys;
    if d in nm {
      assert ReadyAfter(nm, done, d);
      hide IsSettlement, Routed;
      RoutedIsCancelled(rt, nm, st, done, cancelled, d);
    } else if d in cancelled {
      hide IsSettlement, Routed;
      CancelledIsKnown(nm, st, done, cancelled, d);
    }
  }

  /** Mid-run, the gates of a node whose dependencies are done answer as the settlement says. */
  lemma GateMatches(rt: Runtime, nm: NodeMap, st: Statuses, done: set<string>, recorded: set<string>,
                    completed: map<string, AgentResult>, cancelled: set<string>, id: string)
    requires IsSettlement(rt, nm, st) && Closed(nm, done) && ReadyAfter(nm, done, id)
    requires done <= recorded && Records(st, recorded, completed) && Routed(nm, st, done, cancelled)
    ensures id in st && (id in cancelled <==> st[id].Cancelled?)
    ensures id !in cancelled ==> Gate(rt, nm, id, completed, cancelled) == st[id]
  {
    hide IsSettlement, Routed, Records, CompletedOf, CancelledOf, Closed;
    RoutedIsCancelled(rt, nm, st, done, cancelled, id);
    SettledStatus(rt, nm, st, id);
    var deps := nm[id].dependsOn;
    forall d | d in deps
      ensures d in cancelled <==> d in CancelledOf(st)
      ensures d in completed <==> d in CompletedOf(st)
      ensures d in completed ==> completed[d] == CompletedOf(st)[d]
    {
      DependencySettled(rt, nm, st, done, recorded, completed, cancelled, d);
    }
    GatesSeeOnlyDependencies(rt, nm, deps, completed, cancelled, CompletedOf(st), CancelledOf(st));
  }

  // ---------------------------------------------------------------- the shared dictionaries and lists

  predicate AllRequiredOk(rt: Runtime, nm: NodeMap, completed: map<string, AgentResult>) {
    forall id :: id in completed ==> !Blocks(rt, nm, id, completed[id])
  }

  /** What `finalize_unexecuted_nodes` reports about ids nothing else accounts for. */
  function NeverRun(nm: NodeMap, order: seq<string>, completed: map<string, AgentResult>,
                    cancelled: set<string>): seq<RunError>
    requires forall id :: id in order ==> id in nm
  {
    if order == [] then []
    else
      var front, id := NeverRun(nm, order[..|order|-1], completed, cancelled), order[|order|-1];
      if id !in completed && id !in cancelled && FirstCancelledDependency(nm[id].dependsOn, cancelled) == NONE
      then front + [NotExecuted(id)]
      else front
  }

  function SkippedLate(nm: NodeMap, order: seq<string>, completed: map<string, AgentResult>,
                       cancelled: set<string>): map<string, AgentResult>
    requires forall id :: id in order ==> id in nm
  {
    map id | id in order && id !in completed && id !in cancelled
             && FirstCancelledDependency(nm[id].dependsOn, cancelled) != NONE
      :: Recorded(SkippedCancelled(FirstCancelledDependency(nm[id].dependsOn, cancelled)))
  }

  lemma LateStep(nm: NodeMap, order: seq<string>, i: nat, completed: map<string, AgentResult>, cancelled: set<string>)
    requires i < |order| && forall id :: id in order ==> id in nm
    ensures var id := order[i];
            var c := FirstCancelledDependency(nm[id].dependsOn, cancelled);
            var late := SkippedLate(nm, order[..i], completed, cancelled);
            var missing := id !in completed && id !in cancelled;
            && SkippedLate(nm, order[..i+1], completed, cancelled)
               == (if missing && c != NONE then late[id := Recorded(SkippedCancelled(c))] else late)
            && (id in late ==> missing && c != NONE && late[id] == Recorded(SkippedCancelled(c)))
  {
    hide FirstCancelledDependency, Recorded;
    assert order[..i+1] == order[..i] + [order[i]];
  }

  lemma NeverStep(nm: NodeMap, order: seq<string>, i: nat, completed: map<string, AgentResult>, cancelled: set<string>)
    requires i < |order| && forall id :: id in order ==> id in nm
    ensures var id := order[i];
            var none := id !in completed && id !in cancelled
                && FirstCancelledDependency(nm[id].dependsOn, cancelled) == NONE;
            NeverRun(nm, order[..i+1], completed, cancelled)
            == NeverRun(nm, order[..i], completed, cancelled) + (if none then [NotExecuted(id)] else [])
  {
    hide FirstCancelledDependency;
    assert order[..i+1][..i] == order[..i];
  }

  lemma NothingLate(nm: NodeMap, order: seq<string>, completed: map<string, AgentResult>, cancelled: set<string>)
    requires forall id :: id in order ==> id in nm
    ensures SkippedLate(nm, order[..0], completed, cancelled) == map[]
    ensures NeverRun(nm, order[..0], completed, cancelled) == []
  {
  }

  /** `record` is what the last pass gives to `id`: its first cancelled dependency is to blame. */
  ghost predicate BlamesFirst(nm: NodeMap, cancelled: set<string>, id: string, record: AgentResult)
    requires id in nm
  {
    exists i: nat ::
      FirstBad(nm[id].dependsOn, cancelled, i) && nm[id].dependsOn[i] != NONE
      && record == AgentResult(false, "", "Skipped due to cancelled dependency: " + nm[id].dependsOn[i])
  }

  /** The ids of the order that are neither recorded nor cancelled. */
  ghost predicate Open(order: seq<string>, completed: map<string, AgentResult>, cancelled: set<string>, id: string) {
    id in order && id !in completed && id !in cancelled
  }

  /** Where the order holds an open id that no cancelled dependency can be blamed for. */
  ghost function UnblamedPlaces(nm: NodeMap, order: seq<string>, completed: map<string, AgentResult>,
                                cancelled: set<string>): set<nat>
    requires forall id :: id in order ==> id in nm
  {
    set i | 0 <= i < |order| && Open(order, completed, cancelled, order[i])
            && Passes(nm[order[i]].dependsOn, cancelled)
  }

  /** The last pass skips the open ids with a cancelled dependency to blame. */
  lemma LateMeans(nm: NodeMap, order: seq<string>, completed: map<string, AgentResult>, cancelled: set<string>,
                  id: string)
    requires forall id :: id in order ==> id in nm
    ensures var late := SkippedLate(nm, order, completed, cancelled);
            && (id in late <==> Open(order, completed, cancelled, id) && !Passes(nm[id].dependsOn, cancelled))
            && (id in late ==> BlamesFirst(nm, cancelled, id, late[id]))
  {
    if id in order {
      CancelledOverlookedIff(nm[id].dependsOn, cancelled);
      FindsFirstBad(nm[id].dependsOn, cancelled);
    }
    hide FirstCancelledDependency, EmptyIdFirst, FirstBad;
  }

  ghost predicate NamesUnexecuted(errors: seq<RunError>, ids: seq<string>) {
    |errors| == |ids| && forall k :: 0 <= k < |ids| ==> errors[k] == NotExecuted(ids[k])
  }

  lemma UnblamedStep(nm: NodeMap, front: seq<string>, id: string, completed: map<string, AgentResult>,
                     cancelled: set<string>)
    requires forall x :: x in front + [id] ==> x in nm
    ensures forall x :: x in front ==> x in nm
    ensures var places, before := UnblamedPlaces(nm, front + [id], completed, cancelled),
                UnblamedPlaces(nm, front, completed, cancelled);
            && (forall i :: 0 <= i < |front| ==> (i in before <==> i in places))
            && NeverRun(nm, front + [id], completed, cancelled)
               == NeverRun(nm, front, completed, cancelled) + if |front| in places then [NotExecuted(id)] else []
  {
    var order := front + [id];
    assert order[..|front|] == front && order[|front|] == id;
    assert forall x :: x in order <==> x in front || x == id;
    CancelledOverlookedIff(nm[id].dependsOn, cancelled);
    hide FirstCancelledDependency, EmptyIdFirst;
  }

  /** And it reports the others, one error each, in order. */
  lemma {:induction false} NeverMeans(nm: NodeMap, order: seq<string>, completed: map<string, AgentResult>,
                                      cancelled: set<string>) returns (ids: seq<string>)
    requires forall id :: id in order ==> id in nm
    ensures Selects(order, UnblamedPlaces(nm, order, completed, cancelled), ids)
    ensures NamesUnexecuted(NeverRun(nm, order, completed, cancelled), ids)
  {
    hide UnblamedPlaces, Selects, FirstCancelledDependency;
    var places := UnblamedPlaces(nm, order, completed, cancelled);
    if order == [] {
      ids := [];
      SelectsNothing<string>(places);
    } else {
      var front, id := order[..|order|-1], order[|order|-1];
      assert order == front + [id];
      hide NeverRun;
      ids := NeverMeans(nm, front, completed, cancelled);
      UnblamedStep(nm, front, id, completed, cancelled);
      SelectsAgree(front, UnblamedPlaces(nm, front, completed, cancelled), places, ids);
      SelectsStep(front, places, ids, id);
      ids := if |front| in places then ids + [id] else ids;
    }
  }

  lemma {:induction false} MembersOfConcat(batches: seq<seq<string>>, b: seq<string>)
    requires b in batches
    ensures forall x :: x in b ==> x in Concat(batches)
  {
    if b != batches[0] { MembersOfConcat(batches[1..], b); }
  }

  lemma {:induction false} RanInMembers(st: Statuses, s: seq<string>, id: string)
    ensures id in RanIn(st, s) <==> id in s && id in st && st[id].Ran?
  {
    if s != [] {
      RanInMembers(st, s[..|s|-1], id);
      assert s == s[..|s|-1] + [s[|s|-1]];
    }
  }

  lemma BatchInside(st: Statuses, layer: seq<string>, batches: seq<seq<string>>, b: seq<string>)
    requires Concat(batches) == RanIn(st, layer) && b in batches
    ensures Elements(b) <= Elements(layer)
  {
    MembersOfConcat(batches, b);
    forall x | x in b ensures x in layer { RanInMembers(st, layer, x); }
  }

  predicate BatchWithin(b: seq<string>, serial: bool, maxParallel: Option<int>) {
    && b != [] && (serial ==> |b| == 1)
    && (maxParallel.Some? && maxParallel.value > 0 ==> |b| <= maxParallel.value)
  }

  ghost predicate LayerFollows(nm: NodeMap, done: set<string>, layer: seq<string>) {
    && Closed(nm, done) && Distinct(layer)
    && forall id :: id in layer ==> ReadyAfter(nm, done, id) && id !in done
  }

  lemma NextInLayer(nm: NodeMap, done: set<string>, layer: seq<string>, i: nat)
    requires LayerFollows(nm, done, layer) && i < |layer|
    ensures Closed(nm, done) && ReadyAfter(nm, done, layer[i])
    ensures layer[i] !in done && layer[i] !in layer[..i]
  {
    assert layer[i] in layer;
  }

  lemma NotYetRecorded(st: Statuses, recorded: set<string>, completed: map<string, AgentResult>, id: string)
    requires Records(st, recorded, completed) && id !in recorded
    ensures id !in completed
  {
  }

  lemma SkipUnrecorded(st: Statuses, recorded: set<string>, completed: map<string, AgentResult>, id: string)
    requires Records(st, recorded, completed) && id in st && st[id].Cancelled?
    ensures Records(st, recorded + {id}, completed)
  {
  }

  lemma RecordOne(st: Statuses, recorded: set<string>, completed: map<string, AgentResult>, id: string)
    requires Records(st, recorded, completed) && id in st && !st[id].Cancelled?
    ensures Records(st, recorded + {id}, completed[id := Recorded(st[id])])
  {
  }

  lemma RanStep(st: Statuses, s: seq<string>, i: nat)
    requires i < |s| && s[i] in st
    ensures RanIn(st, s[..i+1]) == if st[s[i]].Ran? then RanIn(st, s[..i]) + [s[i]] else RanIn(st, s[..i])
    ensures NotRan(st, s[..i+1]) == if st[s[i]].Ran? then NotRan(st, s[..i]) else NotRan(st, s[..i]) + {s[i]}
  {
    assert s[..i+1][..i] == s[..i] && s[..i+1] == s[..i] + [s[i]];
  }

  lemma ElementsStep(s: seq<string>, i: nat)
    requires i < |s|
    ensures Elements(s[..i+1]) == Elements(s[..i]) + {s[i]}
  {
    assert s[..i+1] == s[..i] + [s[i]];
  }

  lemma NothingRan(st: Statuses, s: seq<string>)
    ensures RanIn(st, s[..0]) == [] && NotRan(st, s[..0]) == {}
  {
  }

  lemma NotRanListed(st: Statuses, s: seq<string>, id: string)
    ensures id in NotRan(st, s) ==> id in s
  {
  }

  lemma RouteOne(nm: NodeMap, st: Statuses, done: set<string>, cancelled: set<string>, nid: string)
    requires Routed(nm, st, done, cancelled) && nid in st && nid in nm && st[nid].Ran?
    ensures Routed(nm, st, done + {nid},
              cancelled + VerdictCancels(nm, nid, RouterVerdict(nm, nid, nm[nid], st[nid].result)))
  {
    hide RouterVerdict, VerdictCancels;
    forall id
      ensures RuledOut(nm, st, done + {nid}, id) <==> RuledOut(nm, st, done, id) || Cancels(nm, st, nid, id)
    {
      if RuledOut(nm, st, done, id) {
        var p :| p in done && Cancels(nm, st, p, id);
        assert p in done + {nid};
      }
      assert nid in done + {nid};
    }
  }

  lemma NothingRouted(nm: NodeMap, st: Statuses, done: set<string>, tasks: seq<string>)
    ensures done + Elements(tasks[..0]) == done && RouterErrors(nm, st, tasks[..0]) == []
  {
  }

  lemma RouterErrorsStep(nm: NodeMap, st: Statuses, s: seq<string>, i: nat)
    requires i < |s| && s[i] in st && st[s[i]].Ran? && s[i] in nm
    ensures RouterErrors(nm, st, s[..i+1])
            == RouterErrors(nm, st, s[..i]) + VerdictErrors(RouterVerdict(nm, s[i], nm[s[i]], st[s[i]].result))
  {
    assert s[..i+1][..i] == s[..i];
  }

  lemma TasksRecorded(st: Statuses, recorded: set<string>, completed: map<string, AgentResult>, tasks: seq<string>)
    requires Records(st, recorded, completed)
    requires forall id :: id in tasks ==> id in recorded && id in st && st[id].Ran?
    ensures forall id :: id in tasks ==> id in completed && completed[id] == st[id].result
  {
  }

  lemma NoTasks(nm: NodeMap, st: Statuses)
    ensures Concat<string>([]) == [] && RouterErrors(nm, st, []) == [] && Elements([]) == {}
  {
  }

  lemma {:induction false} RouterErrorsOfRan(nm: NodeMap, st: Statuses, s: seq<string>)
    ensures RouterErrors(nm, st, RanIn(st, s)) == RouterErrors(nm, st, s)
  {
    if s != [] {
      RouterErrorsOfRan(nm, st, s[..|s|-1]);
      var front, id := RanIn(st, s[..|s|-1]), s[|s|-1];
      assert (front + [id])[..|front|] == front;
    }
  }

  /** A layer is its tasks and its skips; only the tasks are routed. */
  lemma LayerSplits(nm: NodeMap, st: Statuses, done: set<string>, layer: seq<string>, cancelled: set<string>)
    ensures done + NotRan(st, layer) + Elements(RanIn(st, layer)) == done + Elements(layer)
    ensures RouterErrors(nm, st, RanIn(st, layer)) == RouterErrors(nm, st, layer)
    ensures forall id :: id in RanIn(st, layer) ==> id in st && st[id].Ran?
    ensures Routed(nm, st, done + Elements(RanIn(st, layer)), cancelled) ==>
              Routed(nm, st, done + Elements(layer), cancelled)
  {
    RouterErrorsOfRan(nm, st, layer);
    forall id ensures id in RanIn(st, layer) <==> id in layer && id in st && st[id].Ran? {
      RanInMembers(st, layer, id);
    }
    hide RanIn, RouterErrors;
    var tasks := Elements(RanIn(st, layer));
    forall id ensures RuledOut(nm, st, done + tasks, id) <==> RuledOut(nm, st, done + Elements(layer), id) {
      if RuledOut(nm, st, done + tasks, id) {
        var p :| p in done + tasks && Cancels(nm, st, p, id);
        assert p in done + Elements(layer);
      }
      if RuledOut(nm, st, done + Elements(layer), id) {
        var p :| p in done + Elements(layer) && Cancels(nm, st, p, id);
        assert p in done + tasks;
      }
    }
  }

  /** The state one run shares between the orchestrator and the scheduler helpers. */
  class RunState {
    var completed: map<string, AgentResult>
    var cancelled: set<string>
    var errors: seq<RunError>
    var executionOrder: seq<string>
    var contexts: map<string, Context>

    constructor ()
      ensures completed == map[] && cancelled == {} && errors == [] && executionOrder == [] && contexts == map[]
    {
      completed, cancelled, errors, executionOrder, contexts := map[], {}, [], [], map[];
    }

    /** A skip result, or nothing when the node is ready, its context then being injected. */
    method PrepareLayerNode(rt: Runtime, nm: NodeMap, id: string) returns (skip: Option<AgentResult>)
      requires id in nm
      modifies `contexts
      ensures var g := Gate(rt, nm, id, completed, cancelled);
              && (skip.None? <==> g.Ran?)
              && (skip.Some? ==> skip.value == Recorded(g))
              && (skip.None? ==> id in contexts && rt.spawn(id, contexts[id]) == g.result)
      ensures skip.None? ==> IsContext(nm[id].dependsOn, completed, contexts[id]) && MayRun(rt, nm, id, contexts[id])
      ensures skip.None? <==>
                && Passes(nm[id].dependsOn, cancelled) && Passes(nm[id].dependsOn, Failing(rt, nm, completed))
                && exists c :: IsContext(nm[id].dependsOn, completed, c) && MayRun(rt, nm, id, c)
      ensures forall x :: x in old(contexts) && x != id ==> x in contexts && contexts[x] == old(contexts)[x]
    {
      hide Passes, Failing, IsContext, DependencyContext, FirstCancelledDependency, FirstFailedDependency;
      var deps := nm[id].dependsOn;
      GateRuns(rt, nm, id, completed, cancelled);
      forall c { ContextIsExact(deps, completed, c); }
      var cancelledDep := FirstCancelledDependency(deps, cancelled);
      if cancelledDep != NONE {
        return Some(AgentResult(false, "", "Skipped due to cancelled dependency: " + cancelledDep));
      }
      var failedDep := FirstFailedDependency(rt, nm, deps, completed);
      if failedDep != NONE {
        return Some(AgentResult(false, "", "Skipped due to failed dependency: " + failedDep));
      }
      var context := InjectDependencyContext(deps, completed);
      contexts := contexts[id := context];
      if nm[id].requiresApproval {
        if rt.onApproval.None? || !rt.onApproval.value(id, contexts[id]) {
          return Some(AgentResult(false, "", "workflow_step_approval_pending"));
        }
      }
      return None;
    }

    method CancelDirectDependents(nm: NodeMap, parent: string)
      modifies `cancelled
      ensures cancelled == old(cancelled) + DirectDependents(nm, parent)
    {
      cancelled := cancelled + DirectDependents(nm, parent);
    }

    method ApplyNodeRouter(nm: NodeMap, nid: string, node: TaskNode, result: AgentResult) returns (errs: seq<RunError>)
      modifies `cancelled
      ensures errs == VerdictErrors(RouterVerdict(nm, nid, node, result))
      ensures cancelled == old(cancelled) + VerdictCancels(nm, nid, RouterVerdict(nm, nid, node, result))
      ensures if node.router.Some? && result.success then
                && (forall id :: id in cancelled <==>
                      (id in old(cancelled)
                       || (id in nm && nid in nm[id].dependsOn && RulesOut(node.router.value(result), id))))
                && errs == Faults(nm, nid, node.router.value(result))
              else
                cancelled == old(cancelled) && errs == []
    {
      VerdictMeans(nm, nid, node, result);
      hide RulesOut, Faults;
      if node.router.None? || !result.success { return []; }
      var (nextId, routerError) := RunRouterSafe(node.router.value, result);
      if routerError.Some? && routerError.value != "" {
        CancelDirectDependents(nm, nid);
        return [RouterFailed(nid, routerError.value)];
      }
      if nextId.None? || nextId.value == NONE { return []; }
      if nextId.value !in nm {
        CancelDirectDependents(nm, nid);
        return [UnknownTarget(nid, nextId.value)];
      }
      var deps := DirectDependents(nm, nid);
      if nextId.value !in deps {
        CancelDirectDependents(nm, nid);
        return [NotDirectDependent(nid, nextId.value)];
      }
      cancelled := cancelled + (deps - {nextId.value});
      return [];
    }

    method FinalizeUnexecutedNodes(nm: NodeMap, order: seq<string>)
      requires forall id :: id in order ==> id in nm
      modifies `completed, `errors
      ensures completed == old(completed) + SkippedLate(nm, order, old(completed), cancelled)
      ensures errors == old(errors) + NeverRun(nm, order, old(completed), cancelled)
      ensures forall id :: id in old(completed) ==> id in completed && completed[id] == old(completed)[id]
      ensures forall id :: id in completed && id !in old(completed) ==>
                id in nm && BlamesFirst(nm, cancelled, id, completed[id])
      ensures forall id :: Open(order, completed, cancelled, id) ==> Passes(nm[id].dependsOn, cancelled)
      ensures exists ids :: Selects(order, UnblamedPlaces(nm, order, old(completed), cancelled), ids)
                            && NamesUnexecuted(errors[|old(errors)|..], ids)
    {
      hide SkippedLate, NeverRun, FirstCancelledDependency;
      ghost var before := completed;
      NothingLate(nm, order, before, cancelled);
      for i := 0 to |order|
        invariant completed == before + SkippedLate(nm, order[..i], before, cancelled)
        invariant errors == old(errors) + NeverRun(nm, order[..i], before, cancelled)
      {
        var id := order[i];
        LateStep(nm, order, i, before, cancelled);
        NeverStep(nm, order, i, before, cancelled);
        if id !in completed && id !in cancelled {
          var cancelledDep := FirstCancelledDependency(nm[id].dependsOn, cancelled);
          if cancelledDep != NONE {
            completed := completed[id := AgentResult(false, "",
                "Skipped due to cancelled dependency: " + cancelledDep)];
          } else {
            errors := errors + [NotExecuted(id)];
          }
        }
      }
      assert order[..|order|] == order;
      forall id { LateMeans(nm, order, before, cancelled, id); }
      ghost var ids := NeverMeans(nm, order, before, cancelled);
      assert errors[|old(errors)|..] == NeverRun(nm, order, before, cancelled);
      hide BlamesFirst, Selects, NamesUnexecuted, UnblamedPlaces, Passes;
    }

    // -------------------------------------------------------------- one layer

    /** The gate pass over a layer: skips are recorded at once, ready nodes are returned in order. */
    method PrepareLayer(rt: Runtime, nm: NodeMap, layer: seq<string>, ghost st: Statuses, ghost done: set<string>)
      returns (tasks: seq<string>)
      requires IsSettlement(rt, nm, st) && LayerFollows(nm, done, layer)
      requires Records(st, done, completed) && Routed(nm, st, done, cancelled)
      modifies `completed, `contexts
      ensures tasks == RanIn(st, layer)
      ensures Records(st, done + NotRan(st, layer), completed)
      ensures forall id :: id in tasks ==> Primed(rt, st, contexts, id)
    {
      hide IsSettlement, Routed, Records, LayerFollows, Gate, Distinct, NotRan, RanIn;
      tasks := [];
      NothingRan(st, layer);
      assert done + {} == done;
      for i := 0 to |layer|
        invariant tasks == RanIn(st, layer[..i])
        invariant Records(st, done + NotRan(st, layer[..i]), completed)
        invariant forall id :: id in tasks ==> Primed(rt, st, contexts, id)
      {
        var id := layer[i];
        ghost var recorded := done + NotRan(st, layer[..i]);
        NextInLayer(nm, done, layer, i);
        NotRanListed(st, layer[..i], id);
        NotYetRecorded(st, recorded, completed, id);
        GateMatches(rt, nm, st, done, recorded, completed, cancelled, id);
        RanStep(st, layer, i);
        assert recorded + {id} == done + (NotRan(st, layer[..i]) + {id});
        if id in completed || id in cancelled {
          SkipUnrecorded(st, recorded, completed, id);
          continue;
        }
        var skip := PrepareLayerNode(rt, nm, id);
        if skip.Some? {
          RecordOne(st, recorded, completed, id);
          completed := completed[id := skip.value];
        } else {
          tasks := tasks + [id];
        }
      }
      assert layer[..|layer|] == layer;
    }

    /** One batch: a lone node runs by itself, several are gathered and recorded in batch order. */
    method RunBatch(rt: Runtime, batch: seq<string>, ghost st: Statuses, ghost recorded: set<string>)
      requires Records(st, recorded, completed)
      requires forall id :: id in batch ==> Primed(rt, st, contexts, id)
      modifies `completed, `executionOrder
      ensures Records(st, recorded + Elements(batch), completed)
      ensures executionOrder == old(executionOrder) + batch
    {
      hide Records;
      if |batch| == 1 {
        var nid := batch[0];
        assert Primed(rt, st, contexts, nid);
        RecordOne(st, recorded, completed, nid);
        assert recorded + Elements(batch) == recorded + {nid};
        completed := completed[nid := rt.spawn(nid, contexts[nid])];
        executionOrder := executionOrder + [nid];
      } else {
        var injected := contexts;
        forall i | 0 <= i < |batch| ensures Primed(rt, st, injected, batch[i]) { assert batch[i] in batch; }
        var results := seq(|batch|, i requires 0 <= i < |batch| && batch[i] in injected =>
                             rt.spawn(batch[i], injected[batch[i]]));
        assert recorded + Elements(batch[..0]) == recorded;
        for i := 0 to |batch|
          invariant Records(st, recorded + Elements(batch[..i]), completed)
          invariant executionOrder == old(executionOrder) + batch[..i]
        {
          assert Primed(rt, st, injected, batch[i]);
          RecordOne(st, recorded + Elements(batch[..i]), completed, batch[i]);
          ElementsStep(batch, i);
          assert recorded + Elements(batch[..i+1]) == recorded + Elements(batch[..i]) + {batch[i]};
          completed := completed[batch[i] := results[i]];
          executionOrder := executionOrder + [batch[i]];
        }
        assert batch[..|batch|] == batch;
      }
    }

    /** The batches of one layer, in turn. */
    method RunBatches(rt: Runtime, tasks: seq<string>, batches: seq<seq<string>>, ghost st: Statuses,
                      ghost recorded: set<string>)
      requires Concat(batches) == tasks
      requires Records(st, recorded, completed)
      requires forall id :: id in tasks ==> Primed(rt, st, contexts, id)
      modifies `completed, `executionOrder
      ensures Records(st, recorded + Elements(tasks), completed)
      ensures executionOrder == old(executionOrder) + tasks
    {
      hide Records;
      ghost var ran: seq<string> := [];
      assert recorded + Elements(ran) == recorded;
      for i := 0 to |batches|
        invariant ran + Concat(batches[i..]) == tasks
        invariant Records(st, recorded + Elements(ran), completed)
        invariant executionOrder == old(executionOrder) + ran
      {
        assert batches[i..][1..] == batches[i+1..];
        assert tasks == ran + batches[i] + Concat(batches[i+1..]);
        RunBatch(rt, batches[i], st, recorded + Elements(ran));
        assert recorded + Elements(ran + batches[i]) == recorded + Elements(ran) + Elements(batches[i]);
        ran := ran + batches[i];
      }
      assert ran == tasks;
    }

    /** The routers of the nodes that ran in this layer, in order. */
    method RouteLayer(nm: NodeMap, tasks: seq<string>, ghost st: Statuses, ghost done: set<string>)
      requires st.Keys == nm.Keys && Routed(nm, st, done, cancelled)
      requires forall id :: id in tasks ==> id in st && st[id].Ran? && id in completed && completed[id] == st[id].result
      modifies `cancelled, `errors
      ensures Routed(nm, st, done + Elements(tasks), cancelled)
      ensures errors == old(errors) + RouterErrors(nm, st, tasks)
    {
      hide Routed, RouterErrors, RouterVerdict, VerdictErrors, VerdictCancels, Elements;
      NothingRouted(nm, st, done, tasks);
      for i := 0 to |tasks|
        invariant Routed(nm, st, done + Elements(tasks[..i]), cancelled)
        invariant errors == old(errors) + RouterErrors(nm, st, tasks[..i])
      {
        var nid := tasks[i];
        RouterErrorsStep(nm, st, tasks, i);
        RouteOne(nm, st, done + Elements(tasks[..i]), cancelled, nid);
        ElementsStep(tasks, i);
        assert done + Elements(tasks[..i+1]) == done + Elements(tasks[..i]) + {nid};
        var errs := ApplyNodeRouter(nm, nid, nm[nid], completed[nid]);
        errors := errors + errs;
      }
      assert tasks[..|tasks|] == tasks;
    }

    /** A whole layer: gates, batches, routers. */
    method RunLayer(rt: Runtime, nm: NodeMap, layer: seq<string>, serial: bool, maxParallel: Option<int>,
                    ghost st: Statuses, ghost done: set<string>) returns (ghost rounds: seq<seq<string>>)
      requires IsSettlement(rt, nm, st) && LayerFollows(nm, done, layer)
      requires Records(st, done, completed) && Routed(nm, st, done, cancelled)
      modifies this
      ensures Records(st, done + Elements(layer), completed)
      ensures Routed(nm, st, done + Elements(layer), cancelled)
      ensures completed.Keys !! cancelled
      ensures executionOrder == old(executionOrder) + RanIn(st, layer)
      ensures errors == old(errors) + RouterErrors(nm, st, layer)
      ensures Concat(rounds) == RanIn(st, layer)
      ensures forall b :: b in rounds ==> BatchWithin(b, serial, maxParallel) && Elements(b) <= Elements(layer)
    {
      hide Records, Routed, LayerFollows, RanIn, RouterErrors, NotRan, Concat, SplitLayerBatches;
      var tasks := PrepareLayer(rt, nm, layer, st, done);
      LayerSplits(nm, st, done, layer, cancelled);
      NoTasks(nm, st);
      BatchesCover(tasks, serial, maxParallel);
      rounds := [];
      if tasks != [] {
        var batches := SplitLayerBatches(tasks, serial, maxParallel);
        rounds := batches;
        forall b | b in batches ensures Elements(b) <= Elements(layer) { BatchInside(st, layer, batches, b); }
        RunBatches(rt, tasks, batches, st, done + NotRan(st, layer));
        TasksRecorded(st, done + NotRan(st, layer) + Elements(tasks), completed, tasks);
        RouteLayer(nm, tasks, st, done);
        LayerSplits(nm, st, done, layer, cancelled);
      } else {
        assert done + Elements(tasks) == done;
        assert done + NotRan(st, layer) + Elements(tasks) == done + NotRan(st, layer);
      }
      RecordedIsNotCancelled(rt, nm, st, done + Elements(layer), completed, cancelled);
    }
  }

  // ---------------------------------------------------------------- from layers to the run

  lemma {:induction false} StagedIsClosed(nm: NodeMap, layers: seq<seq<string>>, l: nat)
    requires Staged(DependencyGraph(nm), layers) && l <= |layers|
    ensures Closed(nm, Elements(Flatten(layers[..l])))
  {
    if l > 0 {
      StagedIsClosed(nm, layers, l - 1);
      FlattenStep(layers, l - 1);
      var done := Elements(Flatten(layers[..l]));
      forall id, d | id in done && id in nm && d in nm[id].dependsOn && d in nm ensures d in done {
        if id in layers[l-1] { assert Edge(DependencyGraph(nm), id, d); }
      }
    }
  }

  lemma DistinctParts(a: seq<string>, b: seq<string>, all: seq<string>)
    requires Distinct(all) && a + b <= all
    ensures Distinct(b) && forall x :: x in b ==> x !in a && x in all
  {
    assert forall i :: 0 <= i < |a| ==> all[i] == (a + b)[i] == a[i];
    assert forall i :: 0 <= i < |b| ==> all[|a| + i] == (a + b)[|a| + i] == b[i];
  }

  lemma StagedReady(nm: NodeMap, layers: seq<seq<string>>, l: nat, id: string)
    requires Staged(DependencyGraph(nm), layers) && l < |layers| && id in layers[l] && id in nm
    ensures ReadyAfter(nm, Elements(Flatten(layers[..l])), id)
  {
    forall d | d in nm[id].dependsOn && d in nm ensures d in Flatten(layers[..l]) {
      assert Edge(DependencyGraph(nm), id, d);
    }
  }

  lemma LayerFollowsAt(nm: NodeMap, layers: seq<seq<string>>, l: nat)
    requires Staged(DependencyGraph(nm), layers) && Distinct(Flatten(layers)) && l < |layers|
    requires forall id :: id in Flatten(layers) ==> id in nm
    ensures LayerFollows(nm, Elements(Flatten(layers[..l])), layers[l])
  {
    hide Staged, Distinct, Flatten, ReadyAfter, Closed;
    StagedIsClosed(nm, layers, l);
    FlattenStep(layers, l);
    FlattenPrefix(layers, l + 1);
    DistinctParts(Flatten(layers[..l]), layers[l], Flatten(layers));
    forall id | id in layers[l] ensures ReadyAfter(nm, Elements(Flatten(layers[..l])), id) {
      StagedReady(nm, layers, l, id);
    }
  }

  lemma {:induction false} RanInConcat(st: Statuses, a: seq<string>, b: seq<string>)
    ensures RanIn(st, a + b) == RanIn(st, a) + RanIn(st, b)
  {
    if b == [] {
      assert a + b == a;
    } else {
      RanInConcat(st, a, b[..|b|-1]);
      assert (a + b)[..|a + b|-1] == a + b[..|b|-1];
    }
  }

  lemma {:induction false} RouterErrorsConcat(nm: NodeMap, st: Statuses, a: seq<string>, b: seq<string>)
    ensures RouterErrors(nm, st, a + b) == RouterErrors(nm, st, a) + RouterErrors(nm, st, b)
  {
    if b == [] {
      assert a + b == a;
    } else {
      RouterErrorsConcat(nm, st, a, b[..|b|-1]);
      assert (a + b)[..|a + b|-1] == a + b[..|b|-1];
    }
  }

  // ---------------------------------------------------------------- the outcome a graph determines

  /** The ids in the order the run visits them: the FIFO order, stably grouped by depth. */
  ghost predicate IsVisitOrder(nodes: seq<TaskNode>, visit: seq<string>) {
    exists order, depth, n: nat ::
      && IsFifoOrder(DependencyGraph(MapNodes(nodes)), Ids(nodes), order)
      && IsDepth(DependencyGraph(MapNodes(nodes)), depth)
      && (forall id :: id in depth ==> depth[id] < n)
      && visit == Flatten(Buckets(order, depth, n))
  }

  function Outcome(rt: Runtime, nm: NodeMap, st: Statuses, visit: seq<string>): TaskGraphResult {
    var errors := RouterErrors(nm, st, visit);
    TaskGraphResult(CompletedOf(st), RanIn(st, visit), errors, errors == [] && AllRequiredOk(rt, nm, CompletedOf(st)))
  }

  /** `r` is the settlement of the graph, reported along the visit order. */
  ghost predicate IsOutcome(rt: Runtime, nodes: seq<TaskNode>, r: TaskGraphResult) {
    exists st, visit ::
      && IsSettlement(rt, MapNodes(nodes), st)
      && IsVisitOrder(nodes, visit)
      && r == Outcome(rt, MapNodes(nodes), st, visit)
  }

  /** The batch is part of one layer. */
  ghost predicate InsideOneLayer(layers: seq<seq<string>>, b: seq<string>) {
    exists layer :: layer in layers && Elements(b) <= Elements(layer)
  }

  /** No member of the batch depends, directly or through others, on another member. */
  ghost predicate Independent(g: Graph, b: seq<string>) {
    forall p :: Path(g, p) && |p| >= 2 && p[0] in b ==> p[|p|-1] !in b
  }

  lemma LayerIsIndependent(g: Graph, depth: map<string, nat>, order: seq<string>, n: nat, b: seq<string>)
    requires IsDepth(g, depth) && Enumerates(g, order)
    requires InsideOneLayer(NonEmpty(Buckets(order, depth, n)), b)
    ensures Independent(g, b)
  {
    FlattenNonEmpty(Buckets(order, depth, n));
    var layer :| layer in NonEmpty(Buckets(order, depth, n)) && Elements(b) <= Elements(layer);
    var k :| 0 <= k < n && Buckets(order, depth, n)[k] == layer;
    forall p | Path(g, p) && |p| >= 2 && p[0] in b && p[|p|-1] in b ensures false {
      assert p[0] in Elements(b) && p[|p|-1] in Elements(b);
      BucketMembers(order, depth, k, p[0]);
      BucketMembers(order, depth, k, p[|p|-1]);
      NoPathWithinLayer(g, depth, p);
    }
  }

  lemma NothingDone(nm: NodeMap, st: Statuses, layers: seq<seq<string>>)
    ensures Flatten(layers[..0]) == [] && Elements([]) == {}
    ensures Records(st, {}, map[]) && Routed(nm, st, {}, {})
    ensures RanIn(st, []) == [] && RouterErrors(nm, st, []) == [] && Concat<string>([]) == []
  {
  }

  lemma {:induction false} ConcatConcat<T>(a: seq<seq<T>>, b: seq<seq<T>>)
    ensures Concat(a + b) == Concat(a) + Concat(b)
  {
    if a == [] {
      assert a + b == b;
    } else {
      ConcatConcat(a[1..], b);
      assert (a + b)[1..] == a[1..] + b && (a + b)[0] == a[0];
      assert a[0] + (Concat(a[1..]) + Concat(b)) == (a[0] + Concat(a[1..])) + Concat(b);
    }
  }

  /** The layer loop. */
  method RunLayers(rt: Runtime, nm: NodeMap, layers: seq<seq<string>>, serial: bool, maxParallel: Option<int>,
                   ghost st: Statuses) returns (run: RunState, ghost rounds: seq<seq<string>>)
    requires IsSettlement(rt, nm, st) && Staged(DependencyGraph(nm), layers) && Distinct(Flatten(layers))
    requires forall id :: id in Flatten(layers) ==> id in nm
    ensures fresh(run)
    ensures Records(st, Elements(Flatten(layers)), run.completed)
    ensures Routed(nm, st, Elements(Flatten(layers)), run.cancelled)
    ensures run.executionOrder == RanIn(st, Flatten(layers))
    ensures run.errors == RouterErrors(nm, st, Flatten(layers))
    ensures Concat(rounds) == run.executionOrder
    ensures forall b :: b in rounds ==> BatchWithin(b, serial, maxParallel) && InsideOneLayer(layers, b)
  {
    hide Records, Routed, LayerFollows, RanIn, RouterErrors, Concat, IsSettlement, Staged, Distinct, Flatten;
    hide BatchWithin;
    run := new RunState();
    rounds := [];
    NothingDone(nm, st, layers);
    for l := 0 to |layers|
      invariant fresh(run)
      invariant Records(st, Elements(Flatten(layers[..l])), run.completed)
      invariant Routed(nm, st, Elements(Flatten(layers[..l])), run.cancelled)
      invariant run.executionOrder == RanIn(st, Flatten(layers[..l]))
      invariant run.errors == RouterErrors(nm, st, Flatten(layers[..l]))
      invariant Concat(rounds) == run.executionOrder
      invariant forall b :: b in rounds ==> BatchWithin(b, serial, maxParallel) && InsideOneLayer(layers, b)
    {
      ghost var before := Flatten(layers[..l]);
      LayerFollowsAt(nm, layers, l);
      FlattenStep(layers, l);
      RanInConcat(st, before, layers[l]);
      RouterErrorsConcat(nm, st, before, layers[l]);
      ghost var more := run.RunLayer(rt, nm, layers[l], serial, maxParallel, st, Elements(before));
      ConcatConcat(rounds, more);
      forall b | b in more ensures InsideOneLayer(layers, b) { assert layers[l] in layers; }
      assert Elements(before + layers[l]) == Elements(before) + Elements(layers[l]);
      rounds := rounds + more;
    }
    assert layers[..|layers|] == layers;
  }

  // ---------------------------------------------------------------- execute_graph

  lemma {:induction false} NoneMissing(nm: NodeMap, order: seq<string>, completed: map<string, AgentResult>,
                                       cancelled: set<string>)
    requires forall id :: id in order ==> id in nm && (id in completed || id in cancelled)
    ensures NeverRun(nm, order, completed, cancelled) == []
  {
    if order != [] { NoneMissing(nm, order[..|order|-1], completed, cancelled); }
  }

  /** Everything is recorded or cancelled, so finalisation finds nothing to add. */
  lemma NothingLeft(rt: Runtime, nm: NodeMap, st: Statuses, order: seq<string>,
                    completed: map<string, AgentResult>, cancelled: set<string>)
    requires IsSettlement(rt, nm, st) && (forall id :: id in order ==> id in nm)
    requires Records(st, nm.Keys, completed) && Routed(nm, st, nm.Keys, cancelled)
    ensures completed == CompletedOf(st) && cancelled == CancelledOf(st)
    ensures SkippedLate(nm, order, completed, cancelled) == map[]
    ensures NeverRun(nm, order, completed, cancelled) == []
  {
    forall id ensures id in cancelled <==> id in CancelledOf(st) {
      if id in nm {
        assert ReadyAfter(nm, nm.Keys, id);
        RoutedIsCancelled(rt, nm, st, nm.Keys, cancelled, id);
      } else if id in cancelled {
        CancelledIsKnown(nm, st, nm.Keys, cancelled, id);
      }
    }
    NoneMissing(nm, order, completed, cancelled);
  }

  lemma FifoEnumerates(g: Graph, ids: seq<string>, order: seq<string>)
    requires IsFifoOrder(g, ids, order)
    ensures Enumerates(g, order) && Ranked(g, order)
  {
  }

  /** What layering hands to the layer loop. */
  lemma LayersFit(nodes: seq<TaskNode>, order: seq<string>, depth: map<string, nat>, maxDepth: nat,
                  layers: seq<seq<string>>)
    requires IsFifoOrder(DependencyGraph(MapNodes(nodes)), Ids(nodes), order)
    requires IsLayering(DependencyGraph(MapNodes(nodes)), order, depth, maxDepth, layers)
    ensures IsDepth(DependencyGraph(MapNodes(nodes)), depth) && layers == NonEmpty(Buckets(order, depth, maxDepth + 1))
    ensures Staged(DependencyGraph(MapNodes(nodes)), layers) && Distinct(Flatten(layers))
    ensures Elements(Flatten(layers)) == MapNodes(nodes).Keys
    ensures forall id :: id in Flatten(layers) ==> id in MapNodes(nodes)
    ensures IsVisitOrder(nodes, Flatten(layers))
  {
    var g, n := DependencyGraph(MapNodes(nodes)), maxDepth + 1;
    hide IsFifoOrder, NonEmpty, Bucket, Ids;
    assert Enumerates(g, order) by { FifoEnumerates(g, Ids(nodes), order); }
    var buckets := Buckets(order, depth, n);
    BucketsStaged(g, depth, order, n);
    NonEmptyStaged(g, buckets);
    FlattenNonEmpty(buckets);
    BucketsDistinct(order, depth, n);
    hide Staged;
    forall id ensures id in Flatten(layers) <==> id in g {
      FlattenMembers(order, depth, n, id);
    }
    assert forall id :: id in depth ==> depth[id] < n;
  }

  lemma OutcomeIntro(rt: Runtime, nodes: seq<TaskNode>, st: Statuses, visit: seq<string>)
    requires IsSettlement(rt, MapNodes(nodes), st) && IsVisitOrder(nodes, visit)
    ensures IsOutcome(rt, nodes, Outcome(rt, MapNodes(nodes), st, visit))
    ensures CompletedOf(st).Keys + CancelledOf(st) == MapNodes(nodes).Keys
    ensures CompletedOf(st).Keys !! CancelledOf(st)
  {
    SettlementPartitions(rt, MapNodes(nodes), st);
  }

  lemma OrderSettles(rt: Runtime, nodes: seq<TaskNode>, order: seq<string>) returns (st: Statuses)
    requires IsFifoOrder(DependencyGraph(MapNodes(nodes)), Ids(nodes), order)
    ensures IsSettlement(rt, MapNodes(nodes), st) && forall id :: id in order ==> id in MapNodes(nodes)
  {
    SettlementExists(rt, MapNodes(nodes), order);
    st := Settle(rt, MapNodes(nodes), order);
  }

  lemma OutcomeFields(rt: Runtime, nm: NodeMap, st: Statuses, visit: seq<string>)
    ensures var errors := RouterErrors(nm, st, visit);
            Outcome(rt, nm, st, visit)
            == TaskGraphResult(CompletedOf(st), RanIn(st, visit), errors,
                               errors == [] && AllRequiredOk(rt, nm, CompletedOf(st)))
  {
  }

  /** The run proper, once the order is known. */
  method ExecuteOrder(rt: Runtime, nodes: seq<TaskNode>, order: seq<string>, serial: bool, limit: Option<int>)
    returns (result: TaskGraphResult, ghost cancelled: set<string>, ghost rounds: seq<seq<string>>)
    requires IsFifoOrder(DependencyGraph(MapNodes(nodes)), Ids(nodes), order)
    ensures IsOutcome(rt, nodes, result)
    ensures result.nodes.Keys + cancelled == MapNodes(nodes).Keys && result.nodes.Keys !! cancelled
    ensures Concat(rounds) == result.executionOrder
    ensures forall b :: b in rounds ==>
              BatchWithin(b, serial, limit) && Independent(DependencyGraph(MapNodes(nodes)), b)
  {
    hide *;
    var nodeMap := MapNodes(nodes);
    FifoEnumerates(DependencyGraph(nodeMap), Ids(nodes), order);
    ghost var st := OrderSettles(rt, nodes, order);
    var layers := GroupIntoLayers(order, nodeMap);
    ghost var depth: map<string, nat>, maxDepth: nat :|
      IsLayering(DependencyGraph(nodeMap), order, depth, maxDepth, layers);
    LayersFit(nodes, order, depth, maxDepth, layers);
    var run;
    run, rounds := RunLayers(rt, nodeMap, layers, serial, limit, st);
    NothingLeft(rt, nodeMap, st, order, run.completed, run.cancelled);
    run.FinalizeUnexecutedNodes(nodeMap, order);
    assert run.completed == CompletedOf(st) && run.errors == RouterErrors(nodeMap, st, Flatten(layers));
    cancelled := run.cancelled;
    result := TaskGraphResult(run.completed, run.executionOrder, run.errors,
                              run.errors == [] && AllRequiredOk(rt, nodeMap, run.completed));
    forall b | b in rounds ensures Independent(DependencyGraph(nodeMap), b) {
      LayerIsIndependent(DependencyGraph(nodeMap), depth, order, maxDepth + 1, b);
    }
    OutcomeIntro(rt, nodes, st, Flatten(layers));
    OutcomeFields(rt, nodeMap, st, Flatten(layers));
    assert result == Outcome(rt, nodeMap, st, Flatten(layers));
  }

  /** `execute_graph`: it runs exactly the graphs of at most fifty nodes with distinct ids
      and no cycle, and what it reports is the graph's settlement, whatever `serial`,
      `maxParallel` and the configured default are.  `cancelled` and `rounds` expose what the
      result object does not carry: the cancelled ids and the batches that were started. */
  method ExecuteGraph(rt: Runtime, nodes: seq<TaskNode>, serial: bool, maxParallel: Option<int>,
                      defaultParallel: Option<int>)
    returns (r: Result<TaskGraphResult, string>, ghost cancelled: set<string>, ghost rounds: seq<seq<string>>)
    ensures r.Success? <==>
              |nodes| <= 50 && Distinct(Ids(nodes)) && !Cyclic(DependencyGraph(MapNodes(nodes)))
    ensures r.Success? ==> IsOutcome(rt, nodes, r.value)
    ensures r.Success? ==> r.value.nodes.Keys + cancelled == MapNodes(nodes).Keys && r.value.nodes.Keys !! cancelled
    ensures r.Success? ==> Concat(rounds) == r.value.executionOrder
    ensures var limit := if maxParallel.None? then defaultParallel else maxParallel;
            forall b :: b in rounds ==>
                BatchWithin(b, serial, limit) && Independent(DependencyGraph(MapNodes(nodes)), b)
  {
    cancelled, rounds := {}, [];
    if |nodes| > MAX_DAG_NODES {
      r := Failure("DAG exceeds maximum node count");
      return;
    }
    hide *;
    var sorted := TopologicalSort.TopologicalSort(nodes);
    if sorted.Failure? {
      r := Failure(sorted.error);
      return;
    }
    var limit := if maxParallel.None? then defaultParallel else maxParallel;
    var result;
    result, cancelled, rounds := ExecuteOrder(rt, nodes, sorted.value, serial, limit);
    r := Success(result);
  }
}
