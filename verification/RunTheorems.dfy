/** What every run of `execute_graph` guarantees, read off `TaskOrchestrator.IsOutcome` alone. */
module RunTheorems {
  import opened Graphs
  import opened Sequences
  import opened Tasks
  import opened TopologicalSort
  import opened Layering
  import opened NodeGates
  import opened Settlement
  import opened TaskOrchestrator

  // ---------------------------------------------------------------- determinism

  lemma {:induction false} EmptyBucketsBeyond(order: seq<string>, depth: map<string, nat>, n: nat, m: nat)
    requires forall i :: 0 <= i < |order| ==> DepthOf(depth, order[i]) < n
    requires n <= m
    ensures Flatten(Buckets(order, depth, m)) == Flatten(Buckets(order, depth, n))
    decreases m
  {
    if n < m {
      EmptyBucketsBeyond(order, depth, n, m - 1);
      NoneAtDepth(depth, order, m - 1);
      assert Buckets(order, depth, m)[..m-1] == Buckets(order, depth, m - 1);
    }
  }

  lemma BucketsAgree(g: Graph, order: seq<string>, depth: map<string, nat>, n: nat, m: nat)
    requires IsDepth(g, depth) && Enumerates(g, order)
    requires forall id :: id in depth ==> depth[id] < n && depth[id] < m
    ensures Flatten(Buckets(order, depth, m)) == Flatten(Buckets(order, depth, n))
  {
    forall i | 0 <= i < |order| ensures DepthOf(depth, order[i]) < n && DepthOf(depth, order[i]) < m {
      assert order[i] in g;
    }
    if n <= m { EmptyBucketsBeyond(order, depth, n, m); } else { EmptyBucketsBeyond(order, depth, m, n); }
  }

  lemma VisitOrderIsUnique(nodes: seq<TaskNode>, a: seq<string>, b: seq<string>)
    requires IsVisitOrder(nodes, a) && IsVisitOrder(nodes, b)
    ensures a == b
  {
    var g, ids := DependencyGraph(MapNodes(nodes)), Ids(nodes);
    hide IsFifoOrder, IsDepth, Buckets;
    var order, depth, n: nat :| IsFifoOrder(g, ids, order) && IsDepth(g, depth)
      && (forall id :: id in depth ==> depth[id] < n) && a == Flatten(Buckets(order, depth, n));
    var order', depth', m: nat :| IsFifoOrder(g, ids, order') && IsDepth(g, depth')
      && (forall id :: id in depth' ==> depth'[id] < m) && b == Flatten(Buckets(order', depth', m));
    FifoOrderIsUnique(g, ids, order, order');
    DepthIsUnique(g, depth, depth');
    FifoEnumerates(g, ids, order);
    BucketsAgree(g, order, depth, n, m);
  }

  lemma VisitOrderGives(nodes: seq<TaskNode>, visit: seq<string>) returns (order: seq<string>)
    requires IsVisitOrder(nodes, visit)
    ensures Enumerates(DependencyGraph(MapNodes(nodes)), order) && Ranked(DependencyGraph(MapNodes(nodes)), order)
  {
    var g, ids := DependencyGraph(MapNodes(nodes)), Ids(nodes);
    hide IsFifoOrder, IsDepth, Buckets;
    var depth, n: nat;
    order, depth, n :| IsFifoOrder(g, ids, order) && IsDepth(g, depth)
      && (forall id :: id in depth ==> depth[id] < n) && visit == Flatten(Buckets(order, depth, n));
    FifoEnumerates(g, ids, order);
  }

  /** Layering and batching never change the outcome: two runs of one graph, under any `serial` and
      `max_parallel`, report the same results, the same order and the same errors. */
  lemma BatchingNeverMatters(rt: Runtime, nodes: seq<TaskNode>, a: TaskGraphResult, b: TaskGraphResult)
    requires IsOutcome(rt, nodes, a) && IsOutcome(rt, nodes, b)
    ensures a == b
  {
    hide IsSettlement, IsVisitOrder, Outcome, Ranked;
    var nm := MapNodes(nodes);
    var st, visit :| IsSettlement(rt, nm, st) && IsVisitOrder(nodes, visit) && a == Outcome(rt, nm, st, visit);
    var st', visit' :| IsSettlement(rt, nm, st') && IsVisitOrder(nodes, visit') && b == Outcome(rt, nm, st', visit');
    VisitOrderIsUnique(nodes, visit, visit');
    var order := VisitOrderGives(nodes, visit);
    SettlementIsUnique(rt, nm, order, st, st');
  }

  // ---------------------------------------------------------------- the parts of a report

  /** The executed ids are the ids that ran, and their records are what they returned. */
  ghost predicate Reports(nm: NodeMap, st: Statuses, r: TaskGraphResult) {
    && (forall id :: id in r.executionOrder <==> id in nm && id in st && st[id].Ran?)
    && (forall id :: id in r.executionOrder ==>
        id in r.nodes && id in st && st[id].Ran? && r.nodes[id] == st[id].result)
  }

  lemma OutcomeReports(rt: Runtime, nm: NodeMap, st: Statuses, visit: seq<string>)
    requires st.Keys == nm.Keys && forall id :: id in visit <==> id in nm
    ensures Reports(nm, st, Outcome(rt, nm, st, visit))
  {
    forall id ensures id in RanIn(st, visit) <==> id in visit && id in st && st[id].Ran? {
      RanInMembers(st, visit, id);
    }
    hide RanIn, RouterErrors;
  }

  lemma DepthBelow(g: Graph, depth: map<string, nat>, n: nat, id: string)
    requires IsDepth(g, depth) && (forall x :: x in depth ==> depth[x] < n) && id in g
    ensures DepthOf(depth, id) < n
  {
  }

  lemma {:induction false} StagedIsRanked(g: Graph, layers: seq<seq<string>>)
    requires Staged(g, layers)
    ensures Ranked(g, Flatten(layers))
  {
    if layers != [] {
      var front, last := layers[..|layers|-1], layers[|layers|-1];
      assert Staged(g, front) by {
        forall l, id, d | 0 <= l < |front| && id in front[l] && Edge(g, id, d) && d in g
          ensures d in Flatten(front[..l])
        {
          assert layers[l] == front[l] && layers[..l] == front[..l];
        }
      }
      StagedIsRanked(g, front);
      var all, before := Flatten(layers), Flatten(front);
      forall i, w | 0 <= i < |all| && Edge(g, all[i], w) ensures w in all[..i] || w !in g {
        if i < |before| {
          assert all[i] == before[i] && all[..i] == before[..i];
        } else if w in g {
          assert all[i] in layers[|front|] && layers[..|front|] == front;
          assert before == all[..|before|];
        }
      }
    }
  }

  /** The visit order lists every node once, known dependencies first. */
  lemma VisitsAll(nodes: seq<TaskNode>, visit: seq<string>)
    requires IsVisitOrder(nodes, visit)
    ensures Enumerates(DependencyGraph(MapNodes(nodes)), visit) && Ranked(DependencyGraph(MapNodes(nodes)), visit)
  {
    var g, ids := DependencyGraph(MapNodes(nodes)), Ids(nodes);
    hide IsFifoOrder, IsDepth, Buckets;
    var order, depth, n: nat :| IsFifoOrder(g, ids, order) && IsDepth(g, depth)
      && (forall id :: id in depth ==> depth[id] < n) && visit == Flatten(Buckets(order, depth, n));
    FifoEnumerates(g, ids, order);
    BucketsDistinct(order, depth, n);
    forall id ensures id in visit <==> id in g {
      FlattenMembers(order, depth, n, id);
      if id in g { DepthBelow(g, depth, n, id); }
    }
    BucketsStaged(g, depth, order, n);
    StagedIsRanked(g, Buckets(order, depth, n));
  }

  lemma SettledKeys(rt: Runtime, nm: NodeMap, st: Statuses)
    requires IsSettlement(rt, nm, st)
    ensures st.Keys == nm.Keys
  {
  }

  /** The settlement behind a report. */
  lemma Behind(rt: Runtime, nodes: seq<TaskNode>, r: TaskGraphResult) returns (st: Statuses, visit: seq<string>)
    requires IsOutcome(rt, nodes, r)
    ensures IsSettlement(rt, MapNodes(nodes), st) && IsVisitOrder(nodes, visit)
    ensures r == Outcome(rt, MapNodes(nodes), st, visit)
    ensures st.Keys == MapNodes(nodes).Keys && Reports(MapNodes(nodes), st, r)
  {
    hide IsVisitOrder, IsSettlement, Outcome, Reports, Ranked, Distinct;
    st, visit :| IsSettlement(rt, MapNodes(nodes), st) && IsVisitOrder(nodes, visit)
                 && r == Outcome(rt, MapNodes(nodes), st, visit);
    VisitsAll(nodes, visit);
    SettledKeys(rt, MapNodes(nodes), st);
    OutcomeReports(rt, MapNodes(nodes), st, visit);
  }

  // ---------------------------------------------------------------- execution safety

  lemma {:induction false} RanInDistinct(st: Statuses, s: seq<string>)
    requires Distinct(s)
    ensures Distinct(RanIn(st, s))
  {
    if s != [] {
      var front, id := s[..|s|-1], s[|s|-1];
      RanInDistinct(st, front);
      RanInMembers(st, front, id);
    }
  }

  /** What ran before the `i`-th executed node is what ran among the nodes visited before it. */
  lemma {:induction false} RanBefore(st: Statuses, s: seq<string>, i: nat) returns (k: nat)
    requires i < |RanIn(st, s)|
    ensures k < |s| && s[k] == RanIn(st, s)[i] && RanIn(st, s)[..i] == RanIn(st, s[..k])
  {
    var front := s[..|s|-1];
    if i < |RanIn(st, front)| {
      k := RanBefore(st, front, i);
      assert front[..k] == s[..k] && RanIn(st, s)[..i] == RanIn(st, front)[..i];
    } else {
      k := |s| - 1;
      assert RanIn(st, s)[..i] == RanIn(st, front);
    }
  }

  /** The nodes that left no record. */
  ghost function Unrecorded(nm: NodeMap, r: TaskGraphResult): set<string> {
    nm.Keys - r.nodes.Keys
  }

  lemma CancelledAreUnrecorded(rt: Runtime, nm: NodeMap, st: Statuses, r: TaskGraphResult)
    requires IsSettlement(rt, nm, st) && r.nodes == CompletedOf(st)
    ensures CancelledOf(st) == Unrecorded(nm, r)
  {
    SettlementPartitions(rt, nm, st);
    forall d | d in nm ensures d in CancelledOf(st) <==> d !in CompletedOf(st) {
      assert d in CompletedOf(st).Keys + CancelledOf(st);
    }
    assert forall d :: d in CancelledOf(st) ==> d in CompletedOf(st).Keys + CancelledOf(st);
  }

  ghost predicate SafeStep(rt: Runtime, nm: NodeMap, r: TaskGraphResult, i: nat)
    requires i < |r.executionOrder|
  {
    var id := r.executionOrder[i];
    && id in nm && id in r.nodes
    && Passes(nm[id].dependsOn, Unrecorded(nm, r)) && Passes(nm[id].dependsOn, Failing(rt, nm, r.nodes))
    && (NoEmptyDependency(nm, id) ==> DependenciesFine(rt, nm, id, r.nodes))
    && (forall d :: d in nm[id].dependsOn && d in r.executionOrder ==> d in r.executionOrder[..i])
    && (exists c :: IsContext(nm[id].dependsOn, r.nodes, c) && MayRun(rt, nm, id, c) && r.nodes[id] == rt.spawn(id, c))
  }

  lemma DependenciesRanBefore(nodes: seq<TaskNode>, st: Statuses, visit: seq<string>, i: nat, d: string)
    requires Ranked(DependencyGraph(MapNodes(nodes)), visit)
    requires i < |RanIn(st, visit)| && RanIn(st, visit)[i] in MapNodes(nodes)
    requires d in MapNodes(nodes) && d in MapNodes(nodes)[RanIn(st, visit)[i]].dependsOn && d in RanIn(st, visit)
    ensures d in RanIn(st, visit)[..i]
  {
    var k := RanBefore(st, visit, i);
    assert Edge(DependencyGraph(MapNodes(nodes)), visit[k], d);
    hide Ranked;
    RanInMembers(st, visit[..k], d);
    RanInMembers(st, visit, d);
  }

  lemma SafeStepHolds(rt: Runtime, nodes: seq<TaskNode>, r: TaskGraphResult, st: Statuses, visit: seq<string>, i: nat)
    requires IsSettlement(rt, MapNodes(nodes), st)
    requires Ranked(DependencyGraph(MapNodes(nodes)), visit)
    requires r.nodes == CompletedOf(st) && r.executionOrder == RanIn(st, visit) && Reports(MapNodes(nodes), st, r)
    requires i < |r.executionOrder|
    ensures SafeStep(rt, MapNodes(nodes), r, i)
  {
    var nm := MapNodes(nodes);
    CancelledAreUnrecorded(rt, nm, st, r);
    hide IsSettlement, Ranked, CompletedOf, CancelledOf, RanIn, Passes, Failing, DependenciesFine, NoEmptyDependency;
    hide IsContext, MayRun, RoutedOff;
    var id := r.executionOrder[i];
    assert id in r.executionOrder;
    RunsExactlyWhenReady(rt, nm, st, id);
    forall d | d in nm[id].dependsOn && d in r.executionOrder ensures d in r.executionOrder[..i] {
      DependenciesRanBefore(nodes, st, visit, i, d);
    }
  }

  /** No node runs twice; a node that runs had every known dependency recorded, successful or
      excused, unless the empty id hid one, and those that ran did so before it; and what it returned
      is the agent's answer to its recorded dependencies' results, which the approver, if one is
      needed, was shown too and agreed to. */
  lemma ExecutionIsSafe(rt: Runtime, nodes: seq<TaskNode>, r: TaskGraphResult)
    requires IsOutcome(rt, nodes, r)
    ensures Distinct(r.executionOrder)
    ensures forall i :: 0 <= i < |r.executionOrder| ==> SafeStep(rt, MapNodes(nodes), r, i)
  {
    var nm := MapNodes(nodes);
    hide IsSettlement, IsVisitOrder, Distinct;
    var st, visit := Behind(rt, nodes, r);
    VisitsAll(nodes, visit);
    RanInDistinct(st, visit);
    forall i | 0 <= i < |r.executionOrder| ensures SafeStep(rt, nm, r, i) {
      SafeStepHolds(rt, nodes, r, st, visit, i);
    }
  }

  // ---------------------------------------------------------------- the whole report

  /** The router of the executed node `p`, which succeeded, rules its dependent `id` out. */
  ghost predicate RuledOutBy(nm: NodeMap, r: TaskGraphResult, p: string, id: string) {
    && p in r.executionOrder && p in r.nodes && r.nodes[p].success && p in nm && nm[p].router.Some?
    && id in nm && p in nm[id].dependsOn && RulesOut(nm[p].router.value(r.nodes[p]), id)
  }

  lemma RuledOutIsRoutedOff(nm: NodeMap, st: Statuses, r: TaskGraphResult, p: string, id: string)
    requires Reports(nm, st, r)
    ensures RuledOutBy(nm, r, p, id) <==> RoutedOff(nm, st, p, id)
  {
    hide RulesOut;
  }

  /** A node leaves no record exactly when the router of a dependency rules it out. */
  lemma UnrecordedIff(rt: Runtime, nodes: seq<TaskNode>, r: TaskGraphResult, id: string)
    requires IsOutcome(rt, nodes, r) && id in MapNodes(nodes)
    ensures id !in r.nodes <==> exists p :: RuledOutBy(MapNodes(nodes), r, p, id)
  {
    hide IsSettlement, IsVisitOrder, RuledOutBy, RoutedOff;
    var nm := MapNodes(nodes);
    var st, visit := Behind(rt, nodes, r);
    forall p { RuledOutIsRoutedOff(nm, st, r, p, id); }
    CancelledIff(rt, nm, st, id);
  }

  /** A node is executed exactly when no router rules it out, it passes the cancellation and the
      failure gate, and approval is not required or given on its recorded dependencies' results.
      Unless it declares the empty id, passing means that every dependency succeeded or is excused. */
  lemma ExecutedIff(rt: Runtime, nodes: seq<TaskNode>, r: TaskGraphResult, id: string)
    requires IsOutcome(rt, nodes, r) && id in MapNodes(nodes)
    ensures var nm := MapNodes(nodes);
            var deps := nm[id].dependsOn;
            && (exists c :: IsContext(deps, r.nodes, c)
                  && (id in r.executionOrder <==>
                        && (forall p :: !RuledOutBy(nm, r, p, id))
                        && Passes(deps, Unrecorded(nm, r)) && Passes(deps, Failing(rt, nm, r.nodes))
                        && MayRun(rt, nm, id, c))
                  && (id in r.executionOrder ==> id in r.nodes && r.nodes[id] == rt.spawn(id, c)))
            && (NoEmptyDependency(nm, id) ==>
                  (Passes(deps, Unrecorded(nm, r)) && Passes(deps, Failing(rt, nm, r.nodes))
                   <==> DependenciesFine(rt, nm, id, r.nodes)))
  {
    hide IsSettlement, IsVisitOrder, RuledOutBy, RoutedOff, IsContext, MayRun, Passes, Failing, DependenciesFine;
    hide Unrecorded, CancelledOf, CompletedOf, RanIn, RouterErrors, NoEmptyDependency;
    var nm := MapNodes(nodes);
    var st, visit := Behind(rt, nodes, r);
    forall p { RuledOutIsRoutedOff(nm, st, r, p, id); }
    CancelledAreUnrecorded(rt, nm, st, r);
    RunsExactlyWhenReady(rt, nm, st, id);
  }

  /** A node with a record that was not executed is recorded as failed, for the first cancelled
      dependency, else for the first failure that stands, else for want of approval. */
  lemma SkippedMeans(rt: Runtime, nodes: seq<TaskNode>, r: TaskGraphResult, id: string)
    requires IsOutcome(rt, nodes, r) && id in MapNodes(nodes) && id in r.nodes && id !in r.executionOrder
    ensures var nm := MapNodes(nodes);
            var deps, record := nm[id].dependsOn, r.nodes[id];
            var gone, failing := Unrecorded(nm, r), Failing(rt, nm, r.nodes);
            && !record.success
            && (forall i: nat :: FirstBad(deps, gone, i) && deps[i] != NONE ==>
                  record == AgentResult(false, "", "Skipped due to cancelled dependency: " + deps[i]))
            && (forall i: nat :: Passes(deps, gone) && FirstBad(deps, failing, i) && deps[i] != NONE ==>
                  record == AgentResult(false, "", "Skipped due to failed dependency: " + deps[i]))
            && (Passes(deps, gone) && Passes(deps, failing) ==>
                  nm[id].requiresApproval && record == AgentResult(false, "", "workflow_step_approval_pending"))
  {
    var nm := MapNodes(nodes);
    hide IsSettlement, IsVisitOrder, Passes, Failing, FirstBad, Unrecorded, CancelledOf, RanIn, RouterErrors;
    var st, visit := Behind(rt, nodes, r);
    CancelledAreUnrecorded(rt, nm, st, r);
    SkipsForTheFirstReason(rt, nm, st, id);
  }

  // ---------------------------------------------------------------- success

  /** What the routers of the executed nodes add to the errors, in execution order. */
  ghost function AllFaults(nm: NodeMap, r: TaskGraphResult, s: seq<string>): seq<RunError> {
    if s == [] then []
    else
      var front, p := AllFaults(nm, r, s[..|s|-1]), s[|s|-1];
      if p in nm && p in r.nodes && r.nodes[p].success && nm[p].router.Some?
      then front + Faults(nm, p, nm[p].router.value(r.nodes[p]))
      else front
  }

  lemma {:induction false} ErrorsAreFaults(nm: NodeMap, st: Statuses, r: TaskGraphResult, s: seq<string>)
    requires forall id :: id in s ==>
               id in nm && id in st && st[id].Ran? && id in r.nodes && r.nodes[id] == st[id].result
    ensures RouterErrors(nm, st, s) == AllFaults(nm, r, s)
  {
    if s != [] {
      var p := s[|s|-1];
      ErrorsAreFaults(nm, st, r, s[..|s|-1]);
      VerdictMeans(nm, p, nm[p], st[p].result);
      hide RouterVerdict, VerdictErrors, Faults;
      assert AllFaults(nm, r, s[..|s|-1]) + [] == AllFaults(nm, r, s[..|s|-1]);
    }
  }

  /** The errors of a run are the faults of its routers, node by node in execution order; and it
      succeeds exactly when there is none and every recorded failure is of an optional node, optional
      steps being enabled. */
  lemma SuccessIff(rt: Runtime, nodes: seq<TaskNode>, r: TaskGraphResult)
    requires IsOutcome(rt, nodes, r)
    ensures r.errors == AllFaults(MapNodes(nodes), r, r.executionOrder)
    ensures r.success <==>
            && r.errors == []
            && forall id :: id in r.nodes ==>
                 r.nodes[id].success || (rt.optionalEnabled && id in MapNodes(nodes) && MapNodes(nodes)[id].optional)
  {
    var nm := MapNodes(nodes);
    hide IsSettlement, IsVisitOrder, RouterVerdict, RanIn, RouterErrors, AllFaults, CompletedOf;
    var st, visit := Behind(rt, nodes, r);
    RouterErrorsOfRan(nm, st, visit);
    ErrorsAreFaults(nm, st, r, r.executionOrder);
  }

  // ---------------------------------------------------------------- finality

  /** Nothing downstream of a failure that stands runs, as far as nodes that are not excused carry it
      and no node on the way declares the empty id. */
  lemma NothingRunsDownstream(rt: Runtime, nodes: seq<TaskNode>, r: TaskGraphResult, p: seq<string>)
    requires IsOutcome(rt, nodes, r)
    requires Path(DependencyGraph(MapNodes(nodes)), p) && |p| >= 2
    requires var last := p[|p|-1];
             && last in MapNodes(nodes) && last in r.nodes && !r.nodes[last].success
             && !(rt.optionalEnabled && MapNodes(nodes)[last].optional)
    requires forall i :: 0 <= i < |p| - 1 && p[i] in MapNodes(nodes) ==> NoEmptyDependency(MapNodes(nodes), p[i])
    requires forall i :: 0 < i < |p| - 1 && p[i] in MapNodes(nodes) ==>
              !(rt.optionalEnabled && MapNodes(nodes)[p[i]].optional)
    ensures p[0] !in r.executionOrder
  {
    hide IsSettlement, IsVisitOrder, RouterVerdict;
    var st, visit := Behind(rt, nodes, r);
    FailureIsFinal(rt, MapNodes(nodes), st, p);
  }

  /** Of a node that succeeded and whose router raised with a message, or returned an id, no direct
      dependent but the one named runs, or leaves a record at all. */
  lemma UnchosenNeverRuns(rt: Runtime, nodes: seq<TaskNode>, r: TaskGraphResult, p: string, id: string)
    requires IsOutcome(rt, nodes, r)
    requires p in r.executionOrder && p in r.nodes && p in MapNodes(nodes) && r.nodes[p].success
    requires id in MapNodes(nodes) && p in MapNodes(nodes)[id].dependsOn
    requires MapNodes(nodes)[p].router.Some?
    requires match MapNodes(nodes)[p].router.value(r.nodes[p])
             case Raised(message) => message != ""
             case Returned(next) => next != "" && next != id
    ensures id !in r.executionOrder && id !in r.nodes
  {
    assert RuledOutBy(MapNodes(nodes), r, p, id);
    UnrecordedIff(rt, nodes, r, id);
    ExecutedIff(rt, nodes, r, id);
  }

  /** The branch a router names is not ruled out by it: if no other router rules it out either, it
      leaves a record. */
  lemma ChosenIsNotCancelled(rt: Runtime, nodes: seq<TaskNode>, r: TaskGraphResult, p: string, next: string)
    requires IsOutcome(rt, nodes, r) && next in MapNodes(nodes)
    requires p in r.nodes && p in MapNodes(nodes) && MapNodes(nodes)[p].router.Some?
    requires MapNodes(nodes)[p].router.value(r.nodes[p]) == Returned(next)
    requires forall q :: q != p ==> !RuledOutBy(MapNodes(nodes), r, q, next)
    ensures next in r.nodes
  {
    UnrecordedIff(rt, nodes, r, next);
  }

  predicate DependsPlainly(nm: NodeMap, b: string, id: string) {
    b in nm && id in nm[b].dependsOn && NoEmptyDependency(nm, b)
  }

  /** Without an approver a node that needs approval is not executed, and unless its failure is excused
      no direct dependent is either. */
  lemma NoApproverNoRun(rt: Runtime, nodes: seq<TaskNode>, r: TaskGraphResult, id: string)
    requires IsOutcome(rt, nodes, r) && id in MapNodes(nodes)
    requires MapNodes(nodes)[id].requiresApproval && rt.onApproval.None?
    ensures id !in r.executionOrder && (id in r.nodes ==> !r.nodes[id].success)
    ensures !(rt.optionalEnabled && MapNodes(nodes)[id].optional) ==>
              forall b :: DependsPlainly(MapNodes(nodes), b, id) ==> b !in r.executionOrder
  {
    var nm := MapNodes(nodes);
    hide IsOutcome, IsContext, Passes, Failing, RuledOutBy, Unrecorded;
    ExecutedIff(rt, nodes, r, id);
    if id in r.nodes { SkippedMeans(rt, nodes, r, id); }
    if !(rt.optionalEnabled && nm[id].optional) {
      forall b | DependsPlainly(nm, b, id) ensures b !in r.executionOrder {
        ExecutedIff(rt, nodes, r, b);
      }
    }
  }
}
