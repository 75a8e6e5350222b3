/** The scheduler's specification: what becomes of each node, told from what became of its
    dependencies alone.  No layers, no batches, no order. */
module Settlement {
  import opened Graphs
  import opened Sequences
  import opened Tasks
  import opened NodeGates

  datatype Status =
    | Cancelled
    | SkippedCancelled(dep: string)
    | SkippedFailed(dep: string)
    | ApprovalPending
    | Ran(result: AgentResult)

  type Statuses = map<string, Status>

  function Recorded(s: Status): AgentResult
    requires !s.Cancelled?
  {
    match s
    case SkippedCancelled(dep) => AgentResult(false, "", "Skipped due to cancelled dependency: " + dep)
    case SkippedFailed(dep) => AgentResult(false, "", "Skipped due to failed dependency: " + dep)
    case ApprovalPending => AgentResult(false, "", "workflow_step_approval_pending")
    case Ran(result) => result
  }

  function CompletedOf(st: Statuses): map<string, AgentResult> {
    map id | id in st && !st[id].Cancelled? :: Recorded(st[id])
  }

  function CancelledOf(st: Statuses): set<string> {
    set id | id in st && st[id].Cancelled?
  }

  /** The router of `p`, run on a successful result, rules `id` out. */
  predicate Cancels(nm: NodeMap, st: Statuses, p: string, id: string) {
    p in st && p in nm && st[p].Ran? && id in VerdictCancels(nm, p, RouterVerdict(nm, p, nm[p], st[p].result))
  }

  /** The gates a node passes through in turn once no router has cancelled it. */
  function Gate(rt: Runtime, nm: NodeMap, id: string, completed: map<string, AgentResult>,
                cancelled: set<string>): Status
    requires id in nm
  {
    var deps := nm[id].dependsOn;
    if FirstCancelledDependency(deps, cancelled) != NONE then
      SkippedCancelled(FirstCancelledDependency(deps, cancelled))
    else if FirstFailedDependency(rt, nm, deps, completed) != NONE then
      SkippedFailed(FirstFailedDependency(rt, nm, deps, completed))
    else if nm[id].requiresApproval && !Approved(rt, id, DependencyContext(deps, completed)) then
      ApprovalPending
    else
      Ran(rt.spawn(id, DependencyContext(deps, completed)))
  }

  predicate RoutedAway(nm: NodeMap, id: string, st: Statuses)
    requires id in nm
  {
    exists p :: p in nm[id].dependsOn && Cancels(nm, st, p, id)
  }

  function StatusFrom(rt: Runtime, nm: NodeMap, id: string, st: Statuses): Status
    requires id in nm
  {
    if RoutedAway(nm, id, st) then Cancelled
    else Gate(rt, nm, id, CompletedOf(st), CancelledOf(st))
  }

  /** Every node has the status its dependencies give it. */
  ghost predicate IsSettlement(rt: Runtime, nm: NodeMap, st: Statuses) {
    st.Keys == nm.Keys && forall id :: id in nm ==> st[id] == StatusFrom(rt, nm, id, st)
  }

  // ---------------------------------------------------------------- locality

  /** Two views of the run that say the same about the given dependencies. */
  ghost predicate SameView(deps: seq<string>, completed: map<string, AgentResult>, cancelled: set<string>,
                           completed': map<string, AgentResult>, cancelled': set<string>)
  {
    forall d :: d in deps ==>
      && (d in cancelled <==> d in cancelled')
      && (d in completed <==> d in completed')
      && (d in completed ==> completed[d] == completed'[d])
  }

  lemma {:induction false} GatesSeeOnlyDependencies(rt: Runtime, nm: NodeMap, deps: seq<string>,
      completed: map<string, AgentResult>, cancelled: set<string>,
      completed': map<string, AgentResult>, cancelled': set<string>)
    requires SameView(deps, completed, cancelled, completed', cancelled')
    ensures FirstCancelledDependency(deps, cancelled) == FirstCancelledDependency(deps, cancelled')
    ensures FirstFailedDependency(rt, nm, deps, completed) == FirstFailedDependency(rt, nm, deps, completed')
    ensures DependencyContext(deps, completed) == DependencyContext(deps, completed')
  {
    if deps != [] {
      assert deps[0] in deps;
      GatesSeeOnlyDependencies(rt, nm, deps[1..], completed, cancelled, completed', cancelled');
    }
  }

  lemma StatusIsLocal(rt: Runtime, nm: NodeMap, id: string, a: Statuses, b: Statuses)
    requires id in nm
    requires forall d :: d in nm[id].dependsOn ==> (d in a <==> d in b) && (d in a ==> a[d] == b[d])
    ensures StatusFrom(rt, nm, id, a) == StatusFrom(rt, nm, id, b)
  {
    GatesSeeOnlyDependencies(rt, nm, nm[id].dependsOn, CompletedOf(a), CancelledOf(a), CompletedOf(b), CancelledOf(b));
    forall p | p in nm[id].dependsOn ensures Cancels(nm, a, p, id) <==> Cancels(nm, b, p, id) {}
  }

  // ---------------------------------------------------------------- existence and uniqueness

  /** Statuses computed along a topological order, each from the part already computed. */
  function Settle(rt: Runtime, nm: NodeMap, order: seq<string>): (st: Statuses)
    requires forall id :: id in order ==> id in nm
    ensures forall id :: id in st <==> id in order
  {
    if order == [] then map[]
    else
      var front, id := order[..|order|-1], order[|order|-1];
      assert order == front + [id];
      var st := Settle(rt, nm, front);
      st[id := StatusFrom(rt, nm, id, st)]
  }

  lemma IndexIn(order: seq<string>, n: nat, id: string) returns (i: nat)
    requires n <= |order| && id in order[..n]
    ensures i < n && order[i] == id
  {
    i :| 0 <= i < n && order[..n][i] == id;
  }

  lemma DependencyIsEarlier(nm: NodeMap, order: seq<string>, i: nat, d: string)
    requires Ranked(DependencyGraph(nm), order) && i < |order|
    requires order[i] in nm && d in nm[order[i]].dependsOn
    ensures d in order[..i] || d !in nm
  {
    assert Edge(DependencyGraph(nm), order[i], d);
  }

  lemma {:induction false} SettleUpTo(rt: Runtime, nm: NodeMap, order: seq<string>, n: nat, id: string)
    requires Distinct(order) && Ranked(DependencyGraph(nm), order) && n <= |order|
    requires forall x :: x in order <==> x in nm
    requires id in order[..n]
    ensures var st := Settle(rt, nm, order[..n]); st[id] == StatusFrom(rt, nm, id, st)
  {
    var front, last := order[..n-1], order[n-1];
    assert order[..n][..n-1] == front && order[..n] == front + [last];
    var st, st' := Settle(rt, nm, front), Settle(rt, nm, order[..n]);
    assert last !in front;
    var i := IndexIn(order, n, id);
    forall d | d in nm[id].dependsOn ensures (d in st <==> d in st') && (d in st ==> st[d] == st'[d]) {
      DependencyIsEarlier(nm, order, i, d);
      assert d in order[..i] ==> d in front;
    }
    StatusIsLocal(rt, nm, id, st, st');
    if i < n - 1 {
      assert order[..n-1][i] == id;
      SettleUpTo(rt, nm, order, n - 1, id);
    }
  }

  /** Every topologically ordered graph has a settlement. */
  lemma SettlementExists(rt: Runtime, nm: NodeMap, order: seq<string>)
    requires Distinct(order) && Ranked(DependencyGraph(nm), order)
    requires forall x :: x in order <==> x in nm
    ensures IsSettlement(rt, nm, Settle(rt, nm, order))
  {
    var st := Settle(rt, nm, order);
    assert order[..|order|] == order;
    forall id | id in nm ensures st[id] == StatusFrom(rt, nm, id, st) {
      SettleUpTo(rt, nm, order, |order|, id);
    }
    assert st.Keys == nm.Keys;
  }

  lemma {:induction false} SettlementsAgree(rt: Runtime, nm: NodeMap, order: seq<string>, a: Statuses, b: Statuses,
                                            i: nat)
    requires Distinct(order) && Ranked(DependencyGraph(nm), order) && i < |order|
    requires forall x :: x in order <==> x in nm
    requires IsSettlement(rt, nm, a) && IsSettlement(rt, nm, b)
    ensures order[i] in nm && a[order[i]] == b[order[i]]
    decreases i
  {
    var id := order[i];
    assert id in order;
    forall d | d in nm[id].dependsOn ensures (d in a <==> d in b) && (d in a ==> a[d] == b[d]) {
      DependencyIsEarlier(nm, order, i, d);
      if d in order[..i] {
        var k := IndexIn(order, i, d);
        SettlementsAgree(rt, nm, order, a, b, k);
      }
    }
    StatusIsLocal(rt, nm, id, a, b);
  }

  /** And only one: an acyclic graph settles in exactly one way, whatever the order of execution. */
  lemma SettlementIsUnique(rt: Runtime, nm: NodeMap, order: seq<string>, a: Statuses, b: Statuses)
    requires Distinct(order) && Ranked(DependencyGraph(nm), order)
    requires forall x :: x in order <==> x in nm
    requires IsSettlement(rt, nm, a) && IsSettlement(rt, nm, b)
    ensures a == b
  {
    hide StatusFrom, Ranked, Distinct;
    forall id | id in nm ensures a[id] == b[id] {
      assert id in order;
      var i :| 0 <= i < |order| && order[i] == id;
      SettlementsAgree(rt, nm, order, a, b, i);
    }
  }

  // ---------------------------------------------------------------- conservation

  /** Completed and cancelled ids partition the graph. */
  lemma SettlementPartitions(rt: Runtime, nm: NodeMap, st: Statuses)
    requires IsSettlement(rt, nm, st)
    ensures CompletedOf(st).Keys + CancelledOf(st) == nm.Keys
    ensures CompletedOf(st).Keys !! CancelledOf(st)
  {
  }

  // ---------------------------------------------------------------- execution safety

  /** No dependency is bad, or the search for one stumbles over the empty id first. */
  ghost predicate Passes(deps: seq<string>, bad: set<string>) {
    (forall d :: d in deps ==> d !in bad) || EmptyIdFirst(deps, bad)
  }

  /** The empty id cannot hide anything from this node. */
  predicate NoEmptyDependency(nm: NodeMap, id: string)
    requires id in nm
  {
    NONE !in nm || NONE !in nm[id].dependsOn
  }

  /** Every known dependency was recorded, and succeeded or is excused. */
  predicate DependenciesFine(rt: Runtime, nm: NodeMap, id: string, completed: map<string, AgentResult>)
    requires id in nm
  {
    forall d :: d in nm[id].dependsOn && d in nm ==>
      d in completed && (completed[d].success || (rt.optionalEnabled && nm[d].optional))
  }

  lemma PassesMeansFine(rt: Runtime, nm: NodeMap, id: string, completed: map<string, AgentResult>,
                        cancelled: set<string>)
    requires id in nm && NoEmptyDependency(nm, id)
    requires completed.Keys + cancelled == nm.Keys && completed.Keys !! cancelled
    ensures Passes(nm[id].dependsOn, cancelled) && Passes(nm[id].dependsOn, Failing(rt, nm, completed))
            <==> DependenciesFine(rt, nm, id, completed)
  {
    forall d | d in nm ensures d in completed <==> d !in cancelled {
      assert d in completed.Keys + cancelled;
    }
    assert forall d :: d in cancelled ==> d in completed.Keys + cancelled;
    assert forall d :: d in completed ==> d in completed.Keys + cancelled;
  }

  /** The router of `p`, which ran and succeeded, rules its dependent `id` out. */
  ghost predicate RoutedOff(nm: NodeMap, st: Statuses, p: string, id: string) {
    && p in nm && p in st && st[p].Ran? && st[p].result.success && nm[p].router.Some?
    && id in nm && p in nm[id].dependsOn && RulesOut(nm[p].router.value(st[p].result), id)
  }

  lemma CancelsMeans(nm: NodeMap, st: Statuses, p: string, id: string)
    ensures Cancels(nm, st, p, id) <==> RoutedOff(nm, st, p, id)
  {
    if p in nm && p in st && st[p].Ran? { VerdictMeans(nm, p, nm[p], st[p].result); }
    hide RouterVerdict, VerdictCancels, RulesOut;
  }

  /** A node is cancelled exactly when the router of some dependency rules it out. */
  lemma CancelledIff(rt: Runtime, nm: NodeMap, st: Statuses, id: string)
    requires IsSettlement(rt, nm, st) && id in nm
    ensures st[id] == Cancelled <==> exists p :: RoutedOff(nm, st, p, id)
  {
    assert st[id] == StatusFrom(rt, nm, id, st);
    forall p { CancelsMeans(nm, st, p, id); }
    hide Cancels, Gate;
    if p :| RoutedOff(nm, st, p, id) { assert p in nm[id].dependsOn && Cancels(nm, st, p, id); }
  }

  /** Approval is not required, or there is an approver and it agrees, given the context. */
  ghost predicate MayRun(rt: Runtime, nm: NodeMap, id: string, c: Context)
    requires id in nm
  {
    nm[id].requiresApproval ==> rt.onApproval.Some? && rt.onApproval.value(id, c)
  }

  lemma UncancelledIsGate(rt: Runtime, nm: NodeMap, st: Statuses, id: string)
    requires IsSettlement(rt, nm, st) && id in nm
    ensures id in st && (st[id].Cancelled? || st[id] == Gate(rt, nm, id, CompletedOf(st), CancelledOf(st)))
  {
    hide Gate, RoutedAway;
  }

  lemma GateRuns(rt: Runtime, nm: NodeMap, id: string, completed: map<string, AgentResult>, cancelled: set<string>)
    requires id in nm
    ensures var deps, g := nm[id].dependsOn, Gate(rt, nm, id, completed, cancelled);
            var c := DependencyContext(deps, completed);
            && !g.Cancelled?
            && (g.Ran? <==>
                Passes(deps, cancelled) && Passes(deps, Failing(rt, nm, completed)) && MayRun(rt, nm, id, c))
            && (g.Ran? ==> g.result == rt.spawn(id, c))
  {
    var deps := nm[id].dependsOn;
    CancelledOverlookedIff(deps, cancelled);
    FailedIsFirstBad(rt, nm, deps, completed);
    CancelledOverlookedIff(deps, Failing(rt, nm, completed));
    hide EmptyIdFirst, Failing, DependencyContext, FirstFailedDependency, FirstCancelledDependency;
  }

  /** A node runs exactly when no router rules it out, it passes the cancellation and the failure
      gate, and approval is not required or given; agent and approver get the context of its recorded
      dependencies.  Where the empty id hides nothing, passing means that every dependency is fine. */
  lemma RunsExactlyWhenReady(rt: Runtime, nm: NodeMap, st: Statuses, id: string)
    requires IsSettlement(rt, nm, st) && id in nm
    ensures var deps, completed := nm[id].dependsOn, CompletedOf(st);
            && (exists c :: IsContext(deps, completed, c)
                  && (st[id].Ran? <==>
                        && (forall p :: !RoutedOff(nm, st, p, id))
                        && Passes(deps, CancelledOf(st)) && Passes(deps, Failing(rt, nm, completed))
                        && MayRun(rt, nm, id, c))
                  && (st[id].Ran? ==> st[id].result == rt.spawn(id, c)))
            && (NoEmptyDependency(nm, id) ==>
                  (Passes(deps, CancelledOf(st)) && Passes(deps, Failing(rt, nm, completed))
                   <==> DependenciesFine(rt, nm, id, completed)))
  {
    hide *;
    var deps, completed, cancelled := nm[id].dependsOn, CompletedOf(st), CancelledOf(st);
    SettlementPartitions(rt, nm, st);
    UncancelledIsGate(rt, nm, st, id);
    CancelledIff(rt, nm, st, id);
    GateRuns(rt, nm, id, completed, cancelled);
    if NoEmptyDependency(nm, id) { PassesMeansFine(rt, nm, id, completed, cancelled); }
    ContextHolds(deps, completed);
    assert IsContext(deps, completed, DependencyContext(deps, completed));
  }

  lemma GateReasons(rt: Runtime, nm: NodeMap, id: string, completed: map<string, AgentResult>, cancelled: set<string>)
    requires id in nm && !Gate(rt, nm, id, completed, cancelled).Ran?
    ensures var deps, g := nm[id].dependsOn, Gate(rt, nm, id, completed, cancelled);
            var failing := Failing(rt, nm, completed);
            && (forall i: nat :: FirstBad(deps, cancelled, i) && deps[i] != NONE ==> g == SkippedCancelled(deps[i]))
            && (forall i: nat :: Passes(deps, cancelled) && FirstBad(deps, failing, i) && deps[i] != NONE ==>
                  g == SkippedFailed(deps[i]))
            && (Passes(deps, cancelled) && Passes(deps, failing) ==> nm[id].requiresApproval && g == ApprovalPending)
  {
    var deps := nm[id].dependsOn;
    CancelledOverlookedIff(deps, cancelled);
    FindsFirstBad(deps, cancelled);
    FailedIsFirstBad(rt, nm, deps, completed);
    CancelledOverlookedIff(deps, Failing(rt, nm, completed));
    FindsFirstBad(deps, Failing(rt, nm, completed));
    hide EmptyIdFirst, Failing, FirstBad, Passes;
    hide FirstFailedDependency, FirstCancelledDependency, DependencyContext, Approved;
  }

  /** What is recorded of a node that was neither cancelled nor run: the first cancelled dependency,
      else the first failure that stands, else the missing approval. */
  lemma SkipsForTheFirstReason(rt: Runtime, nm: NodeMap, st: Statuses, id: string)
    requires IsSettlement(rt, nm, st) && id in nm && !st[id].Cancelled? && !st[id].Ran?
    ensures var deps, record := nm[id].dependsOn, Recorded(st[id]);
            var cancelled, failing := CancelledOf(st), Failing(rt, nm, CompletedOf(st));
            && (forall i: nat :: FirstBad(deps, cancelled, i) && deps[i] != NONE ==>
                  record == AgentResult(false, "", "Skipped due to cancelled dependency: " + deps[i]))
            && (forall i: nat :: Passes(deps, cancelled) && FirstBad(deps, failing, i) && deps[i] != NONE ==>
                  record == AgentResult(false, "", "Skipped due to failed dependency: " + deps[i]))
            && (Passes(deps, cancelled) && Passes(deps, failing) ==>
                  nm[id].requiresApproval && record == AgentResult(false, "", "workflow_step_approval_pending"))
  {
    UncancelledIsGate(rt, nm, st, id);
    GateReasons(rt, nm, id, CompletedOf(st), CancelledOf(st));
    hide IsSettlement, CompletedOf, CancelledOf, Failing, FirstBad, Passes, Gate, StatusFrom, RoutedAway;
  }

  // ---------------------------------------------------------------- failure and routing are final

  /** A node that stops its dependents: cancelled, or failed and not excused. */
  predicate Stops(rt: Runtime, nm: NodeMap, st: Statuses, id: string) {
    id in st && (st[id].Cancelled? || Unexcused(rt, nm, id, Recorded(st[id])))
  }

  lemma StoppedDependent(rt: Runtime, nm: NodeMap, st: Statuses, d: string, id: string)
    requires IsSettlement(rt, nm, st)
    requires Stops(rt, nm, st, d) && id in nm && d in nm[id].dependsOn && NoEmptyDependency(nm, id)
    ensures !st[id].Ran?
    ensures !(rt.optionalEnabled && nm[id].optional) ==> Stops(rt, nm, st, id)
  {
    hide Passes, NoEmptyDependency, IsContext, MayRun, RoutedOff;
    RunsExactlyWhenReady(rt, nm, st, id);
  }

  /** No node reachable from a failed, unexcused node through nodes that are not excused runs, as far
      as no node on the way declares the empty id. `p` leads from the dependent `p[0]` along
      dependencies to the failed node at its end. */
  lemma {:induction false} FailureIsFinal(rt: Runtime, nm: NodeMap, st: Statuses, p: seq<string>)
    requires IsSettlement(rt, nm, st)
    requires Path(DependencyGraph(nm), p) && |p| >= 2
    requires Stops(rt, nm, st, p[|p|-1])
    requires forall i :: 0 <= i < |p| - 1 && p[i] in nm ==> NoEmptyDependency(nm, p[i])
    requires forall i :: 0 < i < |p| - 1 && p[i] in nm ==> !(rt.optionalEnabled && nm[p[i]].optional)
    ensures p[0] in nm && !st[p[0]].Ran?
    ensures !(rt.optionalEnabled && nm[p[0]].optional) ==> Stops(rt, nm, st, p[0])
  {
    assert Edge(DependencyGraph(nm), p[0], p[1]);
    if |p| > 2 {
      var q := p[1..];
      assert Path(DependencyGraph(nm), q) by {
        forall i | 0 <= i < |q| - 1 ensures Edge(DependencyGraph(nm), q[i], q[i+1]) {
          assert Edge(DependencyGraph(nm), p[i+1], p[i+2]);
        }
      }
      FailureIsFinal(rt, nm, st, q);
    }
    StoppedDependent(rt, nm, st, p[1], p[0]);
  }

  /** The empty id hides a failure: "b" runs although its only dependency, "", failed. */
  lemma EmptyIdHidesFailure(rt: Runtime, ok: AgentResult, failed: AgentResult)
    requires ok.success && !failed.success
    requires forall id, context :: rt.spawn(id, context) == if id == NONE then failed else ok
    ensures var nm := map[NONE := TaskNode(NONE, [], None, false, false),
                          "b" := TaskNode("b", [NONE], None, false, false)];
            IsSettlement(rt, nm, map[NONE := Ran(failed), "b" := Ran(ok)])
  {
    var nm := map[NONE := TaskNode(NONE, [], None, false, false), "b" := TaskNode("b", [NONE], None, false, false)];
    var st: Statuses := map[NONE := Ran(failed), "b" := Ran(ok)];
    assert !RoutedAway(nm, "b", st) && !RoutedAway(nm, NONE, st);
    assert FirstCancelledDependency([NONE], CancelledOf(st)) == NONE;
    assert FirstFailedDependency(rt, nm, [NONE], CompletedOf(st)) == NONE;
  }

  function BrokenRouterGraph(): NodeMap {
    map["a" := TaskNode("a", [], Some(r => Raised("no route")), false, false),
        NONE := TaskNode(NONE, ["a"], None, false, false),
        "b" := TaskNode("b", [NONE], None, false, false)]
  }

  lemma BrokenRouterCancels(st: Statuses, ok: AgentResult, p: string, id: string)
    requires ok.success && st == map["a" := Ran(ok), NONE := Cancelled, "b" := Ran(ok)]
    ensures Cancels(BrokenRouterGraph(), st, p, id) <==> p == "a" && id == NONE
  {
    assert "a" != "b";
    CancelsMeans(BrokenRouterGraph(), st, p, id);
    hide Cancels;
  }

  /** And a cancellation: the broken router of "a" cancels "", and "b", which depends on it, still runs. */
  lemma EmptyIdHidesCancellation(rt: Runtime, ok: AgentResult)
    requires ok.success && forall id, context :: rt.spawn(id, context) == ok
    ensures IsSettlement(rt, BrokenRouterGraph(), map["a" := Ran(ok), NONE := Cancelled, "b" := Ran(ok)])
  {
    var nm := BrokenRouterGraph();
    var st: Statuses := map["a" := Ran(ok), NONE := Cancelled, "b" := Ran(ok)];
    forall p, id { BrokenRouterCancels(st, ok, p, id); }
    hide Cancels;
    assert "a" != "b";
    assert Cancels(nm, st, "a", NONE);
    assert RoutedAway(nm, NONE, st) && !RoutedAway(nm, "b", st) && !RoutedAway(nm, "a", st);
    assert FirstCancelledDependency([NONE], CancelledOf(st)) == NONE;
    assert FirstFailedDependency(rt, nm, [NONE], CompletedOf(st)) == NONE;
  }

  lemma StatusesOfNodes(rt: Runtime, nm: NodeMap, st: Statuses)
    requires IsSettlement(rt, nm, st)
    ensures st.Keys == nm.Keys
  {
  }

  /** A router that names a direct dependent cancels every other one, lets that one be, and is no error;
      one that names anything else cancels them all and is reported; one that names nothing is silent. */
  lemma RoutingIsFinal(rt: Runtime, nm: NodeMap, st: Statuses, p: string, next: string)
    requires IsSettlement(rt, nm, st)
    requires p in nm && st[p].Ran? && st[p].result.success
    requires nm[p].router.Some? && nm[p].router.value(st[p].result) == Returned(next)
    ensures var errors := VerdictErrors(RouterVerdict(nm, p, nm[p], st[p].result));
            && (next != "" ==>
                  forall id :: id in nm && p in nm[id].dependsOn && id != next ==> st[id] == Cancelled)
            && (forall id :: next == "" || next == id ==> !Cancels(nm, st, p, id))
            && errors == if next == "" || (next in nm && p in nm[next].dependsOn) then []
                         else if next in nm then [NotDirectDependent(p, next)]
                         else [UnknownTarget(p, next)]
  {
    VerdictMeans(nm, p, nm[p], st[p].result);
    forall id { CancelsMeans(nm, st, p, id); }
    hide Cancels, RouterVerdict, VerdictErrors, IsSettlement;
    forall id | id in nm && p in nm[id].dependsOn && id != next && next != "" ensures st[id] == Cancelled {
      assert RoutedOff(nm, st, p, id) by { StatusesOfNodes(rt, nm, st); }
      CancelledIff(rt, nm, st, id);
    }
  }

  /** A raising router stops the dependents, and is reported, exactly when its message is not
      empty: the scheduler tests the error text for truth, so a bare exception fans out. */
  lemma RaisingRouterStopsIff(rt: Runtime, nm: NodeMap, st: Statuses, p: string, message: string)
    requires IsSettlement(rt, nm, st)
    requires p in nm && st[p].Ran? && st[p].result.success
    requires nm[p].router.Some? && nm[p].router.value(st[p].result) == Raised(message)
    ensures var errors := VerdictErrors(RouterVerdict(nm, p, nm[p], st[p].result));
            && errors == (if message != "" then [RouterFailed(p, message)] else [])
            && (message != "" ==> forall id :: id in nm && p in nm[id].dependsOn ==> st[id] == Cancelled)
            && (message == "" ==> forall id :: !Cancels(nm, st, p, id))
  {
    VerdictMeans(nm, p, nm[p], st[p].result);
    forall id { CancelsMeans(nm, st, p, id); }
    hide Cancels, RouterVerdict, VerdictErrors, IsSettlement;
    forall id | id in nm && p in nm[id].dependsOn && message != "" ensures st[id] == Cancelled {
      assert RoutedOff(nm, st, p, id) by { StatusesOfNodes(rt, nm, st); }
      CancelledIff(rt, nm, st, id);
    }
  }

  /** The failing family is inhabited: a dependent runs although its parent's router raised. */
  lemma BareExceptionExample(rt: Runtime, ok: AgentResult)
    requires ok.success && forall id, context :: rt.spawn(id, context) == ok
    ensures var a := TaskNode("a", [], Some(r => Raised("")), false, false);
            var b := TaskNode("b", ["a"], None, false, false);
            IsSettlement(rt, map["a" := a, "b" := b], map["a" := Ran(ok), "b" := Ran(ok)])
  {
    var a := TaskNode("a", [], Some(r => Raised("")), false, false);
    var b := TaskNode("b", ["a"], None, false, false);
    var nm, st: Statuses := map["a" := a, "b" := b], map["a" := Ran(ok), "b" := Ran(ok)];
    assert !Cancels(nm, st, "a", "b");
    assert !RoutedAway(nm, "b", st);
    assert FirstFailedDependency(rt, nm, ["a"], CompletedOf(st)) == NONE;
    assert FirstCancelledDependency(["a"], CancelledOf(st)) == NONE;
  }
}
