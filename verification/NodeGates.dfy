/** What decides whether one node of a graph runs: the per-node gates, the router, the batches. */
module NodeGates {
  import opened Sequences
  import opened Tasks

  /** The results of the completed dependencies, in declaration order: all that the text injected
      into a node's context depends on. */
  type Context = seq<(string, AgentResult)>

  /** The world outside the scheduler: agents, the owner's approval, the optional-step flag. */
  datatype Runtime = Runtime(
    spawn: (string, Context) -> AgentResult,
    onApproval: Option<(string, Context) -> bool>,
    optionalEnabled: bool)

  datatype RunError =
    | RouterFailed(node: string, message: string)
    | UnknownTarget(node: string, target: string)
    | NotDirectDependent(node: string, target: string)
    | NotExecuted(node: string)

  const NONE := ""

  function FirstCancelledDependency(deps: seq<string>, cancelled: set<string>): (d: string)
    ensures d != NONE ==> d in deps && d in cancelled
    ensures NONE !in cancelled ==> (d == NONE <==> forall x :: x in deps ==> x !in cancelled)
  {
    if deps == [] then NONE
    else if deps[0] in cancelled then deps[0]
    else FirstCancelledDependency(deps[1..], cancelled)
  }

  /** The first cancelled dependency is the empty id. */
  ghost predicate EmptyIdFirst(deps: seq<string>, cancelled: set<string>) {
    exists i :: 0 <= i < |deps| && deps[i] == NONE && NONE in cancelled
                && forall j :: 0 <= j < i ==> deps[j] !in cancelled
  }

  lemma EmptyIdStep(deps: seq<string>, cancelled: set<string>)
    requires deps != [] && deps[0] !in cancelled
    ensures EmptyIdFirst(deps, cancelled) <==> EmptyIdFirst(deps[1..], cancelled)
  {
    var rest := deps[1..];
    if EmptyIdFirst(deps, cancelled) {
      var i :| 0 <= i < |deps| && deps[i] == NONE && NONE in cancelled
               && forall j :: 0 <= j < i ==> deps[j] !in cancelled;
      assert rest[i-1] == NONE && forall j :: 0 <= j < i - 1 ==> rest[j] == deps[j+1];
    }
    if EmptyIdFirst(rest, cancelled) {
      var i :| 0 <= i < |rest| && rest[i] == NONE && NONE in cancelled
               && forall j :: 0 <= j < i ==> rest[j] !in cancelled;
      assert deps[i+1] == NONE && forall j :: 1 <= j < i + 1 ==> deps[j] == rest[j-1];
    }
  }

  /** The empty string doubles as "none": a cancelled dependency is overlooked exactly when the first
      one is the empty id.  Workflow files cannot declare such a step. */
  lemma {:induction false} CancelledOverlookedIff(deps: seq<string>, cancelled: set<string>)
    ensures FirstCancelledDependency(deps, cancelled) == NONE <==>
            (forall d :: d in deps ==> d !in cancelled) || EmptyIdFirst(deps, cancelled)
  {
    if deps != [] && deps[0] !in cancelled {
      CancelledOverlookedIff(deps[1..], cancelled);
      EmptyIdStep(deps, cancelled);
      hide EmptyIdFirst;
      assert forall d :: d in deps <==> d == deps[0] || d in deps[1..];
    }
  }

  /** A failed result that the optional-step flag does not excuse. */
  predicate Blocks(rt: Runtime, nm: NodeMap, id: string, result: AgentResult) {
    !result.success && !(rt.optionalEnabled && id in nm && nm[id].optional)
  }

  function FirstFailedDependency(rt: Runtime, nm: NodeMap, deps: seq<string>,
                                 completed: map<string, AgentResult>): (d: string)
    ensures d != NONE ==> d in deps && d in completed && Blocks(rt, nm, d, completed[d])
    ensures NONE !in completed ==>
              (d == NONE <==> forall x :: x in deps && x in completed ==> !Blocks(rt, nm, x, completed[x]))
  {
    if deps == [] then NONE
    else if deps[0] in completed && Blocks(rt, nm, deps[0], completed[deps[0]]) then deps[0]
    else FirstFailedDependency(rt, nm, deps[1..], completed)
  }

  /** A failure stands unless the node is optional and optional steps are enabled. */
  predicate Unexcused(rt: Runtime, nm: NodeMap, id: string, result: AgentResult) {
    !result.success && (id !in nm || !nm[id].optional || !rt.optionalEnabled)
  }

  lemma BlocksIsUnexcused(rt: Runtime, nm: NodeMap, id: string, result: AgentResult)
    ensures Blocks(rt, nm, id, result) <==> Unexcused(rt, nm, id, result)
  {
  }

  /** The recorded ids whose failure stops a dependent. */
  function Failing(rt: Runtime, nm: NodeMap, completed: map<string, AgentResult>): set<string> {
    set id | id in completed && Unexcused(rt, nm, id, completed[id])
  }

  /** Both searches are one search, for the first dependency in a set of bad ids. */
  lemma {:induction false} FailedIsFirstBad(rt: Runtime, nm: NodeMap, deps: seq<string>,
                                            completed: map<string, AgentResult>)
    ensures FirstFailedDependency(rt, nm, deps, completed) == FirstCancelledDependency(deps, Failing(rt, nm, completed))
  {
    if deps != [] {
      FailedIsFirstBad(rt, nm, deps[1..], completed);
      if deps[0] in completed { BlocksIsUnexcused(rt, nm, deps[0], completed[deps[0]]); }
      hide Blocks, Unexcused;
    }
  }

  /** A failed dependency is overlooked under the same condition as a cancelled one. */
  lemma FailedOverlookedIff(rt: Runtime, nm: NodeMap, deps: seq<string>, completed: map<string, AgentResult>)
    ensures FirstFailedDependency(rt, nm, deps, completed) == NONE <==>
            (forall d :: d in deps && d in completed ==> !Unexcused(rt, nm, d, completed[d]))
            || EmptyIdFirst(deps, Failing(rt, nm, completed))
  {
    hide Unexcused, EmptyIdFirst;
    FailedIsFirstBad(rt, nm, deps, completed);
    CancelledOverlookedIff(deps, Failing(rt, nm, completed));
  }

  /** `deps[i]` is the first of the bad ids among the dependencies. */
  ghost predicate FirstBad(deps: seq<string>, bad: set<string>, i: nat) {
    i < |deps| && deps[i] in bad && forall j :: 0 <= j < i ==> deps[j] !in bad
  }

  /** What the search finds is the first bad dependency in declaration order, whatever it is called. */
  lemma {:induction false} FindsFirstBad(deps: seq<string>, bad: set<string>)
    ensures forall i: nat :: FirstBad(deps, bad, i) ==> FirstCancelledDependency(deps, bad) == deps[i]
    ensures (exists d :: d in deps && d in bad) <==> exists i: nat :: FirstBad(deps, bad, i)
    ensures (forall d :: d in deps ==> d !in bad) ==> FirstCancelledDependency(deps, bad) == NONE
  {
    if deps != [] {
      var rest := deps[1..];
      FindsFirstBad(rest, bad);
      if deps[0] in bad {
        assert FirstBad(deps, bad, 0);
      } else {
        forall i: nat | FirstBad(deps, bad, i) ensures FirstCancelledDependency(deps, bad) == deps[i] {
          assert FirstBad(rest, bad, i - 1);
        }
        if d :| d in deps && d in bad {
          assert d in rest;
          var i: nat :| FirstBad(rest, bad, i);
          assert FirstBad(deps, bad, i + 1);
        }
      }
    }
  }

  /** The gate overlooks nothing, in any state of a run, if and only if the node does not declare the
      empty id as a dependency. */
  lemma NothingOverlookedIff(deps: seq<string>)
    ensures (forall bad :: FirstCancelledDependency(deps, bad) == NONE ==> forall d :: d in deps ==> d !in bad)
            <==> NONE !in deps
  {
    forall bad { CancelledOverlookedIff(deps, bad); }
    if NONE in deps {
      assert FirstCancelledDependency(deps, {NONE}) == NONE;
    }
  }

  function DependencyContext(deps: seq<string>, completed: map<string, AgentResult>): Context {
    if deps == [] then []
    else if deps[0] in completed then [(deps[0], completed[deps[0]])] + DependencyContext(deps[1..], completed)
    else DependencyContext(deps[1..], completed)
  }

  /** The entries of `deps` that have a record. */
  ghost function RecordedPlaces(deps: seq<string>, completed: map<string, AgentResult>): set<nat> {
    set i | 0 <= i < |deps| && deps[i] in completed
  }

  function FirstsOf(c: Context): (ids: seq<string>)
    ensures |ids| == |c|
  {
    seq(|c|, k requires 0 <= k < |c| => c[k].0)
  }

  /** The context holds the recorded dependencies, in declaration order, once per occurrence, each with
      its record. */
  ghost predicate IsContext(deps: seq<string>, completed: map<string, AgentResult>, c: Context) {
    && Selects(deps, RecordedPlaces(deps, completed), FirstsOf(c))
    && forall k :: 0 <= k < |c| ==> c[k].0 in completed && c[k].1 == completed[c[k].0]
  }

  lemma {:induction false} ContextOfMore(deps: seq<string>, d: string, completed: map<string, AgentResult>)
    ensures DependencyContext(deps + [d], completed)
            == DependencyContext(deps, completed) + if d in completed then [(d, completed[d])] else []
  {
    if deps == [] {
      assert ([] + [d])[1..] == [];
    } else {
      assert (deps + [d])[1..] == deps[1..] + [d];
      ContextOfMore(deps[1..], d, completed);
    }
  }

  lemma IsContextStep(deps: seq<string>, d: string, completed: map<string, AgentResult>, c: Context)
    requires IsContext(deps, completed, c)
    ensures IsContext(deps + [d], completed, if d in completed then c + [(d, completed[d])] else c)
  {
    hide Selects;
    var places := RecordedPlaces(deps + [d], completed);
    forall p | 0 <= p < |deps| ensures p in RecordedPlaces(deps, completed) <==> p in places {
      assert (deps + [d])[p] == deps[p];
    }
    assert |deps| in places <==> d in completed by { assert (deps + [d])[|deps|] == d; }
    SelectsAgree(deps, RecordedPlaces(deps, completed), places, FirstsOf(c));
    SelectsStep(deps, places, FirstsOf(c), d);
    if d in completed { assert FirstsOf(c + [(d, completed[d])]) == FirstsOf(c) + [d]; }
  }

  lemma {:induction false} ContextHolds(deps: seq<string>, completed: map<string, AgentResult>)
    ensures IsContext(deps, completed, DependencyContext(deps, completed))
  {
    if deps == [] {
      SelectsNothing<string>(RecordedPlaces(deps, completed));
    } else {
      var front, d := deps[..|deps|-1], deps[|deps|-1];
      assert deps == front + [d];
      ContextHolds(front, completed);
      hide IsContext;
      ContextOfMore(front, d, completed);
      IsContextStep(front, d, completed, DependencyContext(front, completed));
      hide DependencyContext;
      var c := DependencyContext(front, completed);
      assert c + [] == c;
    }
  }

  /** What is injected is such a context, and there is no other. */
  lemma {:induction false} ContextIsExact(deps: seq<string>, completed: map<string, AgentResult>, c: Context)
    ensures IsContext(deps, completed, c) <==> c == DependencyContext(deps, completed)
  {
    ContextHolds(deps, completed);
    var e := DependencyContext(deps, completed);
    if IsContext(deps, completed, c) {
      SelectionIsUnique(deps, RecordedPlaces(deps, completed), FirstsOf(c), FirstsOf(e));
      forall k | 0 <= k < |c| ensures c[k] == e[k] { assert FirstsOf(c)[k] == FirstsOf(e)[k]; }
    }
  }

  lemma NoContext(completed: map<string, AgentResult>)
    ensures DependencyContext([], completed) == []
  {
  }

  /** The dependency loop of `inject_dependency_context`. */
  method InjectDependencyContext(deps: seq<string>, completed: map<string, AgentResult>) returns (c: Context)
    ensures c == DependencyContext(deps, completed) && IsContext(deps, completed, c)
  {
    hide DependencyContext, IsContext;
    c := [];
    ContextHolds([], completed);
    NoContext(completed);
    for i := 0 to |deps|
      invariant c == DependencyContext(deps[..i], completed)
    {
      ContextOfMore(deps[..i], deps[i], completed);
      assert deps[..i+1] == deps[..i] + [deps[i]];
      if deps[i] in completed { c := c + [(deps[i], completed[deps[i]])]; } else { assert c + [] == c; }
    }
    assert deps[..|deps|] == deps;
    ContextHolds(deps, completed);
  }

  predicate Approved(rt: Runtime, id: string, context: Context) {
    rt.onApproval.Some? && rt.onApproval.value(id, context)
  }

  // ---------------------------------------------------------------- routing

  function DirectDependents(nm: NodeMap, parent: string): set<string> {
    set id | id in nm && parent in nm[id].dependsOn
  }

  /** What a node's router means for its direct dependents. */
  datatype Verdict = FanOut | Branch(target: string) | Broken(error: RunError)

  function RouterVerdict(nm: NodeMap, nid: string, node: TaskNode, result: AgentResult): Verdict {
    if node.router.None? || !result.success then FanOut
    else match node.router.value(result)
      case Raised(message) => if message == "" then FanOut else Broken(RouterFailed(nid, message))
      case Returned(next) =>
        if next == NONE then FanOut
        else if next !in nm then Broken(UnknownTarget(nid, next))
        else if nid !in nm[next].dependsOn then Broken(NotDirectDependent(nid, next))
        else Branch(next)
  }

  function VerdictCancels(nm: NodeMap, nid: string, v: Verdict): set<string> {
    match v
    case FanOut => {}
    case Branch(target) => DirectDependents(nm, nid) - {target}
    case Broken(_) => DirectDependents(nm, nid)
  }

  function VerdictErrors(v: Verdict): seq<RunError> {
    if v.Broken? then [v.error] else []
  }

  /** `run_node_router_safe`: the pair the scheduler inspects for truthiness. */
  function RunRouterSafe(router: AgentResult -> RouterOutcome, result: AgentResult): (Option<string>, Option<string>) {
    match router(result)
    case Returned(next) => (if next == "" then None else Some(next), None)
    case Raised(message) => (None, Some(message))
  }

  /** What a router's outcome means for a dependent of its node: a raised message stops it, and so does
      the choice of another id, be it a branch, an unknown id or a node that is no dependent. */
  predicate RulesOut(o: RouterOutcome, id: string) {
    match o
    case Raised(message) => message != ""
    case Returned(next) => next != "" && next != id
  }

  /** What a router's outcome adds to the run's errors. */
  function Faults(nm: NodeMap, p: string, o: RouterOutcome): seq<RunError> {
    match o
    case Raised(message) => if message != "" then [RouterFailed(p, message)] else []
    case Returned(next) =>
      if next == "" || (next in nm && p in nm[next].dependsOn) then []
      else if next in nm then [NotDirectDependent(p, next)]
      else [UnknownTarget(p, next)]
  }

  /** The verdict on a result cancels the dependents its router's outcome rules out, and reports its
      faults; without a router, or after a failure, it does neither. */
  lemma VerdictMeans(nm: NodeMap, p: string, node: TaskNode, result: AgentResult)
    ensures var v := RouterVerdict(nm, p, node, result);
            if node.router.Some? && result.success then
              && (forall id :: id in VerdictCancels(nm, p, v) <==>
                    id in nm && p in nm[id].dependsOn && RulesOut(node.router.value(result), id))
              && VerdictErrors(v) == Faults(nm, p, node.router.value(result))
            else
              VerdictCancels(nm, p, v) == {} && VerdictErrors(v) == []
  {
  }

  // ---------------------------------------------------------------- batches

  function Chunks<T>(s: seq<T>, size: nat): seq<seq<T>>
    requires size > 0
  {
    if |s| == 0 then []
    else if |s| <= size then [s]
    else [s[..size]] + Chunks(s[size..], size)
  }

  function SplitLayerBatches<T>(tasks: seq<T>, serial: bool, maxParallel: Option<int>): seq<seq<T>> {
    if serial then seq(|tasks|, i requires 0 <= i < |tasks| => [tasks[i]])
    else if maxParallel.Some? && maxParallel.value > 0 then Chunks(tasks, maxParallel.value)
    else [tasks]
  }

  function Concat<T>(batches: seq<seq<T>>): seq<T> {
    if batches == [] then [] else batches[0] + Concat(batches[1..])
  }

  lemma ChunksStep<T>(s: seq<T>, size: nat)
    requires size > 0
    ensures s == [] ==> Chunks(s, size) == []
    ensures 0 < |s| <= size ==> Chunks(s, size) == [s] + []
    ensures |s| > size ==> Chunks(s, size) == [s[..size]] + Chunks(s[size..], size)
  {
  }

  lemma ConcatCons<T>(batch: seq<T>, rest: seq<seq<T>>)
    ensures Concat([batch] + rest) == batch + Concat(rest)
  {
    assert ([batch] + rest)[1..] == rest;
  }

  lemma {:induction false} ChunksCover<T>(s: seq<T>, size: nat)
    requires size > 0
    ensures Concat(Chunks(s, size)) == s
    ensures forall b :: b in Chunks(s, size) ==> 0 < |b| <= size
    ensures forall i :: 0 <= i < |Chunks(s, size)| - 1 ==> |Chunks(s, size)[i]| == size
  {
    ChunksStep(s, size);
    if |s| > size {
      hide *;
      var rest := Chunks(s[size..], size);
      ChunksCover(s[size..], size);
      ConcatCons(s[..size], rest);
      assert s == s[..size] + s[size..];
    } else if s != [] {
      ConcatCons(s, []);
      hide Concat, Chunks;
      assert s + [] == s;
    }
  }

  lemma {:induction false} SingletonsCover<T>(s: seq<T>)
    ensures Concat(seq(|s|, i requires 0 <= i < |s| => [s[i]])) == s
  {
    if s != [] {
      SingletonsCover(s[1..]);
      var all := seq(|s|, i requires 0 <= i < |s| => [s[i]]);
      assert all[1..] == seq(|s[1..]|, i requires 0 <= i < |s[1..]| => [s[1..][i]]);
    }
  }

  /** Batches are consecutive runs of the layer: nothing lost, reordered or repeated, each within
      the bound, and only the last chunk may be short. */
  lemma BatchesCover<T>(tasks: seq<T>, serial: bool, maxParallel: Option<int>)
    ensures var batches := SplitLayerBatches(tasks, serial, maxParallel);
            && Concat(batches) == tasks
            && (tasks != [] ==> forall b :: b in batches ==> b != [])
            && (serial ==> forall b :: b in batches ==> |b| == 1)
            && (maxParallel.Some? && maxParallel.value > 0 ==> forall b :: b in batches ==> |b| <= maxParallel.value)
            && (!serial && maxParallel.Some? && maxParallel.value > 0 ==>
                  forall i :: 0 <= i < |batches| - 1 ==> |batches[i]| == maxParallel.value)
            && (!serial && (maxParallel.None? || maxParallel.value <= 0) ==> |batches| == 1)
  {
    if serial {
      SingletonsCover(tasks);
    } else if maxParallel.Some? && maxParallel.value > 0 {
      ChunksCover(tasks, maxParallel.value);
    } else {
      assert Concat([tasks]) == tasks + Concat([]);
    }
  }
}
