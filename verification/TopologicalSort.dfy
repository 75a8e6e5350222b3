/** Kahn's algorithm as `topological_sort` runs it: a queue, an in-degree table and an adjacency
    table that lists a dependent once per occurrence in `depends_on`. */
module TopologicalSort {
  import opened Graphs
  import opened Sequences
  import opened Tasks

  // ---------------------------------------------------------------- the specification

  /** The number of scheduled nodes after which the last of `deps` has been scheduled. */
  function Release(deps: seq<string>, order: seq<string>): (k: nat)
    ensures k <= |order|
  {
    if deps == [] then 0
    else
      var rest, here := Release(deps[1..], order), Position(order, deps[0]);
      if rest < here then here else rest
  }

  /** FIFO precedence: released earlier, or released by the same node and declared earlier. */
  ghost predicate Before(g: Graph, ids: seq<string>, order: seq<string>, a: string, b: string) {
    var ra, rb := Release(Neighbours(g, a), order), Release(Neighbours(g, b), order);
    ra < rb || (ra == rb && Position(ids, a) < Position(ids, b))
  }

  ghost predicate Fifo(g: Graph, ids: seq<string>, order: seq<string>, all: seq<string>) {
    forall i, j :: 0 <= i < j < |all| ==> Before(g, ids, order, all[i], all[j])
  }

  /** Each key of the graph is listed once, and nothing else is. */
  ghost predicate Enumerates(g: Graph, order: seq<string>) {
    Distinct(order) && forall id :: id in order <==> id in g
  }

  /** The order a FIFO queue must produce: every known dependency before its dependent, first
      released first.  `FifoOrderIsUnique` shows that it is fully determined. */
  ghost predicate IsFifoOrder(g: Graph, ids: seq<string>, order: seq<string>) {
    Enumerates(g, order) && Ranked(g, order) && Fifo(g, ids, order, order)
  }

  // ---------------------------------------------------------------- edges, counted with multiplicity

  type Arc = (string, string)

  function ArcsOf(deps: seq<string>, known: set<string>, to: string): seq<Arc> {
    if deps == [] then []
    else
      var front, d := ArcsOf(deps[..|deps|-1], known, to), deps[|deps|-1];
      if d in known then front + [(d, to)] else front
  }

  function Arcs(nodes: seq<TaskNode>, known: set<string>): seq<Arc> {
    if nodes == [] then []
    else
      var last := nodes[|nodes|-1];
      Arcs(nodes[..|nodes|-1], known) + ArcsOf(last.dependsOn, known, last.id)
  }

  function Targets(arcs: seq<Arc>, from: string): seq<string> {
    if arcs == [] then []
    else
      var front, arc := Targets(arcs[..|arcs|-1], from), arcs[|arcs|-1];
      if arc.0 == from then front + [arc.1] else front
  }

  /** How many arcs lead into `to` from nodes outside `done`. */
  function Remaining(arcs: seq<Arc>, to: string, done: set<string>): nat {
    if arcs == [] then 0
    else
      var arc := arcs[|arcs|-1];
      Remaining(arcs[..|arcs|-1], to, done) + if arc.1 == to && arc.0 !in done then 1 else 0
  }

  lemma {:induction false} RemainingDrops(arcs: seq<Arc>, to: string, done: set<string>, from: string)
    requires from !in done
    ensures Remaining(arcs, to, done) == Remaining(arcs, to, done + {from}) + multiset(Targets(arcs, from))[to]
  {
    if arcs != [] {
      RemainingDrops(arcs[..|arcs|-1], to, done, from);
    }
  }

  lemma {:induction false} RemainingZero(arcs: seq<Arc>, to: string, done: set<string>)
    ensures Remaining(arcs, to, done) == 0 <==> forall d :: (d, to) in arcs ==> d in done
  {
    if arcs != [] {
      var front := arcs[..|arcs|-1];
      RemainingZero(front, to, done);
      assert arcs == front + [arcs[|arcs|-1]];
    }
  }

  lemma {:induction false} ArcsOfMembers(deps: seq<string>, known: set<string>, to: string, arc: Arc)
    ensures arc in ArcsOf(deps, known, to) <==> arc.1 == to && arc.0 in known && arc.0 in deps
  {
    if deps != [] {
      ArcsOfMembers(deps[..|deps|-1], known, to, arc);
      assert deps == deps[..|deps|-1] + [deps[|deps|-1]];
    }
  }

  lemma OneNodeMore(front: seq<TaskNode>, last: TaskNode, arc: Arc)
    ensures var nodes := front + [last];
            (exists i :: 0 <= i < |nodes| && nodes[i].id == arc.1 && arc.0 in nodes[i].dependsOn) <==>
            (exists i :: 0 <= i < |front| && front[i].id == arc.1 && arc.0 in front[i].dependsOn)
            || (last.id == arc.1 && arc.0 in last.dependsOn)
  {
    var nodes := front + [last];
    assert nodes[|front|] == last;
    assert forall i :: 0 <= i < |front| ==> nodes[i] == front[i];
  }

  lemma {:induction false} ArcsMembers(nodes: seq<TaskNode>, known: set<string>, arc: Arc)
    ensures arc in Arcs(nodes, known) <==>
            arc.0 in known && exists i :: 0 <= i < |nodes| && nodes[i].id == arc.1 && arc.0 in nodes[i].dependsOn
  {
    if nodes != [] {
      hide ArcsOf;
      var front, last := nodes[..|nodes|-1], nodes[|nodes|-1];
      assert nodes == front + [last];
      ArcsMembers(front, known, arc);
      ArcsOfMembers(last.dependsOn, known, last.id, arc);
      OneNodeMore(front, last, arc);
    }
  }

  /** The arcs are the known dependencies, laid down in declaration order of their targets. */
  ghost predicate Declares(g: Graph, ids: seq<string>, arcs: seq<Arc>) {
    && (forall d, m :: (d, m) in arcs <==> d in g && m in g && d in g[m])
    && (forall a, b :: 0 <= a <= b < |arcs| ==> Position(ids, arcs[a].1) <= Position(ids, arcs[b].1))
  }

  /** The targets of the arcs stand in declaration order, none of them past `n`. */
  ghost predicate SortedUpTo(ids: seq<string>, arcs: seq<Arc>, n: nat) {
    && (forall a :: 0 <= a < |arcs| ==> Position(ids, arcs[a].1) <= n)
    && forall a, b :: 0 <= a <= b < |arcs| ==> Position(ids, arcs[a].1) <= Position(ids, arcs[b].1)
  }

  lemma SortedConcat(ids: seq<string>, before: seq<Arc>, mine: seq<Arc>, n: nat)
    requires n > 0 && SortedUpTo(ids, before, n - 1)
    requires forall a :: 0 <= a < |mine| ==> Position(ids, mine[a].1) == n
    ensures SortedUpTo(ids, before + mine, n)
  {
    hide Position;
    var arcs := before + mine;
    assert forall a :: 0 <= a < |arcs| ==> arcs[a] == if a < |before| then before[a] else mine[a-|before|];
  }

  lemma OwnArcs(deps: seq<string>, known: set<string>, to: string, a: nat)
    requires a < |ArcsOf(deps, known, to)|
    ensures ArcsOf(deps, known, to)[a].1 == to
  {
    ArcsOfMembers(deps, known, to, ArcsOf(deps, known, to)[a]);
    hide ArcsOf;
  }

  /** Arcs are laid down in declaration order of their targets. */
  lemma {:induction false} ArcsSorted(nodes: seq<TaskNode>, known: set<string>, n: nat)
    requires Distinct(Ids(nodes)) && n <= |nodes|
    ensures SortedUpTo(Ids(nodes), Arcs(nodes[..n], known), n)
  {
    if n > 0 {
      var ids, last := Ids(nodes), nodes[n-1];
      var mine := ArcsOf(last.dependsOn, known, last.id);
      assert nodes[..n][..n-1] == nodes[..n-1];
      hide ArcsOf, Position, Ids, SortedUpTo;
      ArcsSorted(nodes, known, n - 1);
      PositionInDistinct(ids, n - 1);
      forall a | 0 <= a < |mine| ensures Position(ids, mine[a].1) == n {
        OwnArcs(last.dependsOn, known, last.id, a);
      }
      SortedConcat(ids, Arcs(nodes[..n-1], known), mine, n);
    } else {
      hide Position, Ids;
      assert nodes[..0] == [];
    }
  }

  lemma DistinctDeclares(nodes: seq<TaskNode>)
    requires Distinct(Ids(nodes))
    ensures var nm := MapNodes(nodes);
            Declares(DependencyGraph(nm), Ids(nodes), Arcs(nodes, nm.Keys))
  {
    var nm := MapNodes(nodes);
    ArcsSorted(nodes, nm.Keys, |nodes|);
    assert nodes[..|nodes|] == nodes;
    forall d, m ensures (d, m) in Arcs(nodes, nm.Keys) <==> d in nm && m in nm && d in nm[m].dependsOn {
      ArcsMembers(nodes, nm.Keys, (d, m));
      forall i | 0 <= i < |nodes| ensures nodes[i].id in nm && nm[nodes[i].id] == nodes[i] {
        assert nodes[i].id == Ids(nodes)[i];
        DistinctIdsAgree(nodes, i);
      }
      if m in nm {
        var i :| 0 <= i < |nodes| && Ids(nodes)[i] == m;
        assert nodes[i].id == m;
      }
    }
  }

  /** Arc targets are nodes. */
  lemma ArcTargetKnown(nodes: seq<TaskNode>, arc: Arc)
    requires arc in Arcs(nodes, MapNodes(nodes).Keys)
    ensures arc.1 in MapNodes(nodes)
  {
    ArcsMembers(nodes, MapNodes(nodes).Keys, arc);
    var i :| 0 <= i < |nodes| && nodes[i].id == arc.1 && arc.0 in nodes[i].dependsOn;
    assert Ids(nodes)[i] == arc.1;
  }

  lemma {:induction false} TargetsMembers(arcs: seq<Arc>, from: string, to: string)
    ensures to in Targets(arcs, from) <==> (from, to) in arcs
  {
    if arcs != [] {
      TargetsMembers(arcs[..|arcs|-1], from, to);
      assert arcs == arcs[..|arcs|-1] + [arcs[|arcs|-1]];
    }
  }

  // ---------------------------------------------------------------- order facts

  lemma {:induction false} ReleaseStable(deps: seq<string>, s: seq<string>, t: seq<string>)
    requires forall d :: d in deps ==> d in s || d !in t
    ensures Release(deps, s + t) == Release(deps, s)
  {
    if deps != [] {
      PositionOfPrefix(s, t, deps[0]);
      ReleaseStable(deps[1..], s, t);
    }
  }

  lemma {:induction false} ReleaseAtEnd(deps: seq<string>, order: seq<string>, d: string)
    requires d in deps && Position(order, d) == |order|
    ensures Release(deps, order) == |order|
  {
    if d != deps[0] {
      ReleaseAtEnd(deps[1..], order, d);
    }
  }

  lemma {:induction false} TargetsSorted(ids: seq<string>, arcs: seq<Arc>, from: string)
    requires forall a, b :: 0 <= a <= b < |arcs| ==> Position(ids, arcs[a].1) <= Position(ids, arcs[b].1)
    ensures var ts := Targets(arcs, from);
            forall a, b :: 0 <= a <= b < |ts| ==> Position(ids, ts[a]) <= Position(ids, ts[b])
  {
    if arcs != [] {
      var front, arc := arcs[..|arcs|-1], arcs[|arcs|-1];
      TargetsSorted(ids, front, from);
      var ts := Targets(front, from);
      forall a | 0 <= a < |ts| ensures Position(ids, ts[a]) <= Position(ids, arc.1) {
        TargetsMembers(front, from, ts[a]);
        var k :| 0 <= k < |front| && front[k] == (from, ts[a]);
        assert arcs[k] == front[k];
      }
    }
  }

  // ---------------------------------------------------------------- the queue invariant

  /** The table counts what is still open, `open` being the part of the current node's adjacency
      that has not been walked yet; exactly the ids with count zero have entered the queue. */
  ghost predicate Counted(known: set<string>, arcs: seq<Arc>, inDegree: map<string, int>,
                          result: seq<string>, queue: seq<string>, open: seq<string>)
  {
    && inDegree.Keys == known
    && Distinct(result + queue)
    && (forall m :: m in known ==> inDegree[m] == Remaining(arcs, m, Elements(result)) + multiset(open)[m])
    && (forall m :: m in result + queue <==> m in known && inDegree[m] == 0)
    && (forall i, d :: 0 <= i < |result| && (d, result[i]) in arcs ==> d in result[..i])
  }

  lemma PopCounted(known: set<string>, arcs: seq<Arc>, inDegree: map<string, int>,
                   result: seq<string>, queue: seq<string>)
    requires Counted(known, arcs, inDegree, result, queue, []) && queue != []
    ensures queue[0] in known && forall x :: x in result + queue ==> x in known
    ensures Distinct(result + [queue[0]])
    ensures Counted(known, arcs, inDegree, result + [queue[0]], queue[1..], Targets(arcs, queue[0]))
    ensures forall x, d :: x in result + queue && (d, x) in arcs ==> d in result
  {
    var nid, popped := queue[0], result + [queue[0]];
    assert (result + queue)[|result|] == nid;
    assert result + queue == popped + queue[1..];
    assert forall i :: 0 <= i < |popped| ==> popped[i] == (result + queue)[i];
    assert Elements(popped) == Elements(result) + {nid};
    assert nid !in result by {
      forall i | 0 <= i < |result| ensures result[i] != nid { assert (result + queue)[i] == result[i]; }
    }
    forall m | m in known
      ensures inDegree[m] == Remaining(arcs, m, Elements(popped)) + multiset(Targets(arcs, nid))[m]
    {
      RemainingDrops(arcs, m, Elements(result), nid);
    }
    forall x, d | x in result + queue && (d, x) in arcs ensures d in result {
      RemainingZero(arcs, x, Elements(result));
    }
    forall i, d | 0 <= i < |popped| && (d, popped[i]) in arcs ensures d in popped[..i] {
      assert popped[..i] == if i < |result| then result[..i] else result;
    }
  }

  lemma WalkCounted(known: set<string>, arcs: seq<Arc>, inDegree: map<string, int>,
                    result: seq<string>, queue: seq<string>, open: seq<string>)
    requires Counted(known, arcs, inDegree, result, queue, open)
    requires open != [] && open[0] in known
    ensures inDegree[open[0]] > 0 && open[0] !in result + queue
    ensures var n := inDegree[open[0]] - 1;
            Counted(known, arcs, inDegree[open[0] := n], result, if n == 0 then queue + [open[0]] else queue, open[1..])
  {
    hide Remaining, Elements;
    var t := open[0];
    var n := inDegree[t] - 1;
    assert open == [t] + open[1..];
    assert multiset(open) == multiset{t} + multiset(open[1..]);
    if n == 0 {
      assert result + (queue + [t]) == (result + queue) + [t];
    }
  }

  // ---------------------------------------------------------------- the FIFO invariant

  /** The ids behind index `base` were released by the node just scheduled, in declaration order. */
  ghost predicate FreshFrom(g: Graph, ids: seq<string>, order: seq<string>, all: seq<string>, base: nat, bound: nat) {
    && base <= |all| && Fifo(g, ids, order, all)
    && (forall i :: 0 <= i < base ==> Release(Neighbours(g, all[i]), order) < |order|)
    && (forall i :: base <= i < |all| ==>
          Release(Neighbours(g, all[i]), order) == |order| && 0 < Position(ids, all[i]) <= bound)
  }

  lemma PopFifo(g: Graph, ids: seq<string>, arcs: seq<Arc>, order: seq<string>, nid: string, all: seq<string>)
    requires Declares(g, ids, arcs) && nid in g && forall x :: x in all ==> x in g
    requires Fifo(g, ids, order, all)
    requires forall x, d :: x in all && (d, x) in arcs ==> d in order
    ensures FreshFrom(g, ids, order + [nid], all, |all|, 0)
  {
    hide Release, Position;
    forall x | x in all
      ensures Release(g[x], order + [nid]) == Release(g[x], order)
    {
      forall d | d in g[x] ensures d in order || d !in [nid] {
        assert d == nid ==> (d, x) in arcs;
      }
      ReleaseStable(g[x], order, [nid]);
    }
    forall i, j | 0 <= i < j < |all| ensures Before(g, ids, order + [nid], all[i], all[j]) {
      assert Before(g, ids, order, all[i], all[j]);
    }
  }

  lemma PositionInjective(ids: seq<string>, a: string, b: string)
    requires b in ids && a != b
    ensures Position(ids, a) != Position(ids, b)
  {
    assert ids[Position(ids, b) - 1] == b;
  }

  lemma BeforeFresh(g: Graph, ids: seq<string>, order: seq<string>, all: seq<string>, base: nat, bound: nat, t: string,
                    i: nat)
    requires FreshFrom(g, ids, order, all, base, bound)
    requires t !in all && t in ids && Release(Neighbours(g, t), order) == |order| && bound <= Position(ids, t)
    requires i < |all|
    ensures Before(g, ids, order, all[i], t)
  {
    hide Release, Position, Neighbours;
    PositionInjective(ids, all[i], t);
  }

  lemma WalkFifo(g: Graph, ids: seq<string>, order: seq<string>, all: seq<string>, base: nat, bound: nat, nid: string,
                 t: string)
    requires FreshFrom(g, ids, order, all, base, bound)
    requires t !in all && t in ids && nid in Neighbours(g, t)
    requires Position(order, nid) == |order| && bound <= Position(ids, t)
    ensures FreshFrom(g, ids, order, all + [t], base, Position(ids, t))
  {
    hide Release, Position, Neighbours, Before;
    ReleaseAtEnd(Neighbours(g, t), order, nid);
    var longer := all + [t];
    forall i, j | 0 <= i < j < |longer| ensures Before(g, ids, order, longer[i], longer[j]) {
      if j < |all| {
        assert Before(g, ids, order, all[i], all[j]);
      } else {
        BeforeFresh(g, ids, order, all, base, bound, t, i);
      }
    }
  }

  // ---------------------------------------------------------------- why a short result means a cycle

  function FirstOccurrences(ids: seq<string>): (keys: seq<string>)
    ensures Distinct(keys)
    ensures forall x :: x in keys <==> x in ids
    ensures |keys| <= |ids|
    ensures Distinct(ids) <==> |keys| == |ids|
    ensures Distinct(ids) ==> keys == ids
  {
    if ids == [] then []
    else
      var front, x := ids[..|ids|-1], ids[|ids|-1];
      assert ids == front + [x];
      var keys := FirstOccurrences(front);
      assert x in front ==> !Distinct(ids);
      assert Distinct(ids) ==> Distinct(front);
      if x in front then keys else keys + [x]
  }

  lemma {:induction false} DistinctCount(s: seq<string>)
    requires Distinct(s)
    ensures |Elements(s)| == |s|
  {
    if s != [] {
      var front, x := s[..|s|-1], s[|s|-1];
      DistinctCount(front);
      assert Elements(s) == Elements(front) + {x};
    }
  }

  lemma {:induction false} SubsetSize<T>(a: set<T>, b: set<T>)
    requires a <= b
    ensures |a| <= |b|
    ensures |a| == |b| ==> a == b
  {
    if a != {} {
      var x :| x in a;
      SubsetSize(a - {x}, b - {x});
      assert a == (a - {x}) + {x} && b == (b - {x}) + {x};
    }
  }

  /** Distinct ids fill the graph exactly when there are as many of them as declared nodes. */
  lemma FillsGraph(ids: seq<string>, known: set<string>, result: seq<string>)
    requires Distinct(result) && known == Elements(ids) && forall x :: x in result ==> x in known
    ensures |result| <= |ids|
    ensures |result| == |ids| <==> Distinct(ids) && Elements(result) == known
  {
    var keys := FirstOccurrences(ids);
    assert Elements(keys) == known;
    DistinctCount(keys);
    DistinctCount(result);
    assert Elements(result) <= known;
    SubsetSize(Elements(result), known);
  }

  /** What the counters say once the queue is empty. */
  lemma DryQueue(known: set<string>, arcs: seq<Arc>, inDegree: map<string, int>, result: seq<string>)
    requires Counted(known, arcs, inDegree, result, [], [])
    ensures Distinct(result) && forall x :: x in result ==> x in known
    ensures forall i, d :: 0 <= i < |result| && (d, result[i]) in arcs ==> d in result[..i]
    ensures forall m :: m in known - Elements(result) ==> Remaining(arcs, m, Elements(result)) != 0
  {
    assert result + [] == result;
  }

  lemma LeftoverIsStuck(g: Graph, ids: seq<string>, arcs: seq<Arc>, done: set<string>, m: string)
    requires Declares(g, ids, arcs) && m in g && Remaining(arcs, m, done) != 0
    ensures HasNeighbourIn(g, m, g.Keys - done)
  {
    RemainingZero(arcs, m, done);
    var d :| (d, m) in arcs && d !in done;
    assert Edge(g, m, d);
  }

  /** When the queue runs dry early, the ids left over contain a cycle. */
  lemma LeftoverIsCyclic(g: Graph, ids: seq<string>, arcs: seq<Arc>, result: seq<string>)
    requires Distinct(ids) && Declares(g, ids, arcs) && g.Keys == Elements(ids)
    requires Distinct(result) && forall x :: x in result ==> x in g
    requires forall m :: m in g.Keys - Elements(result) ==> Remaining(arcs, m, Elements(result)) != 0
    requires |result| != |ids|
    ensures Cyclic(g)
  {
    FillsGraph(ids, g.Keys, result);
    var S := g.Keys - Elements(result);
    assert S != {} by {
      if S == {} {
        forall x | x in g.Keys ensures x in Elements(result) { assert x !in S; }
      }
    }
    assert Stuck(g, S) by {
      forall m | m in S ensures HasNeighbourIn(g, m, S) {
        LeftoverIsStuck(g, ids, arcs, Elements(result), m);
      }
    }
    StuckSetHasCycle(g, S);
  }

  /** A full result ranks the graph, so it has no cycle. */
  lemma FullIsOrder(g: Graph, ids: seq<string>, arcs: seq<Arc>, result: seq<string>)
    requires Distinct(ids) && Declares(g, ids, arcs) && g.Keys == Elements(ids)
    requires Distinct(result) && forall x :: x in result ==> x in g
    requires forall i, d :: 0 <= i < |result| && (d, result[i]) in arcs ==> d in result[..i]
    requires |result| == |ids| && Fifo(g, ids, result, result)
    ensures IsFifoOrder(g, ids, result)
    ensures !Cyclic(g)
  {
    FillsGraph(ids, g.Keys, result);
    forall v | v in g ensures v in result { assert v in Elements(result); }
    assert Ranked(g, result);
    RankedIsAcyclic(g, result);
  }

  // ---------------------------------------------------------------- the algorithm

  /** The adjacency and in-degree tables list exactly these arcs. */
  ghost predicate Tabulates(known: set<string>, arcs: seq<Arc>, graph: map<string, seq<string>>,
                             inDegree: map<string, int>)
  {
    && graph.Keys == inDegree.Keys == known
    && (forall d :: d in graph ==> graph[d] == Targets(arcs, d))
    && (forall m :: m in inDegree ==> inDegree[m] == Remaining(arcs, m, {}))
  }

  /** Table both ends of one arc. */
  lemma TabulateArc(known: set<string>, arcs: seq<Arc>, graph: map<string, seq<string>>, inDegree: map<string, int>,
                    arc: Arc)
    requires Tabulates(known, arcs, graph, inDegree) && arc.0 in known && arc.1 in known
    ensures Tabulates(known, arcs + [arc], graph[arc.0 := graph[arc.0] + [arc.1]],
              inDegree[arc.1 := inDegree[arc.1] + 1])
  {
    var next := arcs + [arc];
    assert next[..|next|-1] == arcs;
  }

  /** The inner table loop: one node's dependencies. */
  method TabulateNode(id: string, deps: seq<string>, ghost known: set<string>, ghost arcs: seq<Arc>,
                      graph0: map<string, seq<string>>, inDegree0: map<string, int>)
    returns (graph: map<string, seq<string>>, inDegree: map<string, int>)
    requires id in known && graph0.Keys == inDegree0.Keys == known && Tabulates(known, arcs, graph0, inDegree0)
    ensures graph.Keys == inDegree.Keys == known && Tabulates(known, arcs + ArcsOf(deps, known, id), graph, inDegree)
  {
    hide Tabulates;
    graph, inDegree := graph0, inDegree0;
    assert arcs + ArcsOf(deps[..0], known, id) == arcs;
    for j := 0 to |deps|
      invariant graph.Keys == inDegree.Keys == known
      invariant Tabulates(known, arcs + ArcsOf(deps[..j], known, id), graph, inDegree)
    {
      var dep := deps[j];
      ghost var walked := arcs + ArcsOf(deps[..j], known, id);
      assert deps[..j+1][..j] == deps[..j];
      if dep in graph {
        TabulateArc(known, walked, graph, inDegree, (dep, id));
        assert arcs + ArcsOf(deps[..j+1], known, id) == walked + [(dep, id)];
        graph := graph[dep := graph[dep] + [id]];
        inDegree := inDegree[id := inDegree[id] + 1];
      }
    }
    assert deps[..|deps|] == deps;
  }

  lemma ArcsStep(nodes: seq<TaskNode>, i: nat, known: set<string>)
    requires i < |nodes|
    ensures Arcs(nodes[..i+1], known) == Arcs(nodes[..i], known) + ArcsOf(nodes[i].dependsOn, known, nodes[i].id)
  {
    assert nodes[..i+1][..i] == nodes[..i];
  }

  lemma NoArcs(known: set<string>, keys: seq<string>)
    requires known == Elements(keys)
    ensures Tabulates(known, [], map id | id in keys :: [], map id | id in keys :: 0)
  {
  }

  method BuildTables(nodes: seq<TaskNode>)
    returns (keys: seq<string>, graph: map<string, seq<string>>, inDegree: map<string, int>)
    ensures keys == FirstOccurrences(Ids(nodes))
    ensures Tabulates(Elements(Ids(nodes)), Arcs(nodes, Elements(Ids(nodes))), graph, inDegree)
  {
    hide Tabulates, Distinct, Ids, FirstOccurrences;
    var ids := Ids(nodes);
    keys := FirstOccurrences(ids);
    graph := map id | id in keys :: [];
    inDegree := map id | id in keys :: 0;
    ghost var known := Elements(ids);
    NoArcs(known, keys);
    assert nodes[..0] == [] && Arcs([], known) == [];
    hide Arcs, ArcsOf;
    for i := 0 to |nodes|
      invariant graph.Keys == inDegree.Keys == known
      invariant Tabulates(known, Arcs(nodes[..i], known), graph, inDegree)
    {
      assert ids[i] in known;
      ArcsStep(nodes, i, known);
      graph, inDegree := TabulateNode(nodes[i].id, nodes[i].dependsOn, known, Arcs(nodes[..i], known), graph, inDegree);
    }
    assert nodes[..|nodes|] == nodes;
  }

  lemma EmptyIsFifo(g: Graph, ids: seq<string>)
    ensures Fifo(g, ids, [], [])
  {
  }

  /** Before anything is scheduled, declaration order is FIFO order. */
  lemma FifoAppend(g: Graph, ids: seq<string>, queue: seq<string>, id: string)
    requires Fifo(g, ids, [], queue) && id in ids
    requires forall a :: 0 <= a < |queue| ==> Position(ids, queue[a]) < Position(ids, id)
    ensures Fifo(g, ids, [], queue + [id])
  {
    var longer := queue + [id];
    forall a, b | 0 <= a < b < |longer| ensures Before(g, ids, [], longer[a], longer[b]) {
      if b < |queue| { assert Before(g, ids, [], queue[a], queue[b]); }
    }
  }

  /** The ids whose in-degree is zero, in dictionary order. */
  method InitialQueue(ghost g: Graph, ids: seq<string>, keys: seq<string>, inDegree: map<string, int>)
    returns (queue: seq<string>)
    requires keys == FirstOccurrences(ids) && inDegree.Keys == Elements(ids)
    ensures Distinct(queue) && forall x :: x in queue <==> x in inDegree && inDegree[x] == 0
    ensures Distinct(ids) ==> Fifo(g, ids, [], queue)
  {
    hide Fifo, FirstOccurrences, Position;
    queue := [];
    EmptyIsFifo(g, ids);
    for i := 0 to |keys|
      invariant Distinct(queue)
      invariant forall x :: x in queue <==> x in keys[..i] && inDegree[x] == 0
      invariant Distinct(ids) ==> forall a :: 0 <= a < |queue| ==> Position(ids, queue[a]) <= i
      invariant Distinct(ids) ==> Fifo(g, ids, [], queue)
    {
      assert keys[..i+1] == keys[..i] + [keys[i]];
      if Distinct(ids) { PositionInDistinct(ids, i); }
      if inDegree[keys[i]] == 0 {
        if Distinct(ids) { FifoAppend(g, ids, queue, keys[i]); }
        queue := queue + [keys[i]];
      }
    }
    assert keys[..|keys|] == keys;
  }

  lemma FreshIsFifo(g: Graph, ids: seq<string>, order: seq<string>, all: seq<string>, base: nat, bound: nat)
    requires FreshFrom(g, ids, order, all, base, bound)
    ensures Fifo(g, ids, order, all)
  {
  }

  /** One scheduled node walks its adjacency list and enqueues the dependents it completes. */
  method ReleaseDependents(ghost g: Graph, ghost ids: seq<string>, ghost arcs: seq<Arc>,
                           neighbours: seq<string>, result: seq<string>,
                           queue0: seq<string>, inDegree0: map<string, int>)
    returns (queue: seq<string>, inDegree: map<string, int>)
    requires Distinct(result) && result != [] && neighbours == Targets(arcs, result[|result|-1])
    requires g.Keys == inDegree0.Keys == Elements(ids) && forall a :: a in arcs ==> a.1 in g
    requires Counted(g.Keys, arcs, inDegree0, result, queue0, neighbours)
    requires Distinct(ids) ==>
              Declares(g, ids, arcs) && FreshFrom(g, ids, result, result + queue0, |result + queue0|, 0)
    ensures inDegree.Keys == g.Keys && Counted(g.Keys, arcs, inDegree, result, queue, [])
    ensures Distinct(ids) ==> Fifo(g, ids, result, result + queue)
  {
    hide Counted, FreshFrom;
    queue, inDegree := queue0, inDegree0;
    ghost var nid := result[|result|-1];
    ghost var base, bound: nat := |result + queue|, 0;
    PositionInDistinct(result, |result| - 1);
    if Distinct(ids) { TargetsSorted(ids, arcs, nid); }
    assert neighbours[0..] == neighbours;
    for j := 0 to |neighbours|
      invariant inDegree.Keys == g.Keys && Counted(g.Keys, arcs, inDegree, result, queue, neighbours[j..])
      invariant Distinct(ids) ==> FreshFrom(g, ids, result, result + queue, base, bound)
      invariant Distinct(ids) ==> forall k :: j <= k < |neighbours| ==> bound <= Position(ids, neighbours[k])
    {
      var t := neighbours[j];
      TargetsMembers(arcs, nid, t);
      assert (nid, t).1 in g;
      WalkCounted(g.Keys, arcs, inDegree, result, queue, neighbours[j..]);
      assert neighbours[j..][1..] == neighbours[j+1..];
      inDegree := inDegree[t := inDegree[t] - 1];
      if inDegree[t] == 0 {
        if Distinct(ids) {
          WalkFifo(g, ids, result, result + queue, base, bound, nid, t);
          bound := Position(ids, t);
        }
        assert result + queue + [t] == result + (queue + [t]);
        queue := queue + [t];
      }
    }
    assert neighbours[|neighbours|..] == [];
    if Distinct(ids) { FreshIsFifo(g, ids, result, result + queue, base, bound); }
  }

  lemma StartCounted(known: set<string>, arcs: seq<Arc>, inDegree: map<string, int>, queue: seq<string>)
    requires inDegree.Keys == known && forall m :: m in inDegree ==> inDegree[m] == Remaining(arcs, m, {})
    requires Distinct(queue) && forall x :: x in queue <==> x in inDegree && inDegree[x] == 0
    ensures Counted(known, arcs, inDegree, [], queue, [])
  {
    assert Elements([]) == {};
    assert [] + queue == queue;
  }

  /** Scheduled ids never outnumber the declared nodes. */
  lemma ScheduledBound(known: set<string>, ids: seq<string>, arcs: seq<Arc>, inDegree: map<string, int>,
                       result: seq<string>, queue: seq<string>)
    requires known == Elements(ids) && Counted(known, arcs, inDegree, result, queue, [])
    ensures |result| + |queue| <= |ids|
  {
    FillsGraph(ids, known, result + queue);
  }

  /** The main loop: pop from the front, append to the back. */
  method DrainQueue(ghost g: Graph, ghost ids: seq<string>, ghost arcs: seq<Arc>, graph: map<string, seq<string>>,
                    inDegree0: map<string, int>, queue0: seq<string>)
    returns (result: seq<string>, ghost inDegree: map<string, int>)
    requires g.Keys == graph.Keys == inDegree0.Keys == Elements(ids)
    requires forall a :: a in arcs ==> a.1 in g
    requires forall d :: d in graph ==> graph[d] == Targets(arcs, d)
    requires Counted(g.Keys, arcs, inDegree0, [], queue0, [])
    requires Distinct(ids) ==> Declares(g, ids, arcs) && Fifo(g, ids, [], queue0)
    ensures Counted(g.Keys, arcs, inDegree, result, [], [])
    ensures Distinct(ids) ==> Fifo(g, ids, result, result)
  {
    hide Counted, Fifo, FreshFrom, Declares;
    var queue, degrees := queue0, inDegree0;
    result := [];
    assert result + queue == queue;
    while queue != []
      invariant degrees.Keys == g.Keys
      invariant Counted(g.Keys, arcs, degrees, result, queue, [])
      invariant Distinct(ids) ==> Fifo(g, ids, result, result + queue)
      decreases |ids| - |result|
    {
      ScheduledBound(g.Keys, ids, arcs, degrees, result, queue);
      var nid := queue[0];
      PopCounted(g.Keys, arcs, degrees, result, queue);
      if Distinct(ids) { PopFifo(g, ids, arcs, result, nid, result + queue); }
      assert result + queue == (result + [nid]) + queue[1..];
      queue, result := queue[1..], result + [nid];
      queue, degrees := ReleaseDependents(g, ids, arcs, graph[nid], result, queue, degrees);
    }
    assert result + [] == result;
    inDegree := degrees;
  }

  /** `topological_sort`: it returns exactly on distinct ids without a cycle among known
      dependencies, and then returns the FIFO order. */
  method TopologicalSort(nodes: seq<TaskNode>) returns (r: Result<seq<string>, string>)
    ensures r.Success? <==> Distinct(Ids(nodes)) && !Cyclic(DependencyGraph(MapNodes(nodes)))
    ensures r.Success? ==> IsFifoOrder(DependencyGraph(MapNodes(nodes)), Ids(nodes), r.value)
    ensures r.Failure? ==> r.error == "Task graph contains a cycle"
  {
    hide Counted, Fifo, Declares, Cyclic, IsFifoOrder, Distinct;
    var keys, graph, inDegree := BuildTables(nodes);
    var ids := Ids(nodes);
    ghost var g := DependencyGraph(MapNodes(nodes));
    ghost var arcs := Arcs(nodes, g.Keys);
    assert g.Keys == Elements(ids);
    if Distinct(ids) { DistinctDeclares(nodes); }
    forall a | a in arcs ensures a.1 in g { ArcTargetKnown(nodes, a); }
    var queue := InitialQueue(g, ids, keys, inDegree);
    StartCounted(g.Keys, arcs, inDegree, queue);
    var result;
    ghost var counts;
    result, counts := DrainQueue(g, ids, arcs, graph, inDegree, queue);
    DryQueue(g.Keys, arcs, counts, result);
    FillsGraph(ids, g.Keys, result);
    if |result| != |nodes| {
      if Distinct(ids) { LeftoverIsCyclic(g, ids, arcs, result); }
      return Failure("Task graph contains a cycle");
    }
    FullIsOrder(g, ids, arcs, result);
    return Success(result);
  }
}
