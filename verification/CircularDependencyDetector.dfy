/** The recursive depth-first search of `_detect_cycles`, with its visited set, recursion stack and
    path, over any adjacency lists. */
module CircularDependencyDetector {
  import opened Graphs
  import opened Sequences
  import opened Tasks
  import opened TopologicalSort

  function Universe(g: Graph): set<string> {
    g.Keys + set k, w | k in g && w in g[k] :: w
  }

  /** `u -> w` is the edge that closes one of the reported cycles. */
  ghost predicate Closes(cycles: seq<seq<string>>, u: string, w: string) {
    exists i :: 0 <= i < |cycles| && |cycles[i]| >= 2 && cycles[i][|cycles[i]|-2] == u && cycles[i][|cycles[i]|-1] == w
  }

  /** Finished nodes point only at nodes finished before them, closing edges apart. */
  ghost predicate FinishedInOrder(g: Graph, finished: seq<string>, cycles: seq<seq<string>>) {
    forall i, w :: 0 <= i < |finished| && Edge(g, finished[i], w) ==>
        w in finished[..i] || Closes(cycles, finished[i], w)
  }

  ghost predicate Genuine(g: Graph, cycles: seq<seq<string>>) {
    Distinct(cycles) && forall c :: c in cycles ==> SimpleCycle(g, c)
  }

  /** The path is the stack of the search, a walk without repetition. */
  ghost predicate Stacked(g: Graph, path: seq<string>, recStack: set<string>) {
    Distinct(path) && Elements(path) == recStack && (path != [] ==> Path(g, path))
  }

  lemma ClosesMonotone(cycles: seq<seq<string>>, more: seq<seq<string>>, u: string, w: string)
    requires Closes(cycles, u, w) && cycles <= more
    ensures Closes(more, u, w)
  {
    var i :| 0 <= i < |cycles| && |cycles[i]| >= 2 && cycles[i][|cycles[i]|-2] == u && cycles[i][|cycles[i]|-1] == w;
    assert more[i] == cycles[i];
  }

  lemma ReportKeepsOrder(g: Graph, finished: seq<string>, cycles: seq<seq<string>>, c: seq<string>)
    requires FinishedInOrder(g, finished, cycles)
    ensures FinishedInOrder(g, finished, cycles + [c])
  {
    hide Closes;
    forall i, w | 0 <= i < |finished| && Edge(g, finished[i], w)
      ensures w in finished[..i] || Closes(cycles + [c], finished[i], w)
    {
      if Closes(cycles, finished[i], w) { ClosesMonotone(cycles, cycles + [c], finished[i], w); }
    }
  }

  lemma ReportKeepsGenuine(g: Graph, cycles: seq<seq<string>>, c: seq<string>)
    requires Genuine(g, cycles) && SimpleCycle(g, c) && c !in cycles
    ensures Genuine(g, cycles + [c])
  {
  }

  lemma PushStack(g: Graph, path: seq<string>, recStack: set<string>, node: string)
    requires Stacked(g, path, recStack) && node !in recStack
    requires path == [] || Edge(g, path[|path|-1], node)
    ensures Stacked(g, path + [node], recStack + {node})
  {
    var longer := path + [node];
    assert node !in path by { assert node !in Elements(path); }
    forall i | 0 <= i < |longer| - 1 ensures Edge(g, longer[i], longer[i+1]) {
      if i < |path| - 1 { assert Edge(g, path[i], path[i+1]); }
    }
    assert Elements(longer) == Elements(path) + {node};
  }

  lemma FinishNode(g: Graph, finished: seq<string>, cycles: seq<seq<string>>, node: string)
    requires FinishedInOrder(g, finished, cycles)
    requires forall w :: w in Neighbours(g, node) ==> w in finished || Closes(cycles, node, w)
    ensures FinishedInOrder(g, finished + [node], cycles)
  {
    hide Closes;
    var longer := finished + [node];
    forall i, w | 0 <= i < |longer| && Edge(g, longer[i], w) ensures w in longer[..i] || Closes(cycles, longer[i], w) {
      assert longer[..i] == finished[..i];
      if i == |finished| { assert finished[..i] == finished; }
    }
  }

  /** The list reported for a back edge is a simple cycle, and the edge closes it. */
  lemma BackEdgeCycle(g: Graph, path: seq<string>, recStack: set<string>, w: string)
    requires Stacked(g, path, recStack) && w in recStack && Edge(g, path[|path|-1], w)
    ensures Position(path, w) > 0
    ensures var c := path[Position(path, w) - 1..] + [w];
            SimpleCycle(g, c) && |c| >= 2 && c[|c|-2] == path[|path|-1] && c[|c|-1] == w
  {
    hide Position, SimpleCycle, Edge;
    assert w in path;
    CloseCycle(g, path, w, Position(path, w) - 1);
  }

  /** The first `n` neighbours are finished or closed a reported cycle. */
  ghost predicate CoveredUpTo(node: string, neighbours: seq<string>, n: nat, finished: seq<string>,
                              cycles: seq<seq<string>>)
    requires n <= |neighbours|
  {
    forall k :: 0 <= k < n ==> neighbours[k] in finished || Closes(cycles, node, neighbours[k])
  }

  lemma NothingCovered(node: string, neighbours: seq<string>, finished: seq<string>, cycles: seq<seq<string>>)
    ensures CoveredUpTo(node, neighbours, 0, finished, cycles)
  {
  }

  lemma CoveredMonotone(node: string, neighbours: seq<string>, n: nat, finished: seq<string>, cycles: seq<seq<string>>,
                        finished': seq<string>, cycles': seq<seq<string>>)
    requires n < |neighbours| && CoveredUpTo(node, neighbours, n, finished, cycles) && cycles <= cycles'
    requires forall x :: x in finished ==> x in finished'
    requires neighbours[n] in finished' || Closes(cycles', node, neighbours[n])
    ensures CoveredUpTo(node, neighbours, n + 1, finished', cycles')
  {
    hide Closes;
    forall k | 0 <= k < n && Closes(cycles, node, neighbours[k]) ensures Closes(cycles', node, neighbours[k]) {
      ClosesMonotone(cycles, cycles', node, neighbours[k]);
    }
  }

  lemma AllCovered(node: string, neighbours: seq<string>, finished: seq<string>, cycles: seq<seq<string>>)
    requires CoveredUpTo(node, neighbours, |neighbours|, finished, cycles)
    ensures forall w :: w in neighbours ==> w in finished || Closes(cycles, node, w)
  {
  }

  /** The state of the search between two steps. */
  ghost predicate Consistent(g: Graph, visited: set<string>, recStack: set<string>, path: seq<string>,
                             cycles: seq<seq<string>>, finished: seq<string>)
  {
    && Stacked(g, path, recStack)
    && visited == recStack + Elements(finished) && visited <= Universe(g)
    && Genuine(g, cycles)
    && FinishedInOrder(g, finished, cycles)
  }

  lemma EnterNode(g: Graph, visited: set<string>, recStack: set<string>, path: seq<string>,
                  cycles: seq<seq<string>>, finished: seq<string>, node: string)
    requires Consistent(g, visited, recStack, path, cycles, finished)
    requires node in Universe(g) && node !in visited && (path == [] || Edge(g, path[|path|-1], node))
    ensures Consistent(g, visited + {node}, recStack + {node}, path + [node], cycles, finished)
    ensures Stacked(g, path, recStack) && node !in recStack && visited + {node} <= Universe(g)
    ensures CoveredUpTo(node, Neighbours(g, node), 0, finished, cycles)
  {
    NothingCovered(node, Neighbours(g, node), finished, cycles);
    hide Stacked, Genuine, FinishedInOrder, Universe;
    PushStack(g, path, recStack, node);
  }

  lemma LeaveNode(g: Graph, visited: set<string>, below: seq<string>, belowStack: set<string>,
                  cycles: seq<seq<string>>, finished: seq<string>, node: string)
    requires Stacked(g, below, belowStack) && node !in belowStack
    requires Consistent(g, visited, belowStack + {node}, below + [node], cycles, finished)
    requires CoveredUpTo(node, Neighbours(g, node), |Neighbours(g, node)|, finished, cycles)
    ensures Consistent(g, visited, belowStack, below, cycles, finished + [node])
    ensures (below + [node])[..|below|] == below && belowStack + {node} - {node} == belowStack
  {
    AllCovered(node, Neighbours(g, node), finished, cycles);
    hide Stacked, Genuine, FinishedInOrder, Universe, Closes, CoveredUpTo;
    FinishNode(g, finished, cycles, node);
    assert Elements(finished + [node]) == Elements(finished) + {node};
  }

  lemma ClosedBy(cycles: seq<seq<string>>, c: seq<string>)
    requires c in cycles && |c| >= 2
    ensures Closes(cycles, c[|c|-2], c[|c|-1])
  {
  }

  lemma AddReport(g: Graph, visited: set<string>, recStack: set<string>, path: seq<string>,
                  cycles: seq<seq<string>>, finished: seq<string>, c: seq<string>)
    requires Consistent(g, visited, recStack, path, cycles, finished) && SimpleCycle(g, c) && |c| >= 2
    ensures var more := if c in cycles then cycles else cycles + [c];
            Consistent(g, visited, recStack, path, more, finished) && Closes(more, c[|c|-2], c[|c|-1])
  {
    hide Stacked, Genuine, FinishedInOrder, Universe, Closes, SimpleCycle, Elements;
    if c in cycles {
      ClosedBy(cycles, c);
    } else {
      ReportKeepsGenuine(g, cycles, c);
      ReportKeepsOrder(g, finished, cycles, c);
      ClosedBy(cycles + [c], c);
    }
  }

  /** A neighbour on the stack: its cycle is reported unless it was already. */
  lemma ReportCycle(g: Graph, visited: set<string>, recStack: set<string>, path: seq<string>,
                    cycles: seq<seq<string>>, finished: seq<string>, w: string)
    requires Consistent(g, visited, recStack, path, cycles, finished)
    requires w in recStack && path != [] && Edge(g, path[|path|-1], w)
    ensures Position(path, w) > 0
    ensures var c := path[Position(path, w) - 1..] + [w];
            var more := if c in cycles then cycles else cycles + [c];
            Consistent(g, visited, recStack, path, more, finished) && Closes(more, path[|path|-1], w)
  {
    hide Stacked, Genuine, FinishedInOrder, Universe, Closes, SimpleCycle, Edge, Position, Elements;
    BackEdgeCycle(g, path, recStack, w);
    AddReport(g, visited, recStack, path, cycles, finished, path[Position(path, w) - 1..] + [w]);
  }

  lemma VisitedMeans(g: Graph, visited: set<string>, recStack: set<string>, path: seq<string>,
                     cycles: seq<seq<string>>, finished: seq<string>, x: string)
    requires Consistent(g, visited, recStack, path, cycles, finished)
    ensures x in visited <==> x in recStack || x in finished
    ensures visited <= Universe(g)
  {
    hide Stacked, Genuine, FinishedInOrder, Universe;
  }

  lemma NeighbourInUniverse(g: Graph, u: string, w: string)
    requires Edge(g, u, w)
    ensures w in Universe(g)
  {
  }

  lemma NeighboursAreEdges(g: Graph, u: string)
    ensures forall j :: 0 <= j < |Neighbours(g, u)| ==> Edge(g, u, Neighbours(g, u)[j])
  {
  }

  class CycleDetector {
    const graph: Graph
    var visited: set<string>
    var recStack: set<string>
    var path: seq<string>
    var cycles: seq<seq<string>>
    ghost var finished: seq<string>

    constructor (graph: Graph)
      ensures this.graph == graph && Valid()
      ensures visited == {} && recStack == {} && path == [] && cycles == [] && finished == []
    {
      this.graph := graph;
      visited, recStack, path, cycles, finished := {}, {}, [], [], [];
    }

    ghost predicate Valid()
      reads this
    {
      Consistent(graph, visited, recStack, path, cycles, finished)
    }

    method Dfs(node: string)
      requires Valid() && node in Universe(graph)
      requires path == [] || Edge(graph, path[|path|-1], node)
      modifies this
      ensures Valid() && path == old(path) && recStack == old(recStack)
      ensures old(visited) <= visited && node in visited
      ensures old(cycles) <= cycles
      ensures forall x :: x in old(finished) ==> x in finished
      ensures node !in recStack ==> node in finished
      decreases Universe(graph) - visited, 1
    {
      hide Consistent, Universe, Closes, CoveredUpTo, Stacked, Edge, Neighbours;
      VisitedMeans(graph, visited, recStack, path, cycles, finished, node);
      if node !in visited {
        EnterNode(graph, visited, recStack, path, cycles, finished, node);
        visited := visited + {node};
        recStack := recStack + {node};
        path := path + [node];
        var neighbours := Neighbours(graph, node);
        NeighboursAreEdges(graph, node);
        for j := 0 to |neighbours|
          invariant Valid() && path == old(path) + [node] && recStack == old(recStack) + {node}
          invariant old(visited) + {node} <= visited && old(cycles) <= cycles
          invariant forall x :: x in old(finished) ==> x in finished
          invariant CoveredUpTo(node, neighbours, j, finished, cycles)
        {
          ghost var before, settled := cycles, finished;
          Inspect(node, neighbours[j]);
          CoveredMonotone(node, neighbours, j, settled, before, finished, cycles);
        }
        LeaveNode(graph, visited, old(path), old(recStack), cycles, finished, node);
        path := path[..|path|-1];
        recStack := recStack - {node};
        finished := finished + [node];
      }
    }

    /** One neighbour of the node on top of the stack: descend, report a back edge, or pass by. */
    method Inspect(node: string, neighbour: string)
      requires Valid() && path != [] && node == path[|path|-1] && Edge(graph, node, neighbour)
      modifies this
      ensures Valid() && path == old(path) && recStack == old(recStack)
      ensures old(visited) <= visited && old(cycles) <= cycles
      ensures forall x :: x in old(finished) ==> x in finished
      ensures neighbour in finished || Closes(cycles, node, neighbour)
      decreases Universe(graph) - visited, 2
    {
      hide Consistent, Universe, Closes, Edge;
      VisitedMeans(graph, visited, recStack, path, cycles, finished, neighbour);
      if neighbour !in visited {
        NeighbourInUniverse(graph, node, neighbour);
        Dfs(neighbour);
      } else if neighbour in recStack {
        ReportCycle(graph, visited, recStack, path, cycles, finished, neighbour);
        var start := Position(path, neighbour) - 1;
        var cycle := path[start..] + [neighbour];
        if cycle !in cycles {
          cycles := cycles + [cycle];
        }
      }
    }
  }

  // ---------------------------------------------------------------- the whole search

  function WithoutClosing(ws: seq<string>, u: string, closing: set<(string, string)>): seq<string> {
    if ws == [] then []
    else if (u, ws[0]) in closing then WithoutClosing(ws[1..], u, closing)
    else [ws[0]] + WithoutClosing(ws[1..], u, closing)
  }

  lemma {:induction false} WithoutClosingMembers(ws: seq<string>, u: string, closing: set<(string, string)>, w: string)
    ensures w in WithoutClosing(ws, u, closing) <==> w in ws && (u, w) !in closing
  {
    if ws != [] { WithoutClosingMembers(ws[1..], u, closing, w); }
  }

  function ClosingEdges(cycles: seq<seq<string>>): set<(string, string)> {
    set c | c in cycles && |c| >= 2 :: (c[|c|-2], c[|c|-1])
  }

  /** The graph with the closing edge of every reported cycle taken out. */
  function Pruned(g: Graph, cycles: seq<seq<string>>): (h: Graph)
    ensures h.Keys == g.Keys
  {
    map u | u in g :: WithoutClosing(g[u], u, ClosingEdges(cycles))
  }

  lemma PrunedEdge(g: Graph, cycles: seq<seq<string>>, u: string, w: string)
    ensures Edge(Pruned(g, cycles), u, w) <==> Edge(g, u, w) && !Closes(cycles, u, w)
  {
    if u in g {
      WithoutClosingMembers(g[u], u, ClosingEdges(cycles), w);
      if Closes(cycles, u, w) {
        var i :| 0 <= i < |cycles| && |cycles[i]| >= 2 && cycles[i][|cycles[i]|-2] == u
            && cycles[i][|cycles[i]|-1] == w;
        assert cycles[i] in cycles;
      }
      if (u, w) in ClosingEdges(cycles) {
        var c :| c in cycles && |c| >= 2 && (u, w) == (c[|c|-2], c[|c|-1]);
        ClosedBy(cycles, c);
      }
    }
  }

  lemma SurvivesPruning(g: Graph, cycles: seq<seq<string>>, p: seq<string>)
    requires ClosedPath(g, p)
    ensures ClosedPath(Pruned(g, cycles), p) || exists k :: 0 <= k < |p| - 1 && Closes(cycles, p[k], p[k+1])
  {
    hide Closes, Pruned;
    forall k | 0 <= k < |p| - 1 ensures Edge(Pruned(g, cycles), p[k], p[k+1]) || Closes(cycles, p[k], p[k+1]) {
      assert Edge(g, p[k], p[k+1]);
      PrunedEdge(g, cycles, p[k], p[k+1]);
    }
  }

  /** Taking out the closing edges of the reported cycles leaves no cycle, so every cycle of the
      graph runs along one of them. */
  lemma ReportCoversEveryCycle(g: Graph, finished: seq<string>, cycles: seq<seq<string>>)
    requires FinishedInOrder(g, finished, cycles) && forall v :: v in g ==> v in finished
    ensures !Cyclic(Pruned(g, cycles))
    ensures forall p :: ClosedPath(g, p) ==> exists k :: 0 <= k < |p| - 1 && Closes(cycles, p[k], p[k+1])
  {
    var h := Pruned(g, cycles);
    hide Closes, Pruned;
    assert Ranked(h, finished) by {
      forall i, w | 0 <= i < |finished| && Edge(h, finished[i], w) ensures w in finished[..i] || w !in h {
        PrunedEdge(g, cycles, finished[i], w);
      }
    }
    RankedIsAcyclic(h, finished);
    forall p | ClosedPath(g, p) ensures exists k :: 0 <= k < |p| - 1 && Closes(cycles, p[k], p[k+1]) {
      SurvivesPruning(g, cycles, p);
    }
  }

  lemma EmptyIffAcyclic(g: Graph, cycles: seq<seq<string>>)
    requires Genuine(g, cycles)
    requires forall p :: ClosedPath(g, p) ==> exists k :: 0 <= k < |p| - 1 && Closes(cycles, p[k], p[k+1])
    ensures Distinct(cycles) && forall c :: c in cycles ==> SimpleCycle(g, c)
    ensures cycles == [] <==> !Cyclic(g)
  {
    if cycles != [] {
      assert cycles[0] in cycles;
      assert ClosedPath(g, cycles[0]);
    }
  }

  /** `_detect_cycles`: every list reported is a simple cycle closed by its first node, none is
      reported twice, every cycle of the graph uses the closing edge of a reported one, and so the
      report is empty exactly when there is no cycle. */
  method DetectCycles(graph: Graph, keys: seq<string>) returns (cycles: seq<seq<string>>)
    requires forall k :: k in keys <==> k in graph
    ensures forall c :: c in cycles ==> SimpleCycle(graph, c)
    ensures Distinct(cycles)
    ensures forall p :: ClosedPath(graph, p) ==> exists k :: 0 <= k < |p| - 1 && Closes(cycles, p[k], p[k+1])
    ensures cycles == [] <==> !Cyclic(graph)
  {
    hide Stacked, Genuine, FinishedInOrder, Closes, Cyclic, ClosedPath;
    var detector := new CycleDetector(graph);
    for i := 0 to |keys|
      invariant fresh(detector) && detector.graph == graph && detector.Valid()
      invariant detector.path == [] && detector.recStack == {}
      invariant forall k :: 0 <= k < i ==> keys[k] in detector.finished
    {
      assert keys[i] in graph;
      detector.Dfs(keys[i]);
    }
    cycles := detector.cycles;
    forall v | v in graph ensures v in detector.finished { assert v in keys; }
    ReportCoversEveryCycle(graph, detector.finished, cycles);
    EmptyIffAcyclic(graph, cycles);
  }
}
