/** The depth-first search of `ServiceContainer.validate_dependencies`, over any graph: it stops at the
    first cycle, leaving its path as it was there. */
module Container {
  import opened Graphs
  import opened Sequences
  import opened Tasks
  import opened TopologicalSort
  import opened CircularDependencyDetector

  /** Without reported cycles, finished nodes point only at nodes finished before them. */
  ghost predicate Clean(g: Graph, path: seq<string>, visited: set<string>, finished: seq<string>) {
    && Stacked(g, path, Elements(path))
    && visited == Elements(path) + Elements(finished) && visited <= Universe(g)
    && FinishedInOrder(g, finished, [])
  }

  lemma Enter(g: Graph, path: seq<string>, visited: set<string>, finished: seq<string>, node: string)
    requires Clean(g, path, visited, finished) && node !in visited && node in Universe(g)
    requires path == [] || Edge(g, path[|path|-1], node)
    ensures Clean(g, path + [node], visited + {node}, finished)
  {
    hide FinishedInOrder, Universe;
    PushStack(g, path, Elements(path), node);
    assert Elements(path + [node]) == Elements(path) + {node};
  }

  lemma Leave(g: Graph, below: seq<string>, path: seq<string>, visited: set<string>, finished: seq<string>,
              node: string)
    requires Clean(g, path, visited, finished) && path == below + [node]
    requires forall w :: w in Neighbours(g, node) ==> w in finished
    ensures path[..|path|-1] == below && Clean(g, below, visited, finished + [node])
  {
    hide FinishedInOrder, Universe;
    FinishNode(g, finished, [], node);
    assert Elements(path) == Elements(below) + {node};
    assert Elements(finished + [node]) == Elements(finished) + {node};
    assert Distinct(below) by { assert forall i :: 0 <= i < |below| ==> below[i] == path[i]; }
    if below != [] {
      forall i | 0 <= i < |below| - 1 ensures Edge(g, below[i], below[i+1]) { assert Edge(g, path[i], path[i+1]); }
    }
  }

  lemma Known(g: Graph, path: seq<string>, visited: set<string>, finished: seq<string>)
    requires Clean(g, path, visited, finished)
    ensures visited <= Universe(g)
    ensures forall x :: x in visited ==> x in path || x in finished
    ensures forall x :: x in path ==> x in visited
    ensures Stacked(g, path, Elements(path))
  {
  }

  class DependencyValidator {
    const graph: Graph
    var path: seq<string>
    var visited: set<string>
    ghost var finished: seq<string>

    constructor (graph: Graph)
      ensures this.graph == graph && path == [] && visited == {} && finished == []
    {
      this.graph := graph;
      path, visited, finished := [], {}, [];
    }

    /** `None` for `Ok`, the cycle for `Err`. */
    method Dfs(node: string) returns (cycle: Option<seq<string>>)
      requires Clean(graph, path, visited, finished) && node in Universe(graph)
      requires path == [] || Edge(graph, path[|path|-1], node)
      modifies this
      ensures cycle.Some? ==> SimpleCycle(graph, cycle.value)
      ensures cycle.None? ==> Clean(graph, path, visited, finished) && path == old(path)
      ensures cycle.None? ==> old(visited) <= visited
      ensures cycle.None? ==> node in finished && forall x :: x in old(finished) ==> x in finished
      decreases Universe(graph) - visited
    {
      hide Clean, Universe, SimpleCycle;
      Known(graph, path, visited, finished);
      if node in visited {
        if node in path {
          BackEdgeCycle(graph, path, Elements(path), node);
          var start := Position(path, node) - 1;
          return Some(path[start..] + [node]);
        }
        return None;
      }
      Enter(graph, path, visited, finished, node);
      visited := visited + {node};
      path := path + [node];
      var dependencies := Neighbours(graph, node);
      for j := 0 to |dependencies|
        invariant Clean(graph, path, visited, finished) && path == old(path) + [node]
        invariant old(visited) + {node} <= visited
        invariant forall x :: x in old(finished) ==> x in finished
        invariant forall k :: 0 <= k < j ==> dependencies[k] in finished
      {
        assert Edge(graph, node, dependencies[j]);
        NeighbourInUniverse(graph, node, dependencies[j]);
        cycle := Dfs(dependencies[j]);
        if cycle.Some? { return; }
      }
      Leave(graph, old(path), path, visited, finished, node);
      path := path[..|path|-1];
      finished := finished + [node];
      return None;
    }
  }

  lemma CleanIsAcyclic(g: Graph, visited: set<string>, finished: seq<string>)
    requires Clean(g, [], visited, finished) && forall v :: v in g ==> v in finished
    ensures !Cyclic(g)
  {
    assert Ranked(g, finished);
    RankedIsAcyclic(g, finished);
  }

  lemma StartsClean(g: Graph)
    ensures Clean(g, [], {}, [])
  {
  }

  lemma CycleIsCyclic(g: Graph, c: seq<string>)
    requires SimpleCycle(g, c)
    ensures Cyclic(g)
  {
  }

  /** `validate_dependencies`: `Ok` exactly on acyclic graphs, and otherwise a genuine simple cycle. */
  method ValidateDependencies(graph: Graph, services: seq<string>) returns (cycle: Option<seq<string>>)
    requires forall s :: s in services <==> s in graph
    ensures cycle.None? <==> !Cyclic(graph)
    ensures cycle.Some? ==> SimpleCycle(graph, cycle.value)
  {
    hide Clean, Cyclic;
    var validator := new DependencyValidator(graph);
    StartsClean(graph);
    for i := 0 to |services|
      invariant fresh(validator) && validator.graph == graph && validator.path == []
      invariant Clean(graph, validator.path, validator.visited, validator.finished)
      invariant forall k :: 0 <= k < i ==> services[k] in validator.finished
    {
      Known(graph, validator.path, validator.visited, validator.finished);
      if services[i] !in validator.visited {
        assert services[i] in graph;
        cycle := validator.Dfs(services[i]);
        if cycle.Some? {
          CycleIsCyclic(graph, cycle.value);
          return;
        }
      }
    }
    forall v | v in graph ensures v in validator.finished { assert v in services; }
    CleanIsAcyclic(graph, validator.visited, validator.finished);
    return None;
  }

  // ---------------------------------------------------------------- the three implementations agree

  /** On one dependency graph the container's search returns `Err` exactly when the recursive
      detector reports something, and, the ids being distinct, exactly when Kahn's algorithm raises. */
  method CompareDetectors(nodes: seq<TaskNode>)
    returns (raised: bool, reported: seq<seq<string>>, refused: Option<seq<string>>)
    ensures reported != [] <==> refused.Some?
    ensures raised <==> !Distinct(Ids(nodes)) || reported != []
    ensures refused.Some? ==> exists c :: c in reported && SimpleCycle(DependencyGraph(MapNodes(nodes)), c)
  {
    hide Cyclic, IsFifoOrder;
    var graph := DependencyGraph(MapNodes(nodes));
    var order := TopologicalSort.TopologicalSort(nodes);
    raised := order.Failure?;
    reported := DetectCycles(graph, Ids(nodes));
    refused := ValidateDependencies(graph, Ids(nodes));
    assert reported != [] ==> reported[0] in reported;
  }
}
