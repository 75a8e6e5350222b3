/** Directed graphs as adjacency lists.  A vertex that is not a key has no neighbours, which is
    what `graph.get(node, [])` means in every detector of the repository. */
module Graphs {
  import opened Sequences

  type Graph = map<string, seq<string>>

  function Neighbours(g: Graph, v: string): seq<string> {
    if v in g then g[v] else []
  }

  predicate Edge(g: Graph, u: string, v: string) {
    v in Neighbours(g, u)
  }

  /** A non-empty walk along edges. */
  ghost predicate Path(g: Graph, p: seq<string>) {
    |p| > 0 && forall i :: 0 <= i < |p| - 1 ==> Edge(g, p[i], p[i+1])
  }

  ghost predicate ClosedPath(g: Graph, p: seq<string>) {
    |p| >= 2 && Path(g, p) && p[0] == p[|p|-1]
  }

  ghost predicate Cyclic(g: Graph) {
    exists p :: ClosedPath(g, p)
  }

  /** The shape of a reported cycle: a simple path closed by repeating its first vertex. */
  ghost predicate SimpleCycle(g: Graph, c: seq<string>) {
    ClosedPath(g, c) && Distinct(c[..|c|-1])
  }

  /** Every neighbour of a listed vertex is listed before it, or is no key at all. */
  ghost predicate Ranked(g: Graph, order: seq<string>) {
    forall i, w :: 0 <= i < |order| && Edge(g, order[i], w) ==> w in order[..i] || w !in g
  }

  lemma {:induction false} PathDescends(g: Graph, order: seq<string>, p: seq<string>, i: nat)
    requires Ranked(g, order) && Path(g, p) && |p| >= 2
    requires i < |order| && order[i] == p[0]
    requires forall k :: 0 <= k < |p| ==> p[k] in g
    ensures p[|p|-1] in order[..i]
    decreases |p|
  {
    assert Edge(g, p[0], p[1]);
    var k :| 0 <= k < i && order[k] == p[1];
    if |p| > 2 {
      assert Path(g, p[1..]) by {
        forall m | 0 <= m < |p[1..]| - 1 ensures Edge(g, p[1..][m], p[1..][m+1]) {
          assert Edge(g, p[m+1], p[m+2]);
        }
      }
      PathDescends(g, order, p[1..], k);
    }
  }

  lemma {:induction false} NoClosedPathFrom(g: Graph, order: seq<string>, p: seq<string>, i: nat)
    requires Ranked(g, order) && ClosedPath(g, p)
    requires i < |order| && order[i] == p[0]
    ensures false
    decreases i
  {
    forall k | 0 <= k < |p| ensures p[k] in g {
      if k < |p| - 1 { assert Edge(g, p[k], p[k+1]); } else { assert Edge(g, p[0], p[1]); }
    }
    PathDescends(g, order, p, i);
    var k :| 0 <= k < i && order[k] == p[0];
    NoClosedPathFrom(g, order, p, k);
  }

  /** A ranking of all keys rules out every cycle. */
  lemma RankedIsAcyclic(g: Graph, order: seq<string>)
    requires Ranked(g, order)
    requires forall v :: v in g ==> v in order
    ensures !Cyclic(g)
  {
    forall p | ClosedPath(g, p) ensures false {
      assert Edge(g, p[0], p[1]);
      var i :| 0 <= i < |order| && order[i] == p[0];
      NoClosedPathFrom(g, order, p, i);
    }
  }

  lemma {:induction false} DistinctFits<T>(p: seq<T>, S: set<T>)
    requires Distinct(p)
    requires forall v :: v in p ==> v in S
    ensures |p| <= |S|
  {
    if p != [] {
      var last := p[|p|-1];
      forall v | v in p[..|p|-1] ensures v in S - {last} {}
      DistinctFits(p[..|p|-1], S - {last});
    }
  }

  /** Cutting a walk at the first repetition of `w` yields a simple cycle. */
  lemma CloseCycle(g: Graph, p: seq<string>, w: string, k: nat)
    requires Path(g, p) && Distinct(p) && Edge(g, p[|p|-1], w)
    requires k < |p| && p[k] == w
    ensures SimpleCycle(g, p[k..] + [w])
  {
    var c := p[k..] + [w];
    assert c[..|c|-1] == p[k..];
    forall i | 0 <= i < |c| - 1 ensures Edge(g, c[i], c[i+1]) {
      assert c[i] == p[k+i];
      if i < |c| - 2 { assert Edge(g, p[k+i], p[k+i+1]); }
    }
  }

  ghost predicate HasNeighbourIn(g: Graph, v: string, S: set<string>) {
    exists w :: w in S && Edge(g, v, w)
  }

  /** No member of `S` can leave it in the sense that each has a neighbour inside. */
  ghost predicate Stuck(g: Graph, S: set<string>) {
    forall v {:trigger HasNeighbourIn(g, v, S)} :: v in S ==> HasNeighbourIn(g, v, S)
  }

  lemma {:induction false} WalkInside(g: Graph, S: set<string>, p: seq<string>)
    requires Stuck(g, S)
    requires Path(g, p) && Distinct(p) && forall v :: v in p ==> v in S
    ensures Cyclic(g)
    decreases |S| - |p|
  {
    DistinctFits(p, S);
    var last := p[|p|-1];
    assert HasNeighbourIn(g, last, S);
    var w :| w in S && Edge(g, last, w);
    if w in p {
      var k :| 0 <= k < |p| && p[k] == w;
      CloseCycle(g, p, w, k);
    } else {
      var q := p + [w];
      forall i | 0 <= i < |q| - 1 ensures Edge(g, q[i], q[i+1]) {
        if i < |p| - 1 { assert Edge(g, p[i], p[i+1]); }
      }
      DistinctFits(q, S);
      WalkInside(g, S, q);
    }
  }

  /** A non-empty set each of whose members has a neighbour inside the set contains a cycle. */
  lemma StuckSetHasCycle(g: Graph, S: set<string>)
    requires S != {}
    requires Stuck(g, S)
    ensures Cyclic(g)
  {
    var v :| v in S;
    WalkInside(g, S, [v]);
  }
}
