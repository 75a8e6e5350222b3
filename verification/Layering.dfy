/** Grouping a topological order into parallel layers by longest dependency chain. */
module Layering {
  import opened Graphs
  import opened Sequences
  import opened Tasks
  import opened TopologicalSort

  // ---------------------------------------------------------------- depth

  /** `max(depth.get(d, 0) for d in deps)`, zero for no dependencies. */
  function MaxDepth(deps: seq<string>, depth: map<string, nat>): nat {
    if deps == [] then 0
    else
      var rest, here := MaxDepth(deps[1..], depth), if deps[0] in depth then depth[deps[0]] else 0;
      if rest < here then here else rest
  }

  /** The depth recurrence; ids that name no node count as depth zero. */
  ghost predicate IsDepth(g: Graph, depth: map<string, nat>) {
    && depth.Keys == g.Keys
    && forall id :: id in g ==> depth[id] == if g[id] == [] then 0 else MaxDepth(g[id], depth) + 1
  }

  ghost predicate AllKnown(g: Graph) {
    forall id, d :: id in g && d in g[id] ==> d in g
  }

  function DepthOf(depth: map<string, nat>, id: string): nat {
    if id in depth then depth[id] else 0
  }

  lemma {:induction false} MaxDepthBound(deps: seq<string>, depth: map<string, nat>, d: string)
    requires d in deps
    ensures DepthOf(depth, d) <= MaxDepth(deps, depth)
  {
    if d != deps[0] { MaxDepthBound(deps[1..], depth, d); }
  }

  lemma {:induction false} MaxDepthWitness(deps: seq<string>, depth: map<string, nat>) returns (d: string)
    requires deps != []
    ensures d in deps && DepthOf(depth, d) == MaxDepth(deps, depth)
  {
    d := deps[0];
    if |deps| > 1 {
      var e := MaxDepthWitness(deps[1..], depth);
      if DepthOf(depth, d) < DepthOf(depth, e) { d := e; }
    }
  }

  lemma DeeperThanDependency(g: Graph, depth: map<string, nat>, id: string, d: string)
    requires IsDepth(g, depth) && Edge(g, id, d)
    ensures DepthOf(depth, d) < DepthOf(depth, id)
  {
    MaxDepthBound(g[id], depth, d);
  }

  /** No walk along dependencies is longer than the depth of its first node. */
  lemma {:induction false} DepthBoundsPaths(g: Graph, depth: map<string, nat>, p: seq<string>)
    requires IsDepth(g, depth) && Path(g, p)
    ensures DepthOf(depth, p[|p|-1]) + |p| - 1 <= DepthOf(depth, p[0])
  {
    if |p| > 1 {
      var q := p[1..];
      assert Path(g, q) by {
        forall i | 0 <= i < |q| - 1 ensures Edge(g, q[i], q[i+1]) { assert Edge(g, p[i+1], p[i+2]); }
      }
      DepthBoundsPaths(g, depth, q);
      assert Edge(g, p[0], p[1]);
      DeeperThanDependency(g, depth, p[0], p[1]);
    }
  }

  /** And one walk attains it. */
  lemma {:induction false} DepthIsAttained(g: Graph, depth: map<string, nat>, id: string) returns (p: seq<string>)
    requires IsDepth(g, depth)
    ensures Path(g, p) && p[0] == id && |p| - 1 == DepthOf(depth, id)
    decreases DepthOf(depth, id)
  {
    if id !in g || g[id] == [] {
      p := [id];
    } else {
      var d := MaxDepthWitness(g[id], depth);
      var q := DepthIsAttained(g, depth, d);
      p := [id] + q;
      forall i | 0 <= i < |p| - 1 ensures Edge(g, p[i], p[i+1]) {
        if i > 0 { assert Edge(g, q[i-1], q[i]); }
      }
    }
  }

  /** Depth is the length of the longest dependency chain ending at the node. */
  lemma DepthIsLongestChain(g: Graph, depth: map<string, nat>, id: string)
    requires IsDepth(g, depth) && id in g
    ensures exists p :: Path(g, p) && p[0] == id && |p| - 1 == depth[id]
    ensures forall p :: Path(g, p) && p[0] == id ==> |p| - 1 <= depth[id]
    ensures AllKnown(g) ==> forall p, i :: Path(g, p) && p[0] == id && 0 <= i < |p| ==> p[i] in g
  {
    var p := DepthIsAttained(g, depth, id);
    forall q | Path(g, q) && q[0] == id ensures |q| - 1 <= depth[id] {
      DepthBoundsPaths(g, depth, q);
    }
    if AllKnown(g) {
      forall q, i | Path(g, q) && q[0] == id && 0 <= i < |q| ensures q[i] in g {
        if i > 0 { assert Edge(g, q[i-1], q[i]); }
      }
    }
  }

  /** The recurrence has one solution, so the depth does not depend on the order it is computed in. */
  lemma DepthIsUnique(g: Graph, a: map<string, nat>, b: map<string, nat>)
    requires IsDepth(g, a) && IsDepth(g, b)
    ensures a == b
  {
    forall id | id in g ensures a[id] == b[id] {
      var p := DepthIsAttained(g, a, id);
      DepthBoundsPaths(g, b, p);
      var q := DepthIsAttained(g, b, id);
      DepthBoundsPaths(g, a, q);
    }
  }

  // ---------------------------------------------------------------- layers

  /** The ids of `order` at depth `k`, in order. */
  function Bucket(order: seq<string>, depth: map<string, nat>, k: nat): seq<string> {
    if order == [] then []
    else
      var front, id := Bucket(order[..|order|-1], depth, k), order[|order|-1];
      if DepthOf(depth, id) == k then front + [id] else front
  }

  function Buckets(order: seq<string>, depth: map<string, nat>, n: nat): (b: seq<seq<string>>)
    ensures |b| == n
  {
    seq(n, k requires 0 <= k < n => Bucket(order, depth, k))
  }

  function NonEmpty(layers: seq<seq<string>>): seq<seq<string>> {
    if layers == [] then []
    else
      var front, last := NonEmpty(layers[..|layers|-1]), layers[|layers|-1];
      if last == [] then front else front + [last]
  }

  function Flatten(layers: seq<seq<string>>): seq<string> {
    if layers == [] then [] else Flatten(layers[..|layers|-1]) + layers[|layers|-1]
  }

  lemma {:induction false} BucketMembers(order: seq<string>, depth: map<string, nat>, k: nat, id: string)
    ensures id in Bucket(order, depth, k) <==> id in order && DepthOf(depth, id) == k
  {
    if order != [] {
      BucketMembers(order[..|order|-1], depth, k, id);
      assert order == order[..|order|-1] + [order[|order|-1]];
    }
  }

  lemma {:induction false} FlattenNonEmpty(layers: seq<seq<string>>)
    ensures Flatten(NonEmpty(layers)) == Flatten(layers)
    ensures forall l :: l in NonEmpty(layers) ==> l != [] && l in layers
  {
    if layers != [] {
      FlattenNonEmpty(layers[..|layers|-1]);
      var front, last := NonEmpty(layers[..|layers|-1]), layers[|layers|-1];
      if last != [] {
        assert (front + [last])[..|front|] == front;
      }
    }
  }

  /** The depth table after the ids of `done` have been visited. */
  ghost predicate DepthsUpTo(g: Graph, done: seq<string>, depth: map<string, nat>) {
    && depth.Keys == Elements(done) && depth.Keys <= g.Keys
    && forall id :: id in depth ==> depth[id] == if g[id] == [] then 0 else MaxDepth(g[id], depth) + 1
  }

  lemma {:induction false} MaxDepthFrame(deps: seq<string>, depth: map<string, nat>, id: string, d: nat)
    requires id !in deps
    ensures MaxDepth(deps, depth[id := d]) == MaxDepth(deps, depth)
  {
    if deps != [] { MaxDepthFrame(deps[1..], depth, id, d); }
  }

  lemma Unseen(order: seq<string>, i: nat)
    requires Distinct(order) && i < |order|
    ensures order[i] !in order[..i]
  {
  }

  lemma NotYetNeeded(g: Graph, order: seq<string>, i: nat, id: string)
    requires Enumerates(g, order) && Ranked(g, order) && i < |order| && id in order[..i+1]
    ensures order[i] !in g[id]
  {
    var k :| 0 <= k <= i && order[..i+1][k] == id;
    assert order[k] == id && order[k] in order && order[i] in order;
    Unseen(order, i);
    assert order[i] !in order[..k] by { assert order[..k] <= order[..i]; }
    assert !Edge(g, order[k], order[i]);
  }

  /** A listed node's dependencies are listed strictly earlier, so entering a depth disturbs none. */
  lemma EnterDepth(g: Graph, order: seq<string>, i: nat, depth: map<string, nat>, d: nat)
    requires Enumerates(g, order) && Ranked(g, order) && i < |order|
    requires DepthsUpTo(g, order[..i], depth)
    requires d == if g[order[i]] == [] then 0 else MaxDepth(g[order[i]], depth) + 1
    ensures DepthsUpTo(g, order[..i+1], depth[order[i] := d])
  {
    hide Ranked, Distinct;
    var nid, after := order[i], depth[order[i] := d];
    assert order[..i+1] == order[..i] + [nid];
    forall id | id in after ensures MaxDepth(g[id], after) == MaxDepth(g[id], depth) {
      NotYetNeeded(g, order, i, id);
      MaxDepthFrame(g[id], depth, nid, d);
    }
  }

  lemma NoDepths(g: Graph, order: seq<string>)
    ensures DepthsUpTo(g, order[..0], map[])
  {
    assert Elements(order[..0]) == {};
  }

  lemma DepthKeys(g: Graph, done: seq<string>, depth: map<string, nat>)
    requires DepthsUpTo(g, done, depth)
    ensures depth.Keys == Elements(done)
  {
  }

  method ComputeDepths(order: seq<string>, nodeMap: NodeMap) returns (depth: map<string, nat>, maxDepth: nat)
    requires Enumerates(DependencyGraph(nodeMap), order) && Ranked(DependencyGraph(nodeMap), order)
    ensures DepthsUpTo(DependencyGraph(nodeMap), order, depth)
    ensures forall id :: id in depth ==> depth[id] <= maxDepth
    ensures depth != map[] ==> exists id :: id in depth && depth[id] == maxDepth
    ensures depth == map[] ==> maxDepth == 0
  {
    hide Ranked, Distinct, DepthsUpTo;
    ghost var g := DependencyGraph(nodeMap);
    depth, maxDepth := map[], 0;
    NoDepths(g, order);
    for i := 0 to |order|
      invariant DepthsUpTo(g, order[..i], depth)
      invariant forall id :: id in depth ==> depth[id] <= maxDepth
      invariant depth != map[] ==> exists id :: id in depth && depth[id] == maxDepth
      invariant depth == map[] ==> maxDepth == 0
    {
      var nid := order[i];
      DepthKeys(g, order[..i], depth);
      assert nid !in depth by { Unseen(order, i); }
      var node := nodeMap[nid];
      var d: nat := if node.dependsOn == [] then 0 else MaxDepth(node.dependsOn, depth) + 1;
      EnterDepth(g, order, i, depth, d);
      ghost var top := maxDepth;
      if depth != map[] {
        ghost var w :| w in depth && depth[w] == maxDepth;
        assert w in depth[nid := d] && depth[nid := d][w] == maxDepth;
      }
      depth := depth[nid := d];
      maxDepth := if maxDepth < d then d else maxDepth;
      assert nid in depth && depth[nid] == d;
    }
    assert order[..|order|] == order;
  }

  lemma BucketsStep(order: seq<string>, i: nat, depth: map<string, nat>, n: nat)
    requires i < |order| && DepthOf(depth, order[i]) < n
    ensures var d, b := DepthOf(depth, order[i]), Buckets(order[..i], depth, n);
            Buckets(order[..i+1], depth, n) == b[d := b[d] + [order[i]]]
  {
    assert order[..i+1][..i] == order[..i];
  }

  lemma NoBuckets(order: seq<string>, depth: map<string, nat>, n: nat)
    ensures Buckets(order[..0], depth, n) == seq(n, k => [])
  {
  }

  lemma DepthsComplete(g: Graph, order: seq<string>, depth: map<string, nat>)
    requires Enumerates(g, order) && DepthsUpTo(g, order, depth)
    ensures IsDepth(g, depth)
  {
    assert depth.Keys == g.Keys;
  }

  /** `depth` solves the recurrence, `maxDepth` is its maximum, and the layers are its classes in
      `order`, empty ones dropped. */
  ghost predicate IsLayering(g: Graph, order: seq<string>, depth: map<string, nat>, maxDepth: nat,
                             layers: seq<seq<string>>)
  {
    && IsDepth(g, depth) && (forall id :: id in depth ==> depth[id] <= maxDepth)
    && (order != [] ==> exists id :: id in depth && depth[id] == maxDepth)
    && layers == NonEmpty(Buckets(order, depth, maxDepth + 1))
  }

  /** `group_into_layers`: the classes of the depth recurrence. */
  method GroupIntoLayers(order: seq<string>, nodeMap: NodeMap) returns (layers: seq<seq<string>>)
    requires Enumerates(DependencyGraph(nodeMap), order) && Ranked(DependencyGraph(nodeMap), order)
    ensures exists depth: map<string, nat>, maxDepth: nat ::
              IsLayering(DependencyGraph(nodeMap), order, depth, maxDepth, layers)
  {
    hide Ranked, Distinct, DepthsUpTo, IsDepth, Buckets, NonEmpty;
    var depths, top := ComputeDepths(order, nodeMap);
    DepthKeys(DependencyGraph(nodeMap), order, depths);
    DepthsComplete(DependencyGraph(nodeMap), order, depths);
    if order != [] { assert order[0] in depths; }
    layers := seq(top + 1, k => []);
    NoBuckets(order, depths, top + 1);
    for i := 0 to |order|
      invariant layers == Buckets(order[..i], depths, top + 1)
    {
      var nid := order[i];
      assert nid in depths;
      BucketsStep(order, i, depths, top + 1);
      layers := layers[depths[nid] := layers[depths[nid]] + [nid]];
    }
    assert order[..|order|] == order;
    layers := NonEmpty(layers);
    assert IsLayering(DependencyGraph(nodeMap), order, depths, top, layers);
  }

  // ---------------------------------------------------------------- what the layers mean

  /** Layer membership is depth, up to the one bucket that can be empty: depth zero. */
  lemma {:induction false} BucketsFilled(g: Graph, depth: map<string, nat>, order: seq<string>, k: nat, id: string)
    returns (w: string)
    requires IsDepth(g, depth) && Enumerates(g, order) && (AllKnown(g) || k > 0)
    requires id in g && k <= depth[id]
    ensures w in Bucket(order, depth, k)
    decreases DepthOf(depth, id)
  {
    if depth[id] == k {
      w := id;
      BucketMembers(order, depth, k, w);
    } else {
      var d := MaxDepthWitness(g[id], depth);
      w := BucketsFilled(g, depth, order, k, d);
    }
  }

  lemma {:induction false} NonEmptyKeepsAll(layers: seq<seq<string>>)
    requires forall k :: 0 <= k < |layers| ==> layers[k] != []
    ensures NonEmpty(layers) == layers
  {
    if layers != [] {
      NonEmptyKeepsAll(layers[..|layers|-1]);
      assert layers == layers[..|layers|-1] + [layers[|layers|-1]];
    }
  }

  /** When every dependency names a node, the layer index of a node is its depth. */
  lemma LayerIndexIsDepth(g: Graph, depth: map<string, nat>, order: seq<string>, maxDepth: nat,
                          layers: seq<seq<string>>)
    requires IsLayering(g, order, depth, maxDepth, layers) && Enumerates(g, order) && AllKnown(g) && order != []
    ensures |layers| == maxDepth + 1
    ensures forall k, id :: 0 <= k < |layers| ==> (id in layers[k] <==> id in g && depth[id] == k)
  {
    var buckets := Buckets(order, depth, maxDepth + 1);
    var top :| top in depth && depth[top] == maxDepth;
    forall k | 0 <= k < |buckets| ensures buckets[k] != [] {
      var w := BucketsFilled(g, depth, order, k, top);
    }
    NonEmptyKeepsAll(buckets);
    assert layers == buckets;
    hide IsLayering, IsDepth, NonEmpty, Distinct, Bucket;
    forall k, id | 0 <= k < |layers| ensures id in layers[k] <==> id in g && depth[id] == k {
      BucketMembers(order, depth, k, id);
    }
  }

  /** A schedule in rounds that runs every node after its known dependencies. */
  ghost predicate Schedules(g: Graph, round: map<string, nat>, rounds: nat) {
    && round.Keys == g.Keys
    && (forall id :: id in g ==> round[id] < rounds)
    && forall id, d :: id in g && d in g && d in g[id] ==> round[d] < round[id]
  }

  lemma {:induction false} RoundAtLeastDepth(g: Graph, depth: map<string, nat>, round: map<string, nat>, rounds: nat,
                                             id: string)
    requires IsDepth(g, depth) && AllKnown(g) && Schedules(g, round, rounds) && id in g
    ensures depth[id] <= round[id]
    decreases depth[id]
  {
    if g[id] != [] {
      var d := MaxDepthWitness(g[id], depth);
      RoundAtLeastDepth(g, depth, round, rounds, d);
    }
  }

  /** No schedule that respects dependencies needs fewer rounds than there are layers. */
  lemma LayersAreOptimal(g: Graph, depth: map<string, nat>, order: seq<string>, maxDepth: nat, layers: seq<seq<string>>,
                         round: map<string, nat>, rounds: nat)
    requires IsLayering(g, order, depth, maxDepth, layers) && Enumerates(g, order) && AllKnown(g) && order != []
    requires Schedules(g, round, rounds)
    ensures |layers| <= rounds
    ensures Schedules(g, depth, |layers|)
  {
    LayerIndexIsDepth(g, depth, order, maxDepth, layers);
    var top :| top in depth && depth[top] == maxDepth;
    RoundAtLeastDepth(g, depth, round, rounds, top);
    forall id, d | id in g && d in g && d in g[id] ensures depth[d] < depth[id] {
      DeeperThanDependency(g, depth, id, d);
    }
  }

  // ---------------------------------------------------------------- unknown dependencies and optimality

  /** A chain of `k` dependencies from `id` that stays inside the graph. */
  ghost predicate KnownChain(g: Graph, id: string, k: nat) {
    exists p :: Path(g, p) && p[0] == id && |p| == k + 1 && p[k] in g
  }

  /** No schedule gets by with fewer than `n` rounds. */
  ghost predicate NeedsRounds(g: Graph, n: nat) {
    forall round, rounds :: Schedules(g, round, rounds) ==> n <= rounds
  }

  lemma {:induction false} ChainNeedsRounds(g: Graph, round: map<string, nat>, rounds: nat, p: seq<string>)
    requires Schedules(g, round, rounds) && Path(g, p) && p[|p|-1] in g
    ensures p[0] in g && round[p[0]] >= |p| - 1 && rounds >= |p|
  {
    if |p| > 1 {
      var q := p[1..];
      assert Edge(g, p[0], p[1]);
      assert Path(g, q) by {
        forall i | 0 <= i < |q| - 1 ensures Edge(g, q[i], q[i+1]) { assert Edge(g, p[i+1], p[i+2]); }
      }
      ChainNeedsRounds(g, round, rounds, q);
    }
  }

  lemma {:induction false} OnlyFirstEmpty(layers: seq<seq<string>>)
    requires layers != [] && forall k :: 1 <= k < |layers| ==> layers[k] != []
    ensures |NonEmpty(layers)| == if layers[0] == [] then |layers| - 1 else |layers|
  {
    if |layers| > 1 {
      OnlyFirstEmpty(layers[..|layers|-1]);
    } else {
      assert NonEmpty(layers[..0]) == [];
    }
  }

  /** Every layer but the front one is filled; the front one is when some node has no dependency. */
  lemma LayerCount(g: Graph, depth: map<string, nat>, order: seq<string>, maxDepth: nat)
    requires IsDepth(g, depth) && Enumerates(g, order)
    requires exists id :: id in depth && depth[id] == maxDepth
    ensures |NonEmpty(Buckets(order, depth, maxDepth + 1))|
            == if exists id :: id in g && g[id] == [] then maxDepth + 1 else maxDepth
  {
    var buckets := Buckets(order, depth, maxDepth + 1);
    var top :| top in depth && depth[top] == maxDepth;
    forall k | 1 <= k < |buckets| ensures buckets[k] != [] { var w := BucketsFilled(g, depth, order, k, top); }
    OnlyFirstEmpty(buckets);
    if id :| id in g && g[id] == [] { BucketMembers(order, depth, 0, id); }
    if buckets[0] != [] { BucketMembers(order, depth, 0, buckets[0][0]); }
  }

  /** The longest known chain from `id`, looked for from `bound` downwards. */
  ghost function Longest(g: Graph, id: string, bound: nat): (k: nat)
    requires id in g
    ensures k <= bound && KnownChain(g, id, k)
    ensures forall j: nat :: k < j <= bound ==> !KnownChain(g, id, j)
  {
    assert Path(g, [id]) && [id][0] in g;
    if bound == 0 || KnownChain(g, id, bound) then bound else Longest(g, id, bound - 1)
  }

  lemma LongestRanks(g: Graph, depth: map<string, nat>, maxDepth: nat, id: string, d: string)
    requires IsDepth(g, depth) && (forall x :: x in depth ==> depth[x] <= maxDepth)
    requires id in g && d in g && d in g[id]
    ensures Longest(g, d, maxDepth) < Longest(g, id, maxDepth)
  {
    var k := Longest(g, d, maxDepth);
    var q :| Path(g, q) && q[0] == d && |q| == k + 1 && q[k] in g;
    var p := [id] + q;
    forall i | 0 <= i < |p| - 1 ensures Edge(g, p[i], p[i+1]) {
      if i > 0 { assert Edge(g, q[i-1], q[i]); }
    }
    assert Path(g, p) && p[k+1] in g;
    assert KnownChain(g, id, k + 1);
    DepthBoundsPaths(g, depth, p);
  }

  /** Where no known chain is as long as the deepest layer, one round fewer than that is enough. */
  lemma FewerRoundsDo(g: Graph, depth: map<string, nat>, maxDepth: nat)
    requires IsDepth(g, depth) && (forall x :: x in depth ==> depth[x] <= maxDepth)
    requires forall id :: id in g ==> !KnownChain(g, id, maxDepth)
    ensures !NeedsRounds(g, maxDepth + 1)
  {
    hide KnownChain, IsDepth, Edge, Path, Longest;
    var round := map id | id in g :: Longest(g, id, maxDepth);
    forall id | id in g ensures round[id] < maxDepth { assert KnownChain(g, id, round[id]); }
    forall id, d | id in g && d in g && d in g[id] ensures round[d] < round[id] {
      LongestRanks(g, depth, maxDepth, id, d);
    }
    assert Schedules(g, round, maxDepth);
  }

  /** With no root at all the deepest chain leaves the graph in its last step only. */
  lemma RootlessChain(g: Graph, depth: map<string, nat>, maxDepth: nat, top: string)
    requires IsDepth(g, depth) && top in g && depth[top] == maxDepth
    requires forall id :: id in g ==> g[id] != []
    ensures NeedsRounds(g, maxDepth)
  {
    var p := DepthIsAttained(g, depth, top);
    var q := p[..maxDepth];
    assert Path(g, q) by {
      forall i | 0 <= i < |q| - 1 ensures Edge(g, q[i], q[i+1]) { assert Edge(g, p[i], p[i+1]); }
    }
    assert Edge(g, p[maxDepth-1], p[maxDepth]);
    forall round, rounds | Schedules(g, round, rounds) ensures maxDepth <= rounds {
      ChainNeedsRounds(g, round, rounds, q);
    }
  }

  lemma KnownChainNeedsRounds(g: Graph, id: string, k: nat)
    requires KnownChain(g, id, k)
    ensures NeedsRounds(g, k + 1)
  {
    var p :| Path(g, p) && p[0] == id && |p| == k + 1 && p[k] in g;
    forall round, rounds | Schedules(g, round, rounds) ensures k + 1 <= rounds {
      ChainNeedsRounds(g, round, rounds, p);
    }
  }

  /** With unknown dependencies about, the layers are still the fewest rounds possible exactly when
      every node declares a dependency or some deepest chain stays inside the graph. */
  lemma LayersOptimalIff(g: Graph, depth: map<string, nat>, order: seq<string>, maxDepth: nat, layers: seq<seq<string>>)
    requires IsLayering(g, order, depth, maxDepth, layers) && Enumerates(g, order) && order != []
    ensures NeedsRounds(g, |layers|) <==>
            (forall id :: id in g ==> g[id] != []) || exists id :: id in g && KnownChain(g, id, maxDepth)
  {
    hide KnownChain, Buckets, NonEmpty, Schedules;
    var top :| top in depth && depth[top] == maxDepth;
    LayerCount(g, depth, order, maxDepth);
    if forall id :: id in g ==> g[id] != [] {
      RootlessChain(g, depth, maxDepth, top);
    } else if id :| id in g && KnownChain(g, id, maxDepth) {
      KnownChainNeedsRounds(g, id, maxDepth);
    } else {
      FewerRoundsDo(g, depth, maxDepth);
    }
  }

  /** The smallest instance where they are not: a node waiting only for an unknown id gets a layer of
      its own, where one round would do. */
  lemma UnknownDependencyCostsARound(order: seq<string>)
    requires Enumerates(map["a" := ["ghost"], "b" := []], order)
    ensures var g: Graph, depth: map<string, nat> := map["a" := ["ghost"], "b" := []], map["a" := 1, "b" := 0];
            && IsDepth(g, depth) && Schedules(g, map["a" := 0, "b" := 0], 1)
            && |NonEmpty(Buckets(order, depth, 2))| == 2
  {
    var g: Graph, depth: map<string, nat> := map["a" := ["ghost"], "b" := []], map["a" := 1, "b" := 0];
    assert "a" != "b" && "ghost" !in g && "ghost" !in depth;
    assert MaxDepth(g["a"], depth) == 0;
    BucketMembers(order, depth, 0, "b");
    BucketMembers(order, depth, 1, "a");
    NonEmptyKeepsAll(Buckets(order, depth, 2));
  }

  /** Two nodes of one layer are never joined by a dependency path. */
  lemma NoPathWithinLayer(g: Graph, depth: map<string, nat>, p: seq<string>)
    requires IsDepth(g, depth) && Path(g, p) && |p| >= 2
    ensures DepthOf(depth, p[|p|-1]) < DepthOf(depth, p[0])
  {
    DepthBoundsPaths(g, depth, p);
  }

  // ---------------------------------------------------------------- layers and the FIFO order

  ghost predicate NonDecreasing(depth: map<string, nat>, order: seq<string>) {
    forall i, j :: 0 <= i <= j < |order| ==> DepthOf(depth, order[i]) <= DepthOf(depth, order[j])
  }

  lemma PrefixIndex(order: seq<string>, n: nat, d: string) returns (i: nat)
    requires Distinct(order) && n <= |order| && d in order[..n]
    ensures i < n && order[i] == d && Position(order, d) == i + 1
  {
    i :| 0 <= i < n && order[..n][i] == d;
    PositionInDistinct(order, i);
  }

  /** The dependency released last is the deepest one. */
  lemma {:induction false} DeepestIsLast(depth: map<string, nat>, order: seq<string>, n: nat, deps: seq<string>)
    requires Distinct(order) && n <= |order|
    requires forall i, j :: 0 <= i <= j < n ==> DepthOf(depth, order[i]) <= DepthOf(depth, order[j])
    requires deps != [] && forall d :: d in deps ==> d in order[..n]
    ensures 0 < Release(deps, order) <= n
    ensures MaxDepth(deps, depth) == DepthOf(depth, order[Release(deps, order) - 1])
  {
    hide Distinct;
    var i := PrefixIndex(order, n, deps[0]);
    if |deps| > 1 {
      DeepestIsLast(depth, order, n, deps[1..]);
    } else {
      assert Release(deps[1..], order) == 0 && MaxDepth(deps[1..], depth) == 0;
    }
  }

  lemma DepthStep(g: Graph, depth: map<string, nat>, id: string)
    requires IsDepth(g, depth) && id in g
    ensures DepthOf(depth, id) == if g[id] == [] then 0 else MaxDepth(g[id], depth) + 1
  {
  }

  lemma DependenciesListed(g: Graph, order: seq<string>, i: nat)
    requires AllKnown(g) && Enumerates(g, order) && Ranked(g, order) && i < |order|
    ensures order[i] in g
    ensures forall d :: d in g[order[i]] ==> d in order[..i]
  {
    forall d | d in g[order[i]] ensures d in order[..i] {
      assert order[i] in order && order[i] in g && d in g;
      assert Edge(g, order[i], d);
    }
  }

  /** Depth read off the order: one more than the depth of the releasing node. */
  lemma DepthFromRelease(g: Graph, depth: map<string, nat>, order: seq<string>, i: nat)
    requires IsDepth(g, depth) && AllKnown(g) && Enumerates(g, order) && Ranked(g, order)
    requires i < |order|
    requires forall a, b :: 0 <= a <= b < i ==> DepthOf(depth, order[a]) <= DepthOf(depth, order[b])
    ensures order[i] in g
    ensures var r := Release(g[order[i]], order);
            && r <= i
            && DepthOf(depth, order[i]) == if r == 0 then 0 else DepthOf(depth, order[r-1]) + 1
  {
    hide Ranked, AllKnown, IsDepth, DepthOf;
    DependenciesListed(g, order, i);
    DepthStep(g, depth, order[i]);
    if g[order[i]] != [] {
      DeepestIsLast(depth, order, i, g[order[i]]);
    }
  }

  lemma FifoAt(g: Graph, ids: seq<string>, order: seq<string>, i: nat, j: nat)
    requires Fifo(g, ids, order, order) && i < j < |order|
    requires order[i] in g && order[j] in g
    ensures Release(g[order[i]], order) <= Release(g[order[j]], order)
  {
    assert Before(g, ids, order, order[i], order[j]);
  }

  lemma {:induction false} FifoByDepth(g: Graph, ids: seq<string>, depth: map<string, nat>, order: seq<string>, n: nat)
    requires IsDepth(g, depth) && AllKnown(g) && n <= |order|
    requires Enumerates(g, order) && Ranked(g, order) && Fifo(g, ids, order, order)
    ensures forall i, j :: 0 <= i <= j < n ==> DepthOf(depth, order[i]) <= DepthOf(depth, order[j])
  {
    hide *;
    if n >= 2 {
      FifoByDepth(g, ids, depth, order, n - 1);
      DepthFromRelease(g, depth, order, n - 2);
      DepthFromRelease(g, depth, order, n - 1);
      FifoAt(g, ids, order, n - 2, n - 1);
      assert DepthOf(depth, order[n-2]) <= DepthOf(depth, order[n-1]);
    }
  }

  /** In a sorted order depth `n` occupies exactly the positions `j..k`. */
  ghost predicate Occupies(depth: map<string, nat>, order: seq<string>, n: nat, j: nat, k: nat) {
    && j <= k <= |order|
    && (forall i :: 0 <= i < j ==> DepthOf(depth, order[i]) < n)
    && (forall i :: j <= i < k ==> DepthOf(depth, order[i]) == n)
    && (forall i :: k <= i < |order| ==> DepthOf(depth, order[i]) > n)
  }

  lemma FirstDeeper(depth: map<string, nat>, order: seq<string>, n: nat, j: nat) returns (k: nat)
    requires NonDecreasing(depth, order) && j <= |order|
    requires forall i :: 0 <= i < j ==> DepthOf(depth, order[i]) < n
    requires forall i :: j <= i < |order| ==> DepthOf(depth, order[i]) >= n
    ensures Occupies(depth, order, n, j, k)
  {
    hide DepthOf;
    k := j;
    while k < |order| && DepthOf(depth, order[k]) == n
      invariant j <= k <= |order| && forall i :: j <= i < k ==> DepthOf(depth, order[i]) == n
    {
      k := k + 1;
    }
  }

  lemma SliceOfFront(order: seq<string>, j: nat, k: nat)
    requires order != [] && j <= k <= |order|
    ensures var m := |order| - 1;
            var j', k' := if j > m then m else j, if k > m then m else k;
            order[j..k] == order[..m][j'..k'] + if j <= m < k then [order[m]] else []
  {
  }

  lemma BucketStep(order: seq<string>, depth: map<string, nat>, n: nat)
    requires order != []
    ensures var front, last := order[..|order|-1], order[|order|-1];
            Bucket(order, depth, n) == Bucket(front, depth, n) + if DepthOf(depth, last) == n then [last] else []
  {
    hide DepthOf;
  }

  lemma {:induction false} OccupiedBucket(depth: map<string, nat>, order: seq<string>, n: nat, j: nat, k: nat)
    requires Occupies(depth, order, n, j, k)
    ensures Bucket(order, depth, n) == order[j..k]
  {
    hide DepthOf;
    if order != [] {
      var m := |order| - 1;
      var front := order[..m];
      BucketStep(order, depth, n);
      var j', k' := if j > m then m else j, if k > m then m else k;
      assert Occupies(depth, front, n, j', k');
      OccupiedBucket(depth, front, n, j', k');
      SliceOfFront(order, j, k);
    }
  }

  lemma BucketOfSorted(depth: map<string, nat>, order: seq<string>, n: nat, j: nat) returns (k: nat)
    requires NonDecreasing(depth, order) && j <= |order|
    requires forall i :: 0 <= i < j ==> DepthOf(depth, order[i]) < n
    requires forall i :: j <= i < |order| ==> DepthOf(depth, order[i]) >= n
    ensures Occupies(depth, order, n, j, k) && Bucket(order, depth, n) == order[j..k]
  {
    k := FirstDeeper(depth, order, n, j);
    OccupiedBucket(depth, order, n, j, k);
  }

  lemma {:induction false} SplitSorted(depth: map<string, nat>, order: seq<string>, n: nat) returns (k: nat)
    requires NonDecreasing(depth, order)
    ensures k <= |order| && Flatten(Buckets(order, depth, n)) == order[..k]
    ensures forall i :: 0 <= i < k ==> DepthOf(depth, order[i]) < n
    ensures forall i :: k <= i < |order| ==> DepthOf(depth, order[i]) >= n
  {
    if n == 0 {
      k := 0;
    } else {
      var j := SplitSorted(depth, order, n - 1);
      k := BucketOfSorted(depth, order, n - 1, j);
      var b := Buckets(order, depth, n);
      assert b[..n-1] == Buckets(order, depth, n - 1);
      assert order[..j] + order[j..k] == order[..k];
    }
  }

  lemma {:induction false} NoneAtDepth(depth: map<string, nat>, order: seq<string>, n: nat)
    requires forall i :: 0 <= i < |order| ==> DepthOf(depth, order[i]) < n
    ensures Bucket(order, depth, n) == []
  {
    if order != [] { NoneAtDepth(depth, order[..|order|-1], n); }
  }

  /** When every dependency names a node, reading the layers off in turn gives back the FIFO order. */
  lemma LayersFlattenToOrder(g: Graph, ids: seq<string>, depth: map<string, nat>, order: seq<string>, n: nat)
    requires IsDepth(g, depth) && AllKnown(g) && IsFifoOrder(g, ids, order)
    requires forall id :: id in depth ==> depth[id] < n
    ensures Flatten(NonEmpty(Buckets(order, depth, n))) == order
  {
    FifoByDepth(g, ids, depth, order, |order|);
    var k := SplitSorted(depth, order, n);
    forall i | 0 <= i < |order| ensures DepthOf(depth, order[i]) < n { assert order[i] in g; }
    FlattenNonEmpty(Buckets(order, depth, n));
  }

  // ---------------------------------------------------------------- the order is determined

  lemma {:induction false} ReleaseOnCommonPrefix(deps: seq<string>, a: seq<string>, b: seq<string>, n: nat, g: Graph)
    requires Enumerates(g, a) && Enumerates(g, b) && n <= |a| && n <= |b| && a[..n] == b[..n]
    requires forall d :: d in deps ==> d in a[..n] || d !in g
    ensures Release(deps, a) == Release(deps, b)
  {
    if deps != [] {
      var d := deps[0];
      if d in g {
        var i :| 0 <= i < n && a[..n][i] == d;
        assert a[i] == d && b[i] == b[..n][i] == d;
        PositionInDistinct(a, i);
        PositionInDistinct(b, i);
      }
      ReleaseOnCommonPrefix(deps[1..], a, b, n, g);
    }
  }

  /** What one order lists at `n` and the other does not, the other lists later. */
  lemma FoundBeyond(g: Graph, a: seq<string>, b: seq<string>, n: nat, y: string) returns (i: nat)
    requires Enumerates(g, a) && Enumerates(g, b) && n < |a| && n < |b|
    requires a[..n] == b[..n] && b[n] == y && a[n] != y
    ensures n < i < |a| && a[i] == y
  {
    assert y in b && y in g && y in a;
    i :| 0 <= i < |a| && a[i] == y;
    assert forall m :: 0 <= m < n ==> a[m] == a[..n][m] == b[..n][m] == b[m];
  }

  lemma DependenciesBefore(g: Graph, order: seq<string>, n: nat)
    requires Ranked(g, order) && n < |order|
    ensures forall d :: d in Neighbours(g, order[n]) ==> d in order[..n] || d !in g
  {
    forall d | d in Neighbours(g, order[n]) ensures d in order[..n] || d !in g { assert Edge(g, order[n], d); }
  }

  lemma FifoPair(g: Graph, ids: seq<string>, order: seq<string>, i: nat, j: nat)
    requires Fifo(g, ids, order, order) && i < j < |order|
    ensures Before(g, ids, order, order[i], order[j])
  {
    hide Before;
  }

  /** Two ids whose release is the same in both orders cannot precede each other. */
  lemma NotBothWays(g: Graph, ids: seq<string>, a: seq<string>, b: seq<string>, x: string, y: string)
    requires Release(Neighbours(g, x), a) == Release(Neighbours(g, x), b)
    requires Release(Neighbours(g, y), a) == Release(Neighbours(g, y), b)
    ensures !(Before(g, ids, a, x, y) && Before(g, ids, b, y, x))
  {
    hide Release, Position, Neighbours;
  }

  lemma SameNext(g: Graph, ids: seq<string>, a: seq<string>, b: seq<string>, n: nat)
    requires IsFifoOrder(g, ids, a) && IsFifoOrder(g, ids, b) && n < |a| && n < |b| && a[..n] == b[..n]
    ensures a[n] == b[n]
  {
    hide Ranked, Fifo, Before, Enumerates, Neighbours;
    var x, y := a[n], b[n];
    DependenciesBefore(g, a, n);
    DependenciesBefore(g, b, n);
    ReleaseOnCommonPrefix(Neighbours(g, x), a, b, n, g);
    ReleaseOnCommonPrefix(Neighbours(g, y), a, b, n, g);
    NotBothWays(g, ids, a, b, x, y);
    if x != y {
      var i := FoundBeyond(g, a, b, n, y);
      var j := FoundBeyond(g, b, a, n, x);
      FifoPair(g, ids, a, n, i);
      FifoPair(g, ids, b, n, j);
    }
  }

  lemma {:induction false} FifoPrefixIsUnique(g: Graph, ids: seq<string>, a: seq<string>, b: seq<string>, n: nat)
    requires IsFifoOrder(g, ids, a) && IsFifoOrder(g, ids, b) && n <= |a| && n <= |b|
    ensures a[..n] == b[..n]
  {
    hide IsFifoOrder;
    if n > 0 {
      FifoPrefixIsUnique(g, ids, a, b, n - 1);
      SameNext(g, ids, a, b, n - 1);
      assert a[..n] == a[..n-1] + [a[n-1]] && b[..n] == b[..n-1] + [b[n-1]];
    }
  }

  /** The FIFO conditions pin the whole order down. */
  lemma FifoOrderIsUnique(g: Graph, ids: seq<string>, a: seq<string>, b: seq<string>)
    requires IsFifoOrder(g, ids, a) && IsFifoOrder(g, ids, b)
    ensures a == b
  {
    DistinctCount(a);
    DistinctCount(b);
    assert Elements(a) == Elements(b);
    FifoPrefixIsUnique(g, ids, a, b, |a|);
    assert a[..|a|] == a && b[..|a|] == b;
  }

  // ---------------------------------------------------------------- layers as a schedule

  /** Every known dependency sits in an earlier layer. */
  ghost predicate Staged(g: Graph, layers: seq<seq<string>>) {
    forall l, id, d :: 0 <= l < |layers| && id in layers[l] && Edge(g, id, d) && d in g ==> d in Flatten(layers[..l])
  }

  lemma {:induction false} FlattenMembers(order: seq<string>, depth: map<string, nat>, n: nat, id: string)
    ensures id in Flatten(Buckets(order, depth, n)) <==> id in order && DepthOf(depth, id) < n
  {
    if n > 0 {
      FlattenMembers(order, depth, n - 1, id);
      BucketMembers(order, depth, n - 1, id);
      assert Buckets(order, depth, n)[..n-1] == Buckets(order, depth, n - 1);
    }
  }

  lemma {:induction false} BucketDistinct(order: seq<string>, depth: map<string, nat>, k: nat)
    requires Distinct(order)
    ensures Distinct(Bucket(order, depth, k))
  {
    if order != [] {
      var front := order[..|order|-1];
      BucketDistinct(front, depth, k);
      BucketMembers(front, depth, k, order[|order|-1]);
    }
  }

  lemma DistinctConcat(a: seq<string>, b: seq<string>)
    requires Distinct(a) && Distinct(b) && forall x :: x in a ==> x !in b
    ensures Distinct(a + b)
  {
    forall i, j | 0 <= i < j < |a + b| ensures (a + b)[i] != (a + b)[j] {
      if i < |a| <= j { assert a[i] in a && b[j - |a|] in b; }
    }
  }

  lemma {:induction false} BucketsDistinct(order: seq<string>, depth: map<string, nat>, n: nat)
    requires Distinct(order)
    ensures Distinct(Flatten(Buckets(order, depth, n)))
  {
    if n > 0 {
      BucketsDistinct(order, depth, n - 1);
      BucketDistinct(order, depth, n - 1);
      var front, last := Flatten(Buckets(order, depth, n - 1)), Bucket(order, depth, n - 1);
      assert Buckets(order, depth, n)[..n-1] == Buckets(order, depth, n - 1);
      forall id | id in front ensures id !in last {
        FlattenMembers(order, depth, n - 1, id);
        BucketMembers(order, depth, n - 1, id);
      }
      DistinctConcat(front, last);
    }
  }

  lemma BucketsStaged(g: Graph, depth: map<string, nat>, order: seq<string>, n: nat)
    requires IsDepth(g, depth) && Enumerates(g, order)
    ensures Staged(g, Buckets(order, depth, n))
  {
    var layers := Buckets(order, depth, n);
    forall l, id, d | 0 <= l < |layers| && id in layers[l] && Edge(g, id, d) && d in g
      ensures d in Flatten(layers[..l])
    {
      BucketMembers(order, depth, l, id);
      DeeperThanDependency(g, depth, id, d);
      assert layers[..l] == Buckets(order, depth, l);
      FlattenMembers(order, depth, l, d);
    }
  }

  lemma {:induction false} NonEmptyStaged(g: Graph, layers: seq<seq<string>>)
    requires Staged(g, layers)
    ensures Staged(g, NonEmpty(layers))
  {
    if layers != [] {
      var front, last := layers[..|layers|-1], layers[|layers|-1];
      assert Staged(g, front) by {
        forall l, id, d | 0 <= l < |front| && id in front[l] && Edge(g, id, d) && d in g
          ensures d in Flatten(front[..l])
        {
          assert layers[l] == front[l] && layers[..l] == front[..l];
        }
      }
      NonEmptyStaged(g, front);
      FlattenNonEmpty(front);
      var kept := NonEmpty(front);
      if last != [] {
        var all := kept + [last];
        forall l, id, d | 0 <= l < |all| && id in all[l] && Edge(g, id, d) && d in g ensures d in Flatten(all[..l]) {
          assert all[..l] == kept[..l];
          if l == |kept| {
            assert kept[..l] == kept;
            assert id in layers[|front|] && layers[..|front|] == front;
          }
        }
      }
    }
  }

  lemma {:induction false} FlattenPrefix(layers: seq<seq<string>>, l: nat)
    requires l <= |layers|
    ensures Flatten(layers[..l]) <= Flatten(layers)
  {
    if l < |layers| {
      FlattenPrefix(layers[..|layers|-1], l);
      assert layers[..|layers|-1][..l] == layers[..l];
    } else {
      assert layers[..l] == layers;
    }
  }

  lemma FlattenStep(layers: seq<seq<string>>, l: nat)
    requires l < |layers|
    ensures Flatten(layers[..l+1]) == Flatten(layers[..l]) + layers[l]
  {
    assert layers[..l+1][..l] == layers[..l];
  }
}
