/** The values a workflow graph is made of. */
module Tasks {
  import opened Graphs
  import opened Sequences

  datatype Option<+T> = None | Some(value: T)

  datatype Result<+T, +E> = Success(value: T) | Failure(error: E)

  /** What one agent run, or one skipped node, leaves behind. */
  datatype AgentResult = AgentResult(success: bool, response: string, error: string)

  /** A router either returns the id of a dependent (`""` is the code's "no choice") or raises. */
  datatype RouterOutcome = Returned(next: string) | Raised(message: string)

  datatype TaskNode = TaskNode(
    id: string,
    dependsOn: seq<string>,
    router: Option<AgentResult -> RouterOutcome>,
    requiresApproval: bool,
    optional: bool)

  type NodeMap = map<string, TaskNode>

  function Ids(nodes: seq<TaskNode>): (ids: seq<string>)
    ensures |ids| == |nodes|
    ensures forall i :: 0 <= i < |nodes| ==> ids[i] == nodes[i].id
  {
    seq(|nodes|, i requires 0 <= i < |nodes| => nodes[i].id)
  }

  /** `{n.id: n for n in nodes}`: the last node with an id wins. */
  function MapNodes(nodes: seq<TaskNode>): (m: NodeMap)
    ensures forall id :: id in m <==> id in Ids(nodes)
    ensures forall id :: id in m ==> m[id].id == id && m[id] in nodes
  {
    if nodes == [] then map[] else
      var last := nodes[|nodes|-1];
      var m := MapNodes(nodes[..|nodes|-1]);
      assert nodes == nodes[..|nodes|-1] + [last];
      assert Ids(nodes) == Ids(nodes[..|nodes|-1]) + [last.id];
      m[last.id := last]
  }

  /** Each node points at the ids it depends on; ids that name no node of the graph stay in. */
  function DependencyGraph(nm: NodeMap): (g: Graph)
    ensures g.Keys == nm.Keys
  {
    map id | id in nm :: nm[id].dependsOn
  }

  /** One past the first index of `x`, and zero where `x` does not occur. */
  function Position(s: seq<string>, x: string): (k: nat)
    ensures k <= |s|
    ensures k == 0 <==> x !in s
    ensures k > 0 ==> s[k-1] == x && x !in s[..k-1]
  {
    if s == [] then 0
    else if s[0] == x then 1
    else
      var k := Position(s[1..], x);
      assert k > 1 ==> s[..k] == [s[0]] + s[1..][..k-1];
      assert k == 1 ==> s[..1] == [s[0]];
      if k == 0 then 0 else k + 1
  }

  lemma PositionOfPrefix(s: seq<string>, t: seq<string>, x: string)
    requires x in s || x !in t
    ensures Position(s + t, x) == Position(s, x)
  {
    var k, k' := Position(s, x), Position(s + t, x);
    if k == 0 {
      assert x !in s + t;
    } else {
      assert x == (s + t)[k-1] && x in s + t;
      assert (s + t)[..k-1] == s[..k-1];
      assert (s + t)[k'-1] == x;
    }
  }

  lemma PositionInDistinct(s: seq<string>, i: nat)
    requires i < |s| && Distinct(s)
    ensures Position(s, s[i]) == i + 1
  {
  }

  lemma {:induction false} DistinctIdsAgree(nodes: seq<TaskNode>, i: nat)
    requires i < |nodes| && Distinct(Ids(nodes))
    ensures MapNodes(nodes)[nodes[i].id] == nodes[i]
  {
    hide Ids;
    var front := nodes[..|nodes|-1];
    var ids := Ids(nodes);
    assert ids[i] == nodes[i].id && ids[|nodes|-1] == nodes[|nodes|-1].id;
    if i < |front| {
      assert Ids(front) == ids[..|front|];
      DistinctIdsAgree(front, i);
    }
  }
}
