/**
 * The dependency graph that the netlist reader builds and the scheduler reads.
 *
 * Nodes live in an arena: the node with id i is at index i, and predecessor and
 * successor lists hold ids. This module also defines acyclicity (through a
 * ranking) and the critical-path priority that the scheduler computes.
 */
module Netlist {

  /** The type string of a node. `Untyped` is the empty string a node carries
      between its creation by a `.names` line and its classification. */
  datatype Kind = Untyped | Input | Output | And | Or | Not | Wire

  /** A node: name, type, id, operand-producing nodes and consumer nodes. */
  datatype Node = Node(name: string, kind: Kind, id: nat, preds: seq<nat>, succs: seq<nat>)

  function Max(a: int, b: int): int { if a < b then b else a }

  /** Every edge names a node of the arena. */
  ghost predicate EdgesInRange(nodes: seq<Node>)
  {
    && (forall v, k :: 0 <= v < |nodes| && 0 <= k < |nodes[v].preds| ==> nodes[v].preds[k] < |nodes|)
    && (forall v, k :: 0 <= v < |nodes| && 0 <= k < |nodes[v].succs| ==> nodes[v].succs[k] < |nodes|)
  }

  /** Predecessor and successor lists mirror each other. */
  ghost predicate Mutual(nodes: seq<Node>)
  {
    forall u, v {:trigger v in nodes[u].succs} {:trigger u in nodes[v].preds} ::
      0 <= u < |nodes| && 0 <= v < |nodes| ==> (v in nodes[u].succs <==> u in nodes[v].preds)
  }

  /** The shape the scheduler relies on. */
  ghost predicate WellFormed(nodes: seq<Node>)
  {
    EdgesInRange(nodes) && Mutual(nodes)
  }

  /** `rank` numbers the nodes with values below the node count so that every
      successor has a strictly smaller rank than the node it follows. */
  ghost predicate IsRanking(nodes: seq<Node>, rank: seq<nat>)
  {
    && |rank| == |nodes|
    && (forall v :: 0 <= v < |nodes| ==> rank[v] < |nodes|)
    && (forall v, k :: 0 <= v < |nodes| && 0 <= k < |nodes[v].succs| && nodes[v].succs[k] < |nodes| ==>
          rank[nodes[v].succs[k]] < rank[v])
  }

  /** A graph is acyclic exactly when such a ranking exists (a topological numbering). */
  ghost predicate Acyclic(nodes: seq<Node>)
  {
    exists rank :: IsRanking(nodes, rank)
  }

  /** Number of nodes on the longest successor path that starts at `v`, looking
      at most `fuel` nodes deep. */
  ghost function Height(nodes: seq<Node>, v: nat, fuel: nat): (h: nat)
    requires EdgesInRange(nodes) && v < |nodes|
    ensures h <= fuel && (fuel > 0 ==> 1 <= h)
    decreases fuel, 1
  {
    if fuel == 0 then 0 else 1 + MaxHeight(nodes, nodes[v].succs, fuel - 1)
  }

  /** The largest `Height` among the nodes of `ss` (0 for none). */
  ghost function MaxHeight(nodes: seq<Node>, ss: seq<nat>, fuel: nat): (m: nat)
    requires EdgesInRange(nodes) && forall k :: 0 <= k < |ss| ==> ss[k] < |nodes|
    ensures m <= fuel
    decreases fuel, 2, |ss|
  {
    if ss == [] then 0
    else Max(MaxHeight(nodes, ss[..|ss| - 1], fuel), Height(nodes, ss[|ss| - 1], fuel))
  }

  /** The critical-path priority of a node: the number of nodes on its longest
      path to a sink. No simple path has more nodes than the graph. */
  ghost function Priority(nodes: seq<Node>, v: nat): (p: nat)
    requires EdgesInRange(nodes) && v < |nodes|
    ensures 1 <= p <= |nodes|
  {
    Height(nodes, v, |nodes|)
  }

  /** `MaxHeight` is the maximum of the heights it ranges over. */
  lemma {:induction false} MaxHeightIsMax(nodes: seq<Node>, ss: seq<nat>, fuel: nat)
    requires EdgesInRange(nodes) && forall k :: 0 <= k < |ss| ==> ss[k] < |nodes|
    ensures forall k :: 0 <= k < |ss| ==> Height(nodes, ss[k], fuel) <= MaxHeight(nodes, ss, fuel)
    ensures ss != [] ==> exists k :: 0 <= k < |ss| && Height(nodes, ss[k], fuel) == MaxHeight(nodes, ss, fuel)
    decreases |ss|
  {
    if ss != [] {
      var init := ss[..|ss| - 1];
      MaxHeightIsMax(nodes, init, fuel);
      assert forall k :: 0 <= k < |init| ==> init[k] == ss[k];
      if init != [] && MaxHeight(nodes, init, fuel) >= Height(nodes, ss[|ss| - 1], fuel) {
        var k :| 0 <= k < |init| && Height(nodes, init[k], fuel) == MaxHeight(nodes, init, fuel);
        assert Height(nodes, ss[k], fuel) == MaxHeight(nodes, ss, fuel);
      }
    }
  }

  /** Once the fuel exceeds a node's rank, more fuel does not change its height. */
  lemma {:induction false} HeightStable(nodes: seq<Node>, rank: seq<nat>, v: nat, f: nat, f': nat)
    requires EdgesInRange(nodes) && IsRanking(nodes, rank) && v < |nodes|
    requires rank[v] < f && rank[v] < f'
    ensures Height(nodes, v, f) == Height(nodes, v, f')
    decreases f + f', 1
  {
    var ss := nodes[v].succs;
    forall k | 0 <= k < |ss|
      ensures rank[ss[k]] < f - 1 && rank[ss[k]] < f' - 1
    {
      assert rank[nodes[v].succs[k]] < rank[v];
    }
    MaxHeightStable(nodes, rank, ss, f - 1, f' - 1);
  }

  lemma {:induction false} MaxHeightStable(nodes: seq<Node>, rank: seq<nat>, ss: seq<nat>, f: nat, f': nat)
    requires EdgesInRange(nodes) && IsRanking(nodes, rank)
    requires forall k :: 0 <= k < |ss| ==> ss[k] < |nodes| && rank[ss[k]] < f && rank[ss[k]] < f'
    ensures MaxHeight(nodes, ss, f) == MaxHeight(nodes, ss, f')
    decreases f + f', 2, |ss|
  {
    if ss != [] {
      var init := ss[..|ss| - 1];
      assert forall k :: 0 <= k < |init| ==> init[k] == ss[k];
      MaxHeightStable(nodes, rank, init, f, f');
      HeightStable(nodes, rank, ss[|ss| - 1], f, f');
    }
  }

  /** On an acyclic graph a node's priority is one more than the largest priority
      of its successors (the DFS recurrence), reading those at full depth. */
  lemma {:induction false} PriorityUnfold(nodes: seq<Node>, rank: seq<nat>, v: nat)
    requires EdgesInRange(nodes) && IsRanking(nodes, rank) && v < |nodes|
    ensures Priority(nodes, v) == 1 + MaxHeight(nodes, nodes[v].succs, |nodes|)
  {
    var ss := nodes[v].succs;
    forall k | 0 <= k < |ss|
      ensures rank[ss[k]] < |nodes| - 1
    {
      assert rank[nodes[v].succs[k]] < rank[v];
    }
    MaxHeightStable(nodes, rank, ss, |nodes| - 1, |nodes|);
    assert Height(nodes, v, |nodes|) == 1 + MaxHeight(nodes, ss, |nodes| - 1);
  }

  /** Priorities on an acyclic graph: sinks get 1, every other node gets one more
      than the largest priority among its successors, so a node's priority is at
      least 1 and strictly greater than each successor's. */
  lemma {:induction false} PriorityOrdering(nodes: seq<Node>, v: nat)
    requires EdgesInRange(nodes) && Acyclic(nodes) && v < |nodes|
    ensures Priority(nodes, v) >= 1
    ensures nodes[v].succs == [] ==> Priority(nodes, v) == 1
    ensures forall k :: 0 <= k < |nodes[v].succs| ==> Priority(nodes, v) > Priority(nodes, nodes[v].succs[k])
    ensures nodes[v].succs != [] ==>
      exists k :: 0 <= k < |nodes[v].succs| && Priority(nodes, v) == Priority(nodes, nodes[v].succs[k]) + 1
  {
    var rank :| IsRanking(nodes, rank);
    var ss := nodes[v].succs;
    PriorityUnfold(nodes, rank, v);
    MaxHeightIsMax(nodes, ss, |nodes|);
  }
}
