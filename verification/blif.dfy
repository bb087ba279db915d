/**
 * The BLIF netlist reader: `.inputs`, `.outputs`, `.names` and cover lines
 * build the dependency graph the scheduler reads, and a final pass types the
 * nodes no directive typed.
 *
 * The value-level functions (`Run`, `TypePass`, `Parse`) say what reading a
 * sequence of lines produces; the class `Graph` reads the lines in place and
 * is proved to produce exactly that.
 */
module Blif {
  import opened Netlist
  import opened BlifText

  /** The graph's containers: the node arena (id i at index i), the name map
      and the `inputs` and `outputs` lists (ids). */
  datatype GraphData = GraphData(nodes: seq<Node>, names: map<string, nat>, inputs: seq<nat>, outputs: seq<nat>)

  function EmptyGraph(): GraphData { GraphData([], map[], [], []) }

  /** Every name denotes a node of the arena. */
  ghost predicate NamesInRange(g: GraphData)
  {
    forall n :: n in g.names ==> g.names[n] < |g.nodes|
  }

  /** The shape the reader keeps: node i has id i, names and nodes correspond
      one to one, edges are in range and mutual, the lists hold node ids. */
  ghost predicate Shaped(g: GraphData)
  {
    && (forall i :: 0 <= i < |g.nodes| ==> g.nodes[i].id == i && g.nodes[i].name in g.names && g.names[g.nodes[i].name] == i)
    && (forall n :: n in g.names ==> g.names[n] < |g.nodes| && g.nodes[g.names[n]].name == n)
    && WellFormed(g.nodes)
    && (forall k :: 0 <= k < |g.inputs| ==> g.inputs[k] < |g.nodes|)
    && (forall k :: 0 <= k < |g.outputs| ==> g.outputs[k] < |g.nodes|)
  }

  /** The part of the shape that says which node a name denotes: node i's
      name maps back to i, and each name maps to a node of that name. */
  ghost predicate Indexed(g: GraphData)
  {
    && (forall i :: 0 <= i < |g.nodes| ==> g.nodes[i].name in g.names && g.names[g.nodes[i].name] == i)
    && (forall n :: n in g.names ==> g.names[n] < |g.nodes| && g.nodes[g.names[n]].name == n)
  }

  // ----------------------------------------------------------------------------
  // What each directive does to the graph
  // ----------------------------------------------------------------------------

  /** A new node called `name` of type `kind` with the next id and no edges. */
  function Create(g: GraphData, name: string, kind: Kind): (g': GraphData)
    ensures NamesInRange(g) ==> NamesInRange(g')
    ensures |g'.nodes| == |g.nodes| + 1 && g'.nodes[..|g.nodes|] == g.nodes
    ensures g'.nodes[|g.nodes|] == Node(name, kind, |g.nodes|, [], [])
    ensures g'.names == g.names[name := |g.nodes|]
  {
    GraphData(g.nodes + [Node(name, kind, |g.nodes|, [], [])], g.names[name := |g.nodes|], g.inputs, g.outputs)
  }

  /** One token of an `.inputs` line: a name not seen before becomes a new
      INPUT node, appended to `inputs`; the directive itself and known names
      change nothing. */
  function InputToken(g: GraphData, t: string): (g': GraphData)
    ensures NamesInRange(g) ==> NamesInRange(g')
    ensures t != ".inputs" ==> t in g'.names
    ensures forall n :: n in g.names ==> n in g'.names && g'.names[n] == g.names[n]
    ensures g'.outputs == g.outputs
  {
    if t == ".inputs" || t in g.names then g
    else
      var g' := Create(g, t, Input);
      g'.(inputs := g.inputs + [|g.nodes|])
  }

  /** The tokens of an `.inputs` line, in order. */
  function InputTokens(g: GraphData, ts: seq<string>): (g': GraphData)
    ensures NamesInRange(g) ==> NamesInRange(g')
    ensures g.names.Keys <= g'.names.Keys
    ensures forall t :: t in ts && t != ".inputs" ==> t in g'.names
    ensures forall n :: n in g.names ==> g'.names[n] == g.names[n]
    ensures g'.outputs == g.outputs
  {
    if ts == [] then g else InputToken(InputTokens(g, ts[..|ts| - 1]), ts[|ts| - 1])
  }

  /** One token of an `.outputs` line: a new name becomes an OUTPUT node, a
      known name's node is retyped OUTPUT; either way the node is appended to
      `outputs`. */
  function OutputToken(g: GraphData, t: string): (g': GraphData)
    requires NamesInRange(g)
    ensures NamesInRange(g')
    ensures t != ".outputs" ==> t in g'.names
    ensures forall n :: n in g.names ==> n in g'.names && g'.names[n] == g.names[n]
    ensures g'.inputs == g.inputs
  {
    if t == ".outputs" then g
    else if t !in g.names then
      var g' := Create(g, t, Output);
      g'.(outputs := g.outputs + [|g.nodes|])
    else
      var v := g.names[t];
      g.(nodes := g.nodes[v := g.nodes[v].(kind := Output)], outputs := g.outputs + [v])
  }

  /** The tokens of an `.outputs` line, in order. */
  function OutputTokens(g: GraphData, ts: seq<string>): (g': GraphData)
    requires NamesInRange(g)
    ensures NamesInRange(g')
    ensures g.names.Keys <= g'.names.Keys
    ensures forall t :: t in ts && t != ".outputs" ==> t in g'.names
    ensures forall n :: n in g.names ==> g'.names[n] == g.names[n]
    ensures g'.inputs == g.inputs
  {
    if ts == [] then g else OutputToken(OutputTokens(g, ts[..|ts| - 1]), ts[|ts| - 1])
  }

  /** The node called `name`, created untyped when the name is new. */
  function Ensure(g: GraphData, name: string): (g': GraphData)
    ensures NamesInRange(g) ==> NamesInRange(g')
    ensures name in g'.names && g'.names.Keys == g.names.Keys + {name}
    ensures forall n :: n in g.names ==> g'.names[n] == g.names[n]
  {
    if name in g.names then g else Create(g, name, Untyped)
  }

  /** The edge `u -> v`: `v` appended to `u`'s successors and `u` to `v`'s
      predecessors. */
  function Connect(nodes: seq<Node>, u: nat, v: nat): (nodes': seq<Node>)
    requires u < |nodes| && v < |nodes|
    ensures |nodes'| == |nodes|
  {
    var n1 := nodes[u := nodes[u].(succs := nodes[u].succs + [v])];
    n1[v := n1[v].(preds := n1[v].preds + [u])]
  }

  /** The operands of a `.names` line in order, each created untyped when new
      and connected to the gate. */
  function GateInputs(g: GraphData, gate: string, ins: seq<string>): (g': GraphData)
    requires NamesInRange(g) && gate in g.names
    ensures NamesInRange(g') && gate in g'.names && g'.names[gate] == g.names[gate]
    ensures g.names.Keys <= g'.names.Keys && forall t :: t in ins ==> t in g'.names
    ensures forall n :: n in g.names ==> g'.names[n] == g.names[n]
    ensures g'.inputs == g.inputs && g'.outputs == g.outputs
  {
    if ins == [] then g
    else
      var g1 := GateInputs(g, gate, ins[..|ins| - 1]);
      var g2 := Ensure(g1, ins[|ins| - 1]);
      assert ins == ins[..|ins| - 1] + [ins[|ins| - 1]];
      g2.(nodes := Connect(g2.nodes, g2.names[ins[|ins| - 1]], g2.names[gate]))
  }

  /** A `.names` line with tokens `ts` (the directive left out): the last token
      is the gate, created untyped when new, and the others are its operands. */
  function NamesTokens(g: GraphData, ts: seq<string>): (g': GraphData)
    requires NamesInRange(g) && ts != []
    ensures NamesInRange(g') && forall t :: t in ts ==> t in g'.names
    ensures forall n :: n in g.names ==> n in g'.names && g'.names[n] == g.names[n]
    ensures g'.inputs == g.inputs && g'.outputs == g.outputs
  {
    var gate := ts[|ts| - 1];
    GateInputs(Ensure(g, gate), gate, ts[..|ts| - 1])
  }

  /** The type the first token of a cover row gives its gate. */
  function CoverKind(t: string): (k: Kind)
    ensures k == Not <==> |t| == 1
    ensures k == Or <==> |t| != 1 && '-' in t
    ensures k == And <==> |t| != 1 && '-' !in t
  {
    if |t| == 1 then Not else if '-' in t then Or else And
  }

  /** The graph with node `v` given type `kind`. */
  function SetKind(g: GraphData, v: nat, kind: Kind): GraphData
    requires v < |g.nodes|
  {
    g.(nodes := g.nodes[v := g.nodes[v].(kind := kind)])
  }

  // ----------------------------------------------------------------------------
  // Reading logical lines
  // ----------------------------------------------------------------------------

  /** The reader's state between logical lines: the graph, the gate whose first
      cover row is still awaited (empty for none) and whether `.end` was read. */
  datatype ReadState = ReadState(graph: GraphData, lastGate: string, ended: bool)

  ghost predicate Consistent(s: ReadState)
  {
    NamesInRange(s.graph) && (s.lastGate != [] ==> s.lastGate in s.graph.names)
  }

  /** One logical line. */
  function LineStep(s: ReadState, line: string): (s': ReadState)
    requires Consistent(s)
    ensures Consistent(s')
    ensures s'.ended <==> s.ended || Classify(line) == EndLine
    ensures s.graph.names.Keys <= s'.graph.names.Keys
    ensures s'.lastGate != s.lastGate ==> Classify(line) == NamesLine || Classify(line) == CoverLine
  {
    var ts := Tokens(line);
    match Classify(line)
    case ModelLine => s
    case InputsLine => s.(graph := InputTokens(s.graph, ts))
    case OutputsLine => s.(graph := OutputTokens(s.graph, ts))
    case NamesLine =>
      var gateTokens := Without(ts, ".names");
      if gateTokens == [] then s
      else s.(graph := NamesTokens(s.graph, gateTokens), lastGate := gateTokens[|gateTokens| - 1])
    case EndLine => s.(ended := true)
    case CoverLine =>
      if s.lastGate != [] && ts != [] then
        s.(graph := SetKind(s.graph, s.graph.names[s.lastGate], CoverKind(ts[0])), lastGate := [])
      else s
  }

  /** The logical lines read in order from an empty graph, up to and including
      the first `.end` line. */
  function Run(lines: seq<string>): (s: ReadState)
    ensures Consistent(s)
    ensures s.ended <==> exists i :: 0 <= i < |lines| && Classify(lines[i]) == EndLine
  {
    if lines == [] then ReadState(EmptyGraph(), [], false)
    else
      var s := Run(lines[..|lines| - 1]);
      if s.ended then s else LineStep(s, lines[|lines| - 1])
  }

  // ----------------------------------------------------------------------------
  // The final typing pass
  // ----------------------------------------------------------------------------

  /** The type an untyped node gets: INPUT without predecessors, otherwise
      OUTPUT without successors, otherwise WIRE. */
  function Retype(n: Node): (r: Node)
    ensures r.kind != Untyped
    ensures n.kind != Untyped ==> r == n
    ensures n.kind == Untyped ==> (r.kind == Input <==> n.preds == [])
    ensures n.kind == Untyped ==> (r.kind == Output <==> n.preds != [] && n.succs == [])
    ensures n.kind == Untyped ==> (r.kind == Wire <==> n.preds != [] && n.succs != [])
    ensures r.name == n.name && r.id == n.id && r.preds == n.preds && r.succs == n.succs
  {
    if n.kind != Untyped then n
    else if n.preds == [] then n.(kind := Input)
    else if n.succs == [] then n.(kind := Output)
    else n.(kind := Wire)
  }

  function RetypeAll(nodes: seq<Node>): (r: seq<Node>)
    ensures |r| == |nodes|
    ensures forall i :: 0 <= i < |r| ==> r[i].kind != Untyped
  {
    if nodes == [] then [] else RetypeAll(nodes[..|nodes| - 1]) + [Retype(nodes[|nodes| - 1])]
  }

  /** The ids of the untyped nodes among `nodes` that become inputs, in id order. */
  function NewInputs(nodes: seq<Node>): seq<nat>
  {
    if nodes == [] then []
    else
      var n := nodes[|nodes| - 1];
      NewInputs(nodes[..|nodes| - 1]) + (if n.kind == Untyped && n.preds == [] then [|nodes| - 1] else [])
  }

  /** The ids of the untyped nodes among `nodes` that become outputs, in id order. */
  function NewOutputs(nodes: seq<Node>): seq<nat>
  {
    if nodes == [] then []
    else
      var n := nodes[|nodes| - 1];
      NewOutputs(nodes[..|nodes| - 1]) + (if n.kind == Untyped && n.preds != [] && n.succs == [] then [|nodes| - 1] else [])
  }

  /** The final pass over all nodes. */
  function TypePass(g: GraphData): (g': GraphData)
    ensures |g'.nodes| == |g.nodes| && g'.names == g.names
    ensures forall i :: 0 <= i < |g'.nodes| ==> g'.nodes[i].kind != Untyped
    ensures g.inputs <= g'.inputs && g.outputs <= g'.outputs
  {
    GraphData(RetypeAll(g.nodes), g.names, g.inputs + NewInputs(g.nodes), g.outputs + NewOutputs(g.nodes))
  }

  /** What reading the physical lines `raw` into an empty graph produces. */
  function Parse(raw: seq<string>): (g: GraphData)
    ensures NamesInRange(g)
    ensures forall i :: 0 <= i < |g.nodes| ==> g.nodes[i].kind != Untyped
  {
    TypePass(Run(Logical(raw).logical).graph)
  }

  // ----------------------------------------------------------------------------
  // The shape is kept
  // ----------------------------------------------------------------------------

  /** Two arenas with the same names, ids and edges, node by node. */
  ghost predicate SameEdges(a: seq<Node>, b: seq<Node>)
  {
    |a| == |b| &&
    forall i :: 0 <= i < |a| ==>
      a[i].name == b[i].name && a[i].id == b[i].id && a[i].preds == b[i].preds && a[i].succs == b[i].succs
  }

  /** Changing node types keeps the shape. */
  lemma KindsKeepShape(g: GraphData, g': GraphData)
    requires Shaped(g) && SameEdges(g.nodes, g'.nodes) && g'.names == g.names
    requires forall k :: 0 <= k < |g'.inputs| ==> g'.inputs[k] < |g'.nodes|
    requires forall k :: 0 <= k < |g'.outputs| ==> g'.outputs[k] < |g'.nodes|
    ensures Shaped(g')
  {
    forall u, k | 0 <= u < |g'.nodes| && 0 <= k < |g'.nodes[u].succs| ensures g'.nodes[u].succs[k] < |g'.nodes| {
      assert g'.nodes[u].succs == g.nodes[u].succs;
    }
    forall u, k | 0 <= u < |g'.nodes| && 0 <= k < |g'.nodes[u].preds| ensures g'.nodes[u].preds[k] < |g'.nodes| {
      assert g'.nodes[u].preds == g.nodes[u].preds;
    }
    forall u, v | 0 <= u < |g'.nodes| && 0 <= v < |g'.nodes|
      ensures v in g'.nodes[u].succs <==> u in g'.nodes[v].preds
    {
      assert g'.nodes[u].succs == g.nodes[u].succs && g'.nodes[v].preds == g.nodes[v].preds;
    }
  }

  /** A node without edges added at the end keeps edges in range and mutual. */
  lemma AppendKeepsEdges(nodes: seq<Node>, n: Node)
    requires WellFormed(nodes) && n.preds == [] && n.succs == []
    ensures WellFormed(nodes + [n])
  {
    var nodes' := nodes + [n];
    var N := |nodes|;
    assert forall i :: 0 <= i < N ==> nodes'[i] == nodes[i];
    forall u, v | 0 <= u < |nodes'| && 0 <= v < |nodes'|
      ensures v in nodes'[u].succs <==> u in nodes'[v].preds
    {
      if u == N && v < N {
        assert forall k :: 0 <= k < |nodes[v].preds| ==> nodes[v].preds[k] < N;
      } else if v == N && u < N {
        assert forall k :: 0 <= k < |nodes[u].succs| ==> nodes[u].succs[k] < N;
      }
    }
  }

  /** A node created under a new name keeps the shape. */
  lemma CreateKeepsShape(g: GraphData, name: string, kind: Kind)
    requires Shaped(g) && name !in g.names
    ensures Shaped(Create(g, name, kind))
  {
    var g' := Create(g, name, kind);
    AppendKeepsEdges(g.nodes, Node(name, kind, |g.nodes|, [], []));
    assert forall i :: 0 <= i < |g.nodes| ==> g'.nodes[i] == g.nodes[i];
  }

  /** The nodes of `Connect(nodes, u, v)`: only `u`'s successors and `v`'s
      predecessors grow, by `v` and by `u`. */
  lemma ConnectNodes(nodes: seq<Node>, u: nat, v: nat)
    requires u < |nodes| && v < |nodes|
    ensures forall a :: 0 <= a < |nodes| ==>
      && Connect(nodes, u, v)[a].name == nodes[a].name
      && Connect(nodes, u, v)[a].kind == nodes[a].kind
      && Connect(nodes, u, v)[a].id == nodes[a].id
      && Connect(nodes, u, v)[a].succs == nodes[a].succs + (if a == u then [v] else [])
      && Connect(nodes, u, v)[a].preds == nodes[a].preds + (if a == v then [u] else [])
  {
  }

  /** An edge between two nodes keeps edges in range. */
  lemma ConnectInRange(nodes: seq<Node>, u: nat, v: nat)
    requires EdgesInRange(nodes) && u < |nodes| && v < |nodes|
    ensures EdgesInRange(Connect(nodes, u, v))
  {
    var n' := Connect(nodes, u, v);
    ConnectNodes(nodes, u, v);
    forall a, k | 0 <= a < |n'| && 0 <= k < |n'[a].succs| ensures n'[a].succs[k] < |n'| {
      if k < |nodes[a].succs| {
        assert n'[a].succs[k] == nodes[a].succs[k];
      }
    }
    forall a, k | 0 <= a < |n'| && 0 <= k < |n'[a].preds| ensures n'[a].preds[k] < |n'| {
      if k < |nodes[a].preds| {
        assert n'[a].preds[k] == nodes[a].preds[k];
      }
    }
  }

  /** An edge between two nodes keeps the edge lists mutual. */
  lemma ConnectMutual(nodes: seq<Node>, u: nat, v: nat)
    requires Mutual(nodes) && u < |nodes| && v < |nodes|
    ensures Mutual(Connect(nodes, u, v))
  {
    var n' := Connect(nodes, u, v);
    ConnectNodes(nodes, u, v);
    forall a, b | 0 <= a < |n'| && 0 <= b < |n'|
      ensures b in n'[a].succs <==> a in n'[b].preds
    {
      assert b in nodes[a].succs <==> a in nodes[b].preds;
    }
  }

  /** An edge between two nodes keeps the shape. */
  lemma ConnectKeepsShape(g: GraphData, u: nat, v: nat)
    requires Shaped(g) && u < |g.nodes| && v < |g.nodes|
    ensures Shaped(g.(nodes := Connect(g.nodes, u, v)))
  {
    ConnectNodes(g.nodes, u, v);
    ConnectInRange(g.nodes, u, v);
    ConnectMutual(g.nodes, u, v);
  }

  lemma {:induction false} InputTokensKeepShape(g: GraphData, ts: seq<string>)
    requires Shaped(g)
    ensures Shaped(InputTokens(g, ts))
  {
    if ts != [] {
      var g1 := InputTokens(g, ts[..|ts| - 1]);
      InputTokensKeepShape(g, ts[..|ts| - 1]);
      var t := ts[|ts| - 1];
      if t != ".inputs" && t !in g1.names {
        CreateKeepsShape(g1, t, Input);
      }
    }
  }

  lemma {:induction false} OutputTokensKeepShape(g: GraphData, ts: seq<string>)
    requires Shaped(g)
    ensures Shaped(OutputTokens(g, ts))
  {
    if ts != [] {
      var g1 := OutputTokens(g, ts[..|ts| - 1]);
      OutputTokensKeepShape(g, ts[..|ts| - 1]);
      var t := ts[|ts| - 1];
      if t != ".outputs" {
        if t !in g1.names {
          CreateKeepsShape(g1, t, Output);
        } else {
          KindsKeepShape(g1, OutputToken(g1, t));
        }
      }
    }
  }

  lemma EnsureKeepsShape(g: GraphData, name: string)
    requires Shaped(g)
    ensures Shaped(Ensure(g, name))
  {
    if name !in g.names {
      CreateKeepsShape(g, name, Untyped);
    }
  }

  lemma {:induction false} GateInputsKeepShape(g: GraphData, gate: string, ins: seq<string>)
    requires Shaped(g) && gate in g.names
    ensures Shaped(GateInputs(g, gate, ins))
  {
    if ins != [] {
      var g1 := GateInputs(g, gate, ins[..|ins| - 1]);
      GateInputsKeepShape(g, gate, ins[..|ins| - 1]);
      var g2 := Ensure(g1, ins[|ins| - 1]);
      EnsureKeepsShape(g1, ins[|ins| - 1]);
      ConnectKeepsShape(g2, g2.names[ins[|ins| - 1]], g2.names[gate]);
    }
  }

  lemma NamesLineKeepsShape(g: GraphData, gateTokens: seq<string>)
    requires Shaped(g) && gateTokens != []
    ensures Shaped(NamesTokens(g, gateTokens))
  {
    var gate := gateTokens[|gateTokens| - 1];
    EnsureKeepsShape(g, gate);
    GateInputsKeepShape(Ensure(g, gate), gate, gateTokens[..|gateTokens| - 1]);
  }

  lemma SetKindKeepsShape(g: GraphData, v: nat, kind: Kind)
    requires Shaped(g) && v < |g.nodes|
    ensures Shaped(SetKind(g, v, kind))
  {
    KindsKeepShape(g, SetKind(g, v, kind));
  }

  /** Every kind of logical line keeps the shape. */
  lemma LineStepKeepsShape(s: ReadState, line: string)
    requires Consistent(s) && Shaped(s.graph)
    ensures Shaped(LineStep(s, line).graph)
  {
    var ts := Tokens(line);
    match Classify(line)
    case ModelLine =>
    case InputsLine => InputTokensKeepShape(s.graph, ts);
    case OutputsLine => OutputTokensKeepShape(s.graph, ts);
    case NamesLine =>
      if Without(ts, ".names") != [] {
        NamesLineKeepsShape(s.graph, Without(ts, ".names"));
      }
    case EndLine =>
    case CoverLine =>
      if s.lastGate != [] && ts != [] {
        SetKindKeepsShape(s.graph, s.graph.names[s.lastGate], CoverKind(ts[0]));
      }
  }

  /** Whatever the lines, the graph read has node i at index i with id i, a
      one-to-one correspondence between names and nodes, and mutual edges
      between existing nodes. */
  lemma {:induction false} RunKeepsShape(lines: seq<string>)
    ensures Shaped(Run(lines).graph)
  {
    if lines != [] {
      RunKeepsShape(lines[..|lines| - 1]);
      var s := Run(lines[..|lines| - 1]);
      if !s.ended {
        LineStepKeepsShape(s, lines[|lines| - 1]);
      }
    }
  }

  lemma {:induction false} RetypeAllNodes(nodes: seq<Node>)
    ensures forall i :: 0 <= i < |nodes| ==> RetypeAll(nodes)[i] == Retype(nodes[i])
  {
    if nodes != [] {
      RetypeAllNodes(nodes[..|nodes| - 1]);
    }
  }

  /** The ids the final pass appends to `inputs`: in increasing order, exactly
      the untyped nodes without predecessors. */
  lemma {:induction false} NewInputsExact(nodes: seq<Node>)
    ensures forall v: nat :: v in NewInputs(nodes) <==> v < |nodes| && nodes[v].kind == Untyped && nodes[v].preds == []
    ensures forall i, j :: 0 <= i < j < |NewInputs(nodes)| ==> NewInputs(nodes)[i] < NewInputs(nodes)[j]
  {
    if nodes != [] {
      var init := nodes[..|nodes| - 1];
      NewInputsExact(init);
      assert forall v :: 0 <= v < |init| ==> init[v] == nodes[v];
      var r := NewInputs(nodes);
      forall i, j | 0 <= i < j < |r| ensures r[i] < r[j] {
        if j >= |NewInputs(init)| {
          assert r[i] in NewInputs(init);
        }
      }
    }
  }

  /** The ids the final pass appends to `outputs`: in increasing order, exactly
      the untyped nodes with predecessors but no successors. */
  lemma {:induction false} NewOutputsExact(nodes: seq<Node>)
    ensures forall v: nat :: v in NewOutputs(nodes) <==>
      v < |nodes| && nodes[v].kind == Untyped && nodes[v].preds != [] && nodes[v].succs == []
    ensures forall i, j :: 0 <= i < j < |NewOutputs(nodes)| ==> NewOutputs(nodes)[i] < NewOutputs(nodes)[j]
  {
    if nodes != [] {
      var init := nodes[..|nodes| - 1];
      NewOutputsExact(init);
      assert forall v :: 0 <= v < |init| ==> init[v] == nodes[v];
      var r := NewOutputs(nodes);
      forall i, j | 0 <= i < j < |r| ensures r[i] < r[j] {
        if j >= |NewOutputs(init)| {
          assert r[i] in NewOutputs(init);
        }
      }
    }
  }

  /** After the final pass no node is untyped; a node that was untyped is an
      INPUT exactly when it has no predecessors, an OUTPUT exactly when it has
      predecessors but no successors, and a WIRE otherwise; typed nodes, names
      and edges are unchanged. */
  lemma TypePassTypesAll(g: GraphData)
    requires Shaped(g)
    ensures Shaped(TypePass(g))
    ensures forall i :: 0 <= i < |g.nodes| ==> TypePass(g).nodes[i].kind != Untyped
    ensures forall i :: 0 <= i < |g.nodes| && g.nodes[i].kind != Untyped ==> TypePass(g).nodes[i] == g.nodes[i]
    ensures forall i :: 0 <= i < |g.nodes| && g.nodes[i].kind == Untyped ==>
      && (TypePass(g).nodes[i].kind == Input <==> g.nodes[i].preds == [])
      && (TypePass(g).nodes[i].kind == Output <==> g.nodes[i].preds != [] && g.nodes[i].succs == [])
      && (TypePass(g).nodes[i].kind == Wire <==> g.nodes[i].preds != [] && g.nodes[i].succs != [])
  {
    RetypeAllNodes(g.nodes);
    NewInputsExact(g.nodes);
    NewOutputsExact(g.nodes);
    var g' := TypePass(g);
    forall k | 0 <= k < |g'.inputs| ensures g'.inputs[k] < |g'.nodes| {
      if k >= |g.inputs| {
        assert g'.inputs[k] in NewInputs(g.nodes);
      }
    }
    forall k | 0 <= k < |g'.outputs| ensures g'.outputs[k] < |g'.nodes| {
      if k >= |g.outputs| {
        assert g'.outputs[k] in NewOutputs(g.nodes);
      }
    }
    KindsKeepShape(g, g');
  }

  /** The graph the reader delivers has the shape the scheduler relies on, and
      no node is left untyped. */
  lemma ParseShaped(raw: seq<string>)
    ensures Shaped(Parse(raw)) && WellFormed(Parse(raw).nodes)
    ensures forall i :: 0 <= i < |Parse(raw).nodes| ==> Parse(raw).nodes[i].kind != Untyped
  {
    var g := Run(Logical(raw).logical).graph;
    RunKeepsShape(Logical(raw).logical);
    TypePassTypesAll(g);
  }

  // ----------------------------------------------------------------------------
  // What each directive does
  // ----------------------------------------------------------------------------

  /** The ids of the names `ts`, in order. */
  function IdsOf(names: map<string, nat>, ts: seq<string>): (ids: seq<nat>)
    requires forall t :: t in ts ==> t in names
    ensures |ids| == |ts|
  {
    if ts == [] then [] else IdsOf(names, ts[..|ts| - 1]) + [names[ts[|ts| - 1]]]
  }

  /** An `.inputs` line creates an INPUT node without edges for each name not
      seen before, with the next ids in order, and appends exactly those ids to
      `inputs`; known names and existing nodes are left alone. */
  lemma {:induction false} InputTokensEffect(g: GraphData, ts: seq<string>)
    ensures var g' := InputTokens(g, ts);
      && |g.nodes| <= |g'.nodes| && g'.nodes[..|g.nodes|] == g.nodes
      && g'.names.Keys == g.names.Keys + (set t | t in ts && t != ".inputs")
      && (forall n :: n in g.names ==> g'.names[n] == g.names[n])
      && (forall i :: |g.nodes| <= i < |g'.nodes| ==>
            g'.nodes[i].kind == Input && g'.nodes[i].preds == [] && g'.nodes[i].succs == [])
      && |g'.inputs| == |g.inputs| + |g'.nodes| - |g.nodes| && g'.inputs[..|g.inputs|] == g.inputs
      && (forall k :: |g.inputs| <= k < |g'.inputs| ==> g'.inputs[k] == |g.nodes| + k - |g.inputs|)
      && g'.outputs == g.outputs
  {
    if ts != [] {
      var init := ts[..|ts| - 1];
      InputTokensEffect(g, init);
      assert ts == init + [ts[|ts| - 1]];
      var g1 := InputTokens(g, init);
      assert g1.nodes[..|g.nodes|] == g.nodes;
    }
  }

  /** An `.outputs` line adds its new names, keeps the ids of known ones, and
      appends the node of every name of the line to `outputs` in order, known
      or not. */
  lemma {:induction false} OutputTokensLists(g: GraphData, ts: seq<string>)
    requires NamesInRange(g)
    ensures var g' := OutputTokens(g, ts);
      && (forall t :: t in ts && t != ".outputs" ==> t in g'.names)
      && g'.outputs == g.outputs + IdsOf(g'.names, Without(ts, ".outputs"))
      && g'.inputs == g.inputs
  {
    if ts != [] {
      var init, t := ts[..|ts| - 1], ts[|ts| - 1];
      OutputTokensLists(g, init);
      assert ts == init + [t];
      var g1 := OutputTokens(g, init);
      var g' := OutputToken(g1, t);
      OutputTokenLists(g1, t);
      var w := Without(init, ".outputs");
      IdsOfGrow(g1.names, g'.names, w);
      var tail := if t == ".outputs" then [] else [g'.names[t]];
      assert g'.outputs == (g.outputs + IdsOf(g'.names, w)) + tail;
      if t != ".outputs" {
        assert Without(ts, ".outputs") == w + [t];
        assert (w + [t])[..|w|] == w;
        assert IdsOf(g'.names, w + [t]) == IdsOf(g'.names, w) + tail;
      } else {
        assert Without(ts, ".outputs") == w;
        assert IdsOf(g'.names, w) + tail == IdsOf(g'.names, w);
      }
    }
  }

  /** An `.outputs` line adds exactly its new names and keeps the ids of the
      known ones. */
  lemma {:induction false} OutputTokensNames(g: GraphData, ts: seq<string>)
    requires NamesInRange(g)
    ensures var g' := OutputTokens(g, ts);
      && g'.names.Keys == g.names.Keys + (set t | t in ts && t != ".outputs")
      && (forall n :: n in g.names ==> g'.names[n] == g.names[n])
  {
    if ts != [] {
      var init, t := ts[..|ts| - 1], ts[|ts| - 1];
      OutputTokensNames(g, init);
      assert ts == init + [t];
      OutputTokenLists(OutputTokens(g, init), t);
    }
  }

  lemma OutputTokenLists(g: GraphData, t: string)
    requires NamesInRange(g)
    ensures var g' := OutputToken(g, t);
      && g'.names.Keys == g.names.Keys + (if t == ".outputs" then {} else {t})
      && (forall n :: n in g.names ==> g'.names[n] == g.names[n])
      && g'.outputs == g.outputs + (if t == ".outputs" then [] else [g'.names[t]])
      && g'.inputs == g.inputs
  {
  }

  /** An `.outputs` line makes the node of every name on it an OUTPUT: a known
      one is retyped in place, a new one is created without edges with the next
      id; nothing else changes. */
  lemma {:induction false} OutputTokensNodes(g: GraphData, ts: seq<string>)
    requires Indexed(g)
    ensures var g' := OutputTokens(g, ts);
      && |g.nodes| <= |g'.nodes|
      && (forall i :: 0 <= i < |g.nodes| ==>
            g'.nodes[i] == if g.nodes[i].name in ts && g.nodes[i].name != ".outputs"
                           then g.nodes[i].(kind := Output) else g.nodes[i])
      && (forall i :: |g.nodes| <= i < |g'.nodes| ==>
            g'.nodes[i].kind == Output && g'.nodes[i].preds == [] && g'.nodes[i].succs == [])
  {
    if ts != [] {
      var init, t := ts[..|ts| - 1], ts[|ts| - 1];
      assert ts == init + [t];
      OutputTokensNodes(g, init);
      OutputTokensIndexed(g, init);
      var g1 := OutputTokens(g, init);
      var g' := OutputToken(g1, t);
      assert OutputTokens(g, ts) == g';
      OutputTokenNodes(g1, t);
      forall i | 0 <= i < |g.nodes|
        ensures g'.nodes[i] == if g.nodes[i].name in ts && g.nodes[i].name != ".outputs"
                               then g.nodes[i].(kind := Output) else g.nodes[i]
      {
        var n := g.nodes[i];
        assert g1.nodes[i].name == n.name;
        assert n.name in ts <==> n.name in init || n.name == t;
      }
      forall i | |g.nodes| <= i < |g'.nodes|
        ensures g'.nodes[i].kind == Output && g'.nodes[i].preds == [] && g'.nodes[i].succs == []
      {
        if i < |g1.nodes| {
          assert g1.nodes[i].kind == Output && g1.nodes[i].preds == [] && g1.nodes[i].succs == [];
        }
      }
    }
  }

  lemma {:induction false} OutputTokensIndexed(g: GraphData, ts: seq<string>)
    requires Indexed(g)
    ensures Indexed(OutputTokens(g, ts))
  {
    if ts != [] {
      OutputTokensIndexed(g, ts[..|ts| - 1]);
      OutputTokenIndexed(OutputTokens(g, ts[..|ts| - 1]), ts[|ts| - 1]);
    }
  }

  lemma OutputTokenIndexed(g: GraphData, t: string)
    requires Indexed(g)
    ensures Indexed(OutputToken(g, t))
  {
    var g' := OutputToken(g, t);
    if t != ".outputs" && t !in g.names {
      CreateIndexed(g, t, Output);
      assert g'.(outputs := g.outputs) == Create(g, t, Output);
    } else if t != ".outputs" {
      SetKindIndexed(g, g.names[t], Output);
      assert g'.(outputs := g.outputs) == SetKind(g, g.names[t], Output);
    }
  }

  /** A node created under a new name keeps the name map indexing the arena. */
  lemma CreateIndexed(g: GraphData, name: string, kind: Kind)
    requires Indexed(g) && name !in g.names
    ensures Indexed(Create(g, name, kind))
  {
    var g' := Create(g, name, kind);
    assert forall i :: 0 <= i < |g.nodes| ==> g'.nodes[i] == g.nodes[i];
  }

  /** Retyping a node keeps the name map indexing the arena. */
  lemma SetKindIndexed(g: GraphData, v: nat, kind: Kind)
    requires Indexed(g) && v < |g.nodes|
    ensures Indexed(SetKind(g, v, kind))
  {
    var g' := SetKind(g, v, kind);
    assert forall i :: 0 <= i < |g.nodes| ==> g'.nodes[i].name == g.nodes[i].name;
  }


  lemma OutputTokenNodes(g: GraphData, t: string)
    requires Indexed(g)
    ensures var g' := OutputToken(g, t);
      && |g.nodes| <= |g'.nodes|
      && (forall i :: 0 <= i < |g.nodes| ==>
            g'.nodes[i] == if g.nodes[i].name == t && t != ".outputs" then g.nodes[i].(kind := Output) else g.nodes[i])
      && (forall i :: |g.nodes| <= i < |g'.nodes| ==>
            g'.nodes[i].kind == Output && g'.nodes[i].preds == [] && g'.nodes[i].succs == [])
  {
    if t != ".outputs" && t in g.names {
      var v := g.names[t];
      forall i | 0 <= i < |g.nodes| && g.nodes[i].name == t ensures i == v {
      }
    }
  }

  /** Ids read through a name map that only grew stay the same. */
  lemma {:induction false} IdsOfGrow(names: map<string, nat>, names': map<string, nat>, ts: seq<string>)
    requires forall t :: t in ts ==> t in names
    requires forall n :: n in names ==> n in names' && names'[n] == names[n]
    ensures IdsOf(names', ts) == IdsOf(names, ts)
  {
    if ts != [] {
      IdsOfGrow(names, names', ts[..|ts| - 1]);
    }
  }

  /** The operands of a `.names` line add exactly the operand names that were
      not yet known. */
  lemma {:induction false} GateInputsKeys(g: GraphData, gate: string, ins: seq<string>)
    requires NamesInRange(g) && gate in g.names
    ensures forall n :: n in GateInputs(g, gate, ins).names <==> n in g.names || n in ins
  {
    if ins != [] {
      var init, t := ins[..|ins| - 1], ins[|ins| - 1];
      assert ins == init + [t];
      GateInputsKeys(g, gate, init);
      GateInputsLast(g, gate, ins);
    }
  }

  /** The operands of a `.names` line: the gate's predecessors grow by the
      operands' ids in order. */
  lemma {:induction false} GateInputsPreds(g: GraphData, gate: string, ins: seq<string>)
    requires NamesInRange(g) && gate in g.names
    ensures var g' := GateInputs(g, gate, ins); var gid := g.names[gate];
      && (forall t :: t in ins ==> t in g'.names)
      && g'.nodes[gid].preds == g.nodes[gid].preds + IdsOf(g'.names, ins)
  {
    if ins != [] {
      var init, t := ins[..|ins| - 1], ins[|ins| - 1];
      var gid := g.names[gate];
      GateInputsPreds(g, gate, init);
      assert ins == init + [t];
      var g1 := GateInputs(g, gate, init);
      var g2 := Ensure(g1, t);
      var u := g2.names[t];
      var g' := g2.(nodes := Connect(g2.nodes, u, gid));
      assert GateInputs(g, gate, ins) == g';
      assert g2.nodes[gid] == g1.nodes[gid];
      ConnectNodes(g2.nodes, u, gid);
      IdsOfGrow(g1.names, g'.names, init);
      assert (init + [t])[..|init|] == init;
      assert IdsOf(g'.names, ins) == IdsOf(g'.names, init) + [u];
    }
  }

  /** The successor list of node `x`, empty for a node not yet created. */
  function SuccsOf(g: GraphData, x: nat): seq<nat>
  {
    if x < |g.nodes| then g.nodes[x].succs else []
  }

  /** The predecessor list of node `x`, empty for a node not yet created. */
  function PredsOf(g: GraphData, x: nat): seq<nat>
  {
    if x < |g.nodes| then g.nodes[x].preds else []
  }

  /** `v` once for each occurrence of `x` in `ids`. */
  function Occurrences(ids: seq<nat>, x: nat, v: nat): (r: seq<nat>)
    ensures |r| == multiset(ids)[x]
    ensures forall k :: 0 <= k < |r| ==> r[k] == v
  {
    if ids == [] then []
    else
      assert ids == ids[..|ids| - 1] + [ids[|ids| - 1]];
      Occurrences(ids[..|ids| - 1], x, v) + (if ids[|ids| - 1] == x then [v] else [])
  }

  /** The ids of names that denote nodes below `bound` are below `bound`. */
  lemma {:induction false} IdsOfBelow(names: map<string, nat>, ts: seq<string>, bound: nat)
    requires forall t :: t in ts ==> t in names && names[t] < bound
    ensures forall k :: 0 <= k < |ts| ==> IdsOf(names, ts)[k] < bound
  {
    if ts != [] {
      IdsOfBelow(names, ts[..|ts| - 1], bound);
    }
  }

  lemma AppendAssoc(a: seq<nat>, b: seq<nat>, c: seq<nat>)
    ensures (a + b) + c == a + (b + c)
  {
  }

  /** One more id appends `v` when it is `x`. */
  lemma OccurrencesAppend(ids: seq<nat>, u: nat, x: nat, v: nat)
    ensures Occurrences(ids + [u], x, v) == Occurrences(ids, x, v) + (if u == x then [v] else [])
  {
    assert (ids + [u])[..|ids|] == ids;
  }

  /** One operand: its node's successors grow by the gate, and no other
      successor list and no predecessor list but the gate's changes. */
  lemma OperandStepLists(g: GraphData, gate: string, t: string)
    requires NamesInRange(g) && gate in g.names
    ensures var g' := OperandStep(g, gate, t); var gid := g.names[gate];
      && |g.nodes| <= |g'.nodes| && t in g'.names
      && (forall n :: n in g.names ==> n in g'.names && g'.names[n] == g.names[n])
      && forall x :: 0 <= x < |g'.nodes| ==>
        && g'.nodes[x].succs == SuccsOf(g, x) + (if x == g'.names[t] then [gid] else [])
        && (x != gid ==> g'.nodes[x].preds == PredsOf(g, x))
  {
    var g2 := Ensure(g, t);
    var gid := g.names[gate];
    ConnectNodes(g2.nodes, g2.names[t], gid);
    assert forall x :: 0 <= x < |g.nodes| ==> g2.nodes[x] == g.nodes[x];
  }

  /** The lists after operands `ids` and then one more operand `u`. */
  lemma ListsCombine(g: GraphData, g1: GraphData, g': GraphData, ids: seq<nat>, u: nat, gid: nat)
    requires |g.nodes| <= |g1.nodes| <= |g'.nodes|
    requires forall k :: 0 <= k < |ids| ==> ids[k] < |g1.nodes|
    requires forall x :: 0 <= x < |g1.nodes| ==>
      && g1.nodes[x].succs == SuccsOf(g, x) + Occurrences(ids, x, gid)
      && (x != gid ==> g1.nodes[x].preds == PredsOf(g, x))
    requires forall x :: 0 <= x < |g'.nodes| ==>
      && g'.nodes[x].succs == SuccsOf(g1, x) + (if x == u then [gid] else [])
      && (x != gid ==> g'.nodes[x].preds == PredsOf(g1, x))
    ensures forall x :: 0 <= x < |g'.nodes| ==>
      && g'.nodes[x].succs == SuccsOf(g, x) + Occurrences(ids + [u], x, gid)
      && (x != gid ==> g'.nodes[x].preds == PredsOf(g, x))
  {
    forall x | 0 <= x < |g'.nodes|
      ensures g'.nodes[x].succs == SuccsOf(g, x) + Occurrences(ids + [u], x, gid)
    {
      OccurrencesAppend(ids, u, x, gid);
      if x >= |g1.nodes| {
        assert x !in ids;
      }
      AppendAssoc(SuccsOf(g, x), Occurrences(ids, x, gid), if x == u then [gid] else []);
    }
  }

  /** The operands of a `.names` line: each node's successor list is its old
      one followed by the gate once for each time the node occurs among the
      operands, and every node but the gate keeps its predecessors. */
  lemma {:induction false} GateInputsSuccs(g: GraphData, gate: string, ins: seq<string>)
    requires NamesInRange(g) && gate in g.names
    ensures |g.nodes| <= |GateInputs(g, gate, ins).nodes|
    ensures var g' := GateInputs(g, gate, ins); var gid := g.names[gate];
      forall x :: 0 <= x < |g'.nodes| ==>
        && g'.nodes[x].succs == SuccsOf(g, x) + Occurrences(IdsOf(g'.names, ins), x, gid)
        && (x != gid ==> g'.nodes[x].preds == PredsOf(g, x))
  {
    if ins != [] {
      var init, t := ins[..|ins| - 1], ins[|ins| - 1];
      assert ins == init + [t];
      var gid := g.names[gate];
      GateInputsSuccs(g, gate, init);
      var g1 := GateInputs(g, gate, init);
      GateInputsLast(g, gate, ins);
      var g' := OperandStep(g1, gate, t);
      OperandStepLists(g1, gate, t);
      var u := g'.names[t];
      var ids := IdsOf(g1.names, init);
      IdsOfGrow(g1.names, g'.names, init);
      assert IdsOf(g'.names, ins) == ids + [u];
      IdsOfBelow(g1.names, init, |g1.nodes|);
      ListsCombine(g, g1, g', ids, u, gid);
      assert GateInputs(g, gate, ins) == g';
    }
  }

  /** The operands of a `.names` line: new ones are created untyped with the
      next ids, and no node changes name, id or type. */
  lemma {:induction false} GateInputsFrame(g: GraphData, gate: string, ins: seq<string>)
    requires NamesInRange(g) && gate in g.names
    ensures var g' := GateInputs(g, gate, ins);
      && |g.nodes| <= |g'.nodes|
      && (forall i :: 0 <= i < |g.nodes| ==>
            g'.nodes[i].name == g.nodes[i].name && g'.nodes[i].id == g.nodes[i].id && g'.nodes[i].kind == g.nodes[i].kind)
      && (forall i :: |g.nodes| <= i < |g'.nodes| ==> g'.nodes[i].kind == Untyped)
      && g'.inputs == g.inputs && g'.outputs == g.outputs
  {
    if ins != [] {
      var init, t := ins[..|ins| - 1], ins[|ins| - 1];
      GateInputsFrame(g, gate, init);
      var g1 := GateInputs(g, gate, init);
      var g2 := Ensure(g1, t);
      assert forall i :: 0 <= i < |g1.nodes| ==> g2.nodes[i] == g1.nodes[i];
      ConnectNodes(g2.nodes, g2.names[t], g2.names[gate]);
    }
  }

  /** The operands of a `.names` line change no node but the gate and the
      operands' own nodes. */
  lemma {:induction false} GateInputsUntouched(g: GraphData, gate: string, ins: seq<string>)
    requires NamesInRange(g) && gate in g.names
    ensures |g.nodes| <= |GateInputs(g, gate, ins).nodes|
    ensures var g' := GateInputs(g, gate, ins);
      forall i :: 0 <= i < |g.nodes| && i != g.names[gate] && i !in IdsOf(g'.names, ins) ==> g'.nodes[i] == g.nodes[i]
  {
    GateInputsFrame(g, gate, ins);
    if ins != [] {
      var init, t := ins[..|ins| - 1], ins[|ins| - 1];
      GateInputsUntouched(g, gate, init);
      GateInputsFrame(g, gate, init);
      var g1 := GateInputs(g, gate, init);
      var g2 := Ensure(g1, t);
      var u := g2.names[t];
      var g' := g2.(nodes := Connect(g2.nodes, u, g2.names[gate]));
      assert GateInputs(g, gate, ins) == g';
      assert forall i :: 0 <= i < |g1.nodes| ==> g2.nodes[i] == g1.nodes[i];
      ConnectNodes(g2.nodes, u, g2.names[gate]);
      IdsOfGrow(g1.names, g'.names, init);
      assert IdsOf(g'.names, ins) == IdsOf(g1.names, init) + [u];
    }
  }

  /** Creating a node adds no edge: every node's lists stay as they were. */
  lemma EnsureLists(g: GraphData, name: string)
    ensures forall x :: SuccsOf(Ensure(g, name), x) == SuccsOf(g, x) && PredsOf(Ensure(g, name), x) == PredsOf(g, x)
  {
  }

  /** A `.names` line with tokens `ts` (the directive left out): the gate
      (the last token) keeps its node, or gets a new untyped one with the next
      id; no node but the gate and the operands changes, no node changes
      name, id or type, and new nodes are untyped. */
  lemma NamesTokensEffect(g: GraphData, ts: seq<string>)
    requires NamesInRange(g) && ts != []
    ensures var g' := NamesTokens(g, ts); var gate := ts[|ts| - 1]; var ins := ts[..|ts| - 1];
      var gid := g'.names[gate];
      && |g.nodes| <= |g'.nodes| && (forall t :: t in ins ==> t in g'.names)
      && (gate in g.names ==> gid == g.names[gate])
      && (gate !in g.names ==> gid == |g.nodes|)
      && (forall i :: 0 <= i < |g.nodes| && i != gid && i !in IdsOf(g'.names, ins) ==> g'.nodes[i] == g.nodes[i])
      && (forall i :: 0 <= i < |g.nodes| ==>
            g'.nodes[i].name == g.nodes[i].name && g'.nodes[i].id == g.nodes[i].id && g'.nodes[i].kind == g.nodes[i].kind)
      && (forall i :: |g.nodes| <= i < |g'.nodes| ==> g'.nodes[i].kind == Untyped)
      && g'.inputs == g.inputs && g'.outputs == g.outputs
  {
    var gate, ins := ts[|ts| - 1], ts[..|ts| - 1];
    var g0 := Ensure(g, gate);
    GateInputsFrame(g0, gate, ins);
    GateInputsUntouched(g0, gate, ins);
  }

  /** The edges a `.names` line adds: the gate's predecessors grow by the
      operands' ids in order, each node's successors grow by the gate once for
      each time the node occurs among the operands, and no other node's
      predecessors change. */
  lemma NamesTokensLists(g: GraphData, ts: seq<string>)
    requires NamesInRange(g) && ts != []
    ensures var g' := NamesTokens(g, ts); var gate := ts[|ts| - 1]; var ins := ts[..|ts| - 1];
      var gid := g'.names[gate];
      && |g.nodes| <= |g'.nodes| && gid < |g'.nodes|
      && g'.nodes[gid].preds == PredsOf(g, gid) + IdsOf(g'.names, ins)
      && (forall x :: 0 <= x < |g'.nodes| ==>
            && g'.nodes[x].succs == SuccsOf(g, x) + Occurrences(IdsOf(g'.names, ins), x, gid)
            && (x != gid ==> g'.nodes[x].preds == PredsOf(g, x)))
  {
    var gate, ins := ts[|ts| - 1], ts[..|ts| - 1];
    var g0 := Ensure(g, gate);
    assert NamesTokens(g, ts) == GateInputs(g0, gate, ins);
    EnsureLists(g, gate);
    GateInputsPreds(g0, gate, ins);
    GateInputsSuccs(g0, gate, ins);
  }


  /** A cover row while a gate awaits one: that gate's node takes the type its
      first token gives, the gate no longer awaits a row, and nothing else
      changes. A row with no gate awaiting, or with no tokens, changes nothing. */
  lemma CoverSetsType(s: ReadState, line: string)
    requires Consistent(s) && Classify(line) == CoverLine
    ensures var s' := LineStep(s, line); var ts := Tokens(line);
      if s.lastGate != [] && ts != [] then
        var v := s.graph.names[s.lastGate];
        && |s'.graph.nodes| == |s.graph.nodes|
        && s'.graph.nodes[v].kind == CoverKind(ts[0])
        && s'.graph.nodes[v] == s.graph.nodes[v].(kind := s'.graph.nodes[v].kind)
        && (forall i :: 0 <= i < |s.graph.nodes| && i != v ==> s'.graph.nodes[i] == s.graph.nodes[i])
        && s'.graph.names == s.graph.names && s'.graph.inputs == s.graph.inputs && s'.graph.outputs == s.graph.outputs
        && s'.lastGate == [] && s'.ended == s.ended
      else s' == s
  {
    var ts := Tokens(line);
    if s.lastGate != [] && ts != [] {
      var v := s.graph.names[s.lastGate];
      assert LineStep(s, line) == s.(graph := SetKind(s.graph, v, CoverKind(ts[0])), lastGate := []);
    }
  }

  /** Only the first row of a gate's cover sets its type: a second cover row
      right after a row with tokens changes nothing. */
  lemma CoverFirstRowOnly(s: ReadState, row1: string, row2: string)
    requires Consistent(s) && Classify(row1) == CoverLine && Classify(row2) == CoverLine && Tokens(row1) != []
    ensures LineStep(LineStep(s, row1), row2) == LineStep(s, row1)
  {
    CoverSetsType(s, row1);
    CoverSetsType(LineStep(s, row1), row2);
  }

  // ----------------------------------------------------------------------------
  // Reading further lines after `.end`
  // ----------------------------------------------------------------------------

  /** Once `.end` has been read, no later logical line changes anything. */
  lemma {:induction false} EndStops(lines: seq<string>, more: seq<string>)
    requires lines <= more && Run(lines).ended
    ensures Run(more) == Run(lines)
    decreases |more|
  {
    if |more| > |lines| {
      var init := more[..|more| - 1];
      assert lines <= init;
      EndStops(lines, init);
    } else {
      assert more == lines;
    }
  }

  /** Physical lines after the one that completes `.end` are never read. */
  lemma ParseStopsAtEnd(raw: seq<string>, n: nat)
    requires n <= |raw| && Run(Logical(raw[..n]).logical).ended
    ensures Parse(raw) == Parse(raw[..n])
  {
    LogicalPrefix(raw, n);
    EndStops(Logical(raw[..n]).logical, Logical(raw).logical);
  }

  /** One more logical line read before `.end`. */
  lemma RunStep(lines: seq<string>, line: string)
    requires !Run(lines).ended
    ensures Run(lines + [line]) == LineStep(Run(lines), line)
  {
    assert (lines + [line])[..|lines|] == lines;
  }

  /** One more physical line. */
  lemma LogicalStep(raw: seq<string>, i: nat)
    requires i < |raw|
    ensures Logical(raw[..i + 1]) == NextLine(Logical(raw[..i]), raw[i])
  {
    assert raw[..i + 1][..i] == raw[..i];
  }

  /** One node of the final pass: node `i` retyped, and its id appended to
      `inputs` or `outputs` when it becomes an INPUT or an OUTPUT. */
  function TypeOne(g: GraphData, i: nat): (g': GraphData)
    requires i < |g.nodes|
    ensures |g'.nodes| == |g.nodes|
  {
    var n := g.nodes[i];
    GraphData(g.nodes[i := Retype(n)], g.names,
              g.inputs + (if n.kind == Untyped && n.preds == [] then [i] else []),
              g.outputs + (if n.kind == Untyped && n.preds != [] && n.succs == [] then [i] else []))
  }

  /** The final pass over the first `i` nodes. */
  function PartialPass(g: GraphData, i: nat): (g': GraphData)
    requires i <= |g.nodes|
    ensures |g'.nodes| == |g.nodes|
  {
    GraphData(RetypeAll(g.nodes[..i]) + g.nodes[i..], g.names,
              g.inputs + NewInputs(g.nodes[..i]), g.outputs + NewOutputs(g.nodes[..i]))
  }

  /** The final pass advanced over node `i`. */
  lemma PartialPassStep(g: GraphData, i: nat)
    requires i < |g.nodes|
    ensures PartialPass(g, i + 1) == TypeOne(PartialPass(g, i), i)
  {
    var nodes := g.nodes;
    assert nodes[..i + 1][..i] == nodes[..i];
    var a := RetypeAll(nodes[..i]);
    assert (a + nodes[i..])[i] == nodes[i];
    assert (a + nodes[i..])[i := Retype(nodes[i])] == a + [Retype(nodes[i])] + nodes[i + 1..];
  }

  /** The final pass over no nodes changes nothing; over all of them it is `TypePass`. */
  lemma PartialPassEnds(g: GraphData)
    ensures PartialPass(g, 0) == g
    ensures PartialPass(g, |g.nodes|) == TypePass(g)
  {
    assert g.nodes[..0] == [] && g.nodes[0..] == g.nodes;
    assert g.nodes[..|g.nodes|] == g.nodes && g.nodes[|g.nodes|..] == [];
  }

  /** One operand `t` of a `.names` line for `gate`: created untyped when new,
      then connected to the gate. */
  function OperandStep(g: GraphData, gate: string, t: string): (g': GraphData)
    requires NamesInRange(g) && gate in g.names
    ensures NamesInRange(g') && gate in g'.names && g'.names.Keys == g.names.Keys + {t}
  {
    var g2 := Ensure(g, t);
    g2.(nodes := Connect(g2.nodes, g2.names[t], g2.names[gate]))
  }

  /** The last operand of a nonempty list is one operand step. */
  lemma GateInputsLast(g: GraphData, gate: string, ins: seq<string>)
    requires NamesInRange(g) && gate in g.names && ins != []
    ensures GateInputs(g, gate, ins) == OperandStep(GateInputs(g, gate, ins[..|ins| - 1]), gate, ins[|ins| - 1])
  {
  }

  /** One more operand of a `.names` line. */
  lemma GateInputsStep(g: GraphData, gate: string, ins: seq<string>, k: nat)
    requires NamesInRange(g) && gate in g.names && k < |ins|
    ensures GateInputs(g, gate, ins[..k + 1]) == OperandStep(GateInputs(g, gate, ins[..k]), gate, ins[k])
  {
    assert ins[..k + 1][..k] == ins[..k];
    GateInputsLast(g, gate, ins[..k + 1]);
  }

  // ----------------------------------------------------------------------------
  // The reader, in place
  // ----------------------------------------------------------------------------

  /** The graph the reader fills: the node arena (the node with id i at index
      i, standing for the owned `Node` objects), the name map and the `inputs`
      and `outputs` lists. */
  class Graph {
    var nodes: seq<Node>
    var names: map<string, nat>
    var inputs: seq<nat>
    var outputs: seq<nat>

    /** The graph's containers as a value. */
    function State(): GraphData
      reads this
    {
      GraphData(nodes, names, inputs, outputs)
    }

    constructor()
      ensures State() == EmptyGraph()
    {
      nodes, names, inputs, outputs := [], map[], [], [];
    }

    /** `new Node(name, kind, nodeId++)` stored under `name`. */
    method NewNode(name: string, kind: Kind) returns (id: nat)
      modifies this
      ensures State() == Create(old(State()), name, kind) && id == old(|nodes|)
    {
      id := |nodes|;
      nodes := nodes + [Node(name, kind, id, [], [])];
      names := names[name := id];
    }

    /** The tokens of an `.inputs` line. */
    method ReadInputs(ts: seq<string>)
      modifies this
      ensures State() == InputTokens(old(State()), ts)
    {
      var k := 0;
      while k < |ts|
        invariant 0 <= k <= |ts|
        invariant State() == InputTokens(old(State()), ts[..k])
      {
        var token := ts[k];
        if token != ".inputs" && token !in names {
          var id := NewNode(token, Input);
          inputs := inputs + [id];
        }
        assert ts[..k + 1][..k] == ts[..k];
        k := k + 1;
      }
      assert ts[..k] == ts;
    }

    /** The tokens of an `.outputs` line. */
    method ReadOutputs(ts: seq<string>)
      requires NamesInRange(State())
      modifies this
      ensures State() == OutputTokens(old(State()), ts)
    {
      var k := 0;
      while k < |ts|
        invariant 0 <= k <= |ts|
        invariant State() == OutputTokens(old(State()), ts[..k])
      {
        var token := ts[k];
        if token != ".outputs" {
          if token !in names {
            var id := NewNode(token, Output);
            outputs := outputs + [id];
          } else {
            var v := names[token];
            nodes := nodes[v := nodes[v].(kind := Output)];
            outputs := outputs + [v];
          }
        }
        assert ts[..k + 1][..k] == ts[..k];
        k := k + 1;
      }
      assert ts[..k] == ts;
    }

    /** The tokens of a `.names` line other than the directive itself. */
    method GateTokens(ts: seq<string>) returns (gateTokens: seq<string>)
      ensures gateTokens == Without(ts, ".names")
    {
      gateTokens := [];
      var k := 0;
      while k < |ts|
        invariant 0 <= k <= |ts|
        invariant gateTokens == Without(ts[..k], ".names")
      {
        if ts[k] != ".names" {
          gateTokens := gateTokens + [ts[k]];
        }
        assert ts[..k + 1][..k] == ts[..k];
        k := k + 1;
      }
      assert ts[..k] == ts;
    }

    /** The edge `u -> v`: `v` pushed on `u`'s successors, then `u` on `v`'s
        predecessors. */
    method AddEdge(u: nat, v: nat)
      requires u < |nodes| && v < |nodes|
      modifies this
      ensures nodes == Connect(old(nodes), u, v)
      ensures names == old(names) && inputs == old(inputs) && outputs == old(outputs)
    {
      nodes := nodes[u := nodes[u].(succs := nodes[u].succs + [v])];
      nodes := nodes[v := nodes[v].(preds := nodes[v].preds + [u])];
    }

    /** One operand of a gate: created untyped when new, then connected. */
    method ConnectOperand(gate: string, inputName: string)
      requires NamesInRange(State()) && gate in names
      modifies this
      ensures State() == OperandStep(old(State()), gate, inputName)
    {
      if inputName !in names {
        var _ := NewNode(inputName, Untyped);
      }
      AddEdge(names[inputName], names[gate]);
    }

    /** A gate and its operands: the gate is the last token, created untyped
        when new, and every earlier token is connected to it. */
    method ReadGate(gateTokens: seq<string>)
      requires NamesInRange(State()) && gateTokens != []
      modifies this
      ensures State() == NamesTokens(old(State()), gateTokens)
    {
      var gate := gateTokens[|gateTokens| - 1];
      if gate !in names {
        var _ := NewNode(gate, Untyped);
      }
      ghost var g0 := State();
      var ins := gateTokens[..|gateTokens| - 1];
      assert ins[..0] == [];
      var k := 0;
      while k < |ins|
        invariant 0 <= k <= |ins|
        invariant State() == GateInputs(g0, gate, ins[..k])
      {
        ConnectOperand(gate, ins[k]);
        GateInputsStep(g0, gate, ins, k);
        k := k + 1;
        assert State() == GateInputs(g0, gate, ins[..k]);
      }
      assert ins[..k] == ins;
    }

    /** Node `v` given type `kind`. */
    method SetType(v: nat, kind: Kind)
      requires v < |nodes|
      modifies this
      ensures State() == SetKind(old(State()), v, kind)
    {
      nodes := nodes[v := nodes[v].(kind := kind)];
    }

    /** One logical line, given the gate awaiting its cover row; also says
        whether the line was `.end`. */
    method ReadLine(line: string, lastGate: string) returns (lastGate': string, ended: bool)
      requires Consistent(ReadState(State(), lastGate, false))
      modifies this
      ensures ReadState(State(), lastGate', ended) == LineStep(ReadState(old(State()), lastGate, false), line)
    {
      var ts := Tokens(line);
      lastGate', ended := lastGate, false;
      if StartsWith(line, ".model") {
      } else if StartsWith(line, ".inputs") {
        ReadInputs(ts);
      } else if StartsWith(line, ".outputs") {
        ReadOutputs(ts);
      } else if StartsWith(line, ".names") {
        var gateTokens := GateTokens(ts);
        if gateTokens != [] {
          ReadGate(gateTokens);
          lastGate' := gateTokens[|gateTokens| - 1];
        }
      } else if StartsWith(line, ".end") {
        ended := true;
      } else if lastGate != [] && ts != [] {
        SetType(names[lastGate], CoverKind(ts[0]));
        lastGate' := [];
      }
    }

    /** One node of the final pass. */
    method TypeNode(i: nat)
      requires i < |nodes|
      modifies this
      ensures State() == TypeOne(old(State()), i)
    {
      var node := nodes[i];
      if node.kind == Untyped {
        if node.preds == [] {
          nodes := nodes[i := node.(kind := Input)];
          inputs := inputs + [i];
        } else if node.succs == [] {
          nodes := nodes[i := node.(kind := Output)];
          outputs := outputs + [i];
        } else {
          nodes := nodes[i := node.(kind := Wire)];
        }
      }
    }

    /** The final pass: every untyped node becomes INPUT without predecessors,
        else OUTPUT without successors, else WIRE, and the new inputs and
        outputs are appended to their lists. */
    method TypeUntyped()
      modifies this
      ensures State() == TypePass(old(State()))
    {
      PartialPassEnds(State());
      var i := 0;
      while i < |nodes|
        invariant 0 <= i <= |nodes| == |old(nodes)|
        invariant State() == PartialPass(old(State()), i)
      {
        PartialPassStep(old(State()), i);
        TypeNode(i);
        i := i + 1;
      }
    }

    /** Reads the physical lines `raw` of a BLIF file into this empty graph:
        comments are dropped, a line ending in a backslash is joined to the
        next, reading stops after `.end`, and the final pass types the rest. */
    method ParseBlif(raw: seq<string>)
      requires State() == EmptyGraph()
      modifies this
      ensures State() == Parse(raw)
    {
      var lastGate: string := [];
      var held: string := [];
      var ended := false;
      var i := 0;
      while i < |raw| && !ended
        invariant 0 <= i <= |raw|
        invariant Logical(raw[..i]).held == held
        invariant ReadState(State(), lastGate, ended) == Run(Logical(raw[..i]).logical)
      {
        var line := StripComment(raw[i]);
        if held != [] {
          line := held + " " + line;
          held := [];
        }
        LogicalStep(raw, i);
        if Continues(line) {
          held := line[..|line| - 1];
        } else {
          RunStep(Logical(raw[..i]).logical, line);
          lastGate, ended := ReadLine(line, lastGate);
        }
        i := i + 1;
      }
      if ended {
        LogicalPrefix(raw, i);
        EndStops(Logical(raw[..i]).logical, Logical(raw).logical);
      } else {
        assert raw[..i] == raw;
      }
      TypeUntyped();
    }
  }
}
