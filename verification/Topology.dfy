/**
 The vocabulary of a serial topology graph: node types with their ports, edges between ports,
 the exemption for a protocol master's receive port, and the depth-first search that the
 backend and the editor run for each edge.
 */
module Topology {
  import opened Wrappers
  import opened Digraph
  import opened NodeSettings

  type NodeId = string

  datatype NodeType =
    | Physical
    | Virtual
    | Remote
    | Bridge
    | Monitor
    | Filter
    | ScriptTransform
    | ScriptGenerator
    | ScriptAnalyzer
    | ModbusMaster
    | ModbusSlave
    | FecbusMaster
    | FecbusSlave
    | Unknown(name: string)

  /** Port names. OtherHandle stands for a name that no provider declares. */
  datatype Handle = In | Out | Rx | Tx | AIn | BIn | AOut | BOut | OtherHandle(name: string)

  datatype PortKind = BytesKind | FrameKind | RegistersKind | StatusKind | ControlKind

  datatype PortSpec = PortSpec(id: Handle, kind: PortKind, multiple: bool)

  datatype Provider = Provider(inputs: seq<PortSpec>, outputs: seq<PortSpec>)

  datatype Node = Node(id: NodeId, kind: NodeType, config: Config)

  datatype Edge = Edge(id: string, source: NodeId, sourceHandle: Handle, target: NodeId, targetHandle: Handle)

  datatype PortRef = PortRef(node: NodeId, handle: Handle)

  function BytesPort(id: Handle): PortSpec {
    PortSpec(id, BytesKind, false)
  }

  function ProviderOf(kind: NodeType): Option<Provider> {
    match kind
    case Physical | Virtual | Remote => Some(Provider([BytesPort(Tx)], [BytesPort(Rx)]))
    case Bridge => Some(Provider([BytesPort(AIn), BytesPort(BIn)], [BytesPort(AOut), BytesPort(BOut)]))
    case Monitor | ScriptAnalyzer => Some(Provider([BytesPort(In)], []))
    case Filter | ScriptTransform => Some(Provider([BytesPort(In)], [BytesPort(Out)]))
    case ScriptGenerator => Some(Provider([], [BytesPort(Out)]))
    case ModbusMaster | ModbusSlave | FecbusMaster | FecbusSlave =>
      Some(Provider([BytesPort(Rx)], [BytesPort(Tx)]))
    case Unknown(_) => None
  }

  function FindPort(ports: seq<PortSpec>, id: Handle): Option<PortSpec> {
    if ports == [] then None
    else if ports[0].id == id then Some(ports[0])
    else FindPort(ports[1..], id)
  }

  lemma {:induction false} FoundPortsAreBytes(ports: seq<PortSpec>, h: Handle)
    requires forall p :: p in ports ==> p.kind == BytesKind && !p.multiple
    ensures var p := FindPort(ports, h); p.Some? ==> p.value.kind == BytesKind && !p.value.multiple
  {
    if ports != [] {
      FoundPortsAreBytes(ports[1..], h);
    }
  }

  /** All ports carry bytes, and an input takes one edge. */
  lemma OutputIsBytes(kind: NodeType, h: Handle)
    requires ProviderOf(kind).Some?
    ensures var p := FindPort(ProviderOf(kind).value.outputs, h);
            p.Some? ==> p.value.kind == BytesKind
  {
    FoundPortsAreBytes(ProviderOf(kind).value.outputs, h);
  }

  lemma InputIsBytes(kind: NodeType, h: Handle)
    requires ProviderOf(kind).Some?
    ensures var p := FindPort(ProviderOf(kind).value.inputs, h);
            p.Some? ==> p.value.kind == BytesKind && !p.value.multiple
  {
    FoundPortsAreBytes(ProviderOf(kind).value.inputs, h);
  }

  predicate IsMaster(kind: NodeType) {
    kind == ModbusMaster || kind == FecbusMaster
  }

  /** An edge into a master's rx port: a master never emits when it receives. */
  predicate IsTerminal(types: map<NodeId, NodeType>, e: Edge) {
    e.targetHandle == Rx && e.target in types && IsMaster(types[e.target])
  }

  /** The node graph of all edges that do not end in a master's rx port. */
  function NodeGraph(types: map<NodeId, NodeType>, edges: seq<Edge>): set<(NodeId, NodeId)> {
    set e | e in edges && !IsTerminal(types, e) :: (e.source, e.target)
  }

  /** One of the edges ends in the draft's input port. */
  ghost predicate Taken(others: seq<Edge>, draft: Edge) {
    exists o :: o in others && o.target == draft.target && o.targetHandle == draft.targetHandle
  }

  method IsTaken(others: seq<Edge>, draft: Edge) returns (taken: bool)
    ensures taken <==> Taken(others, draft)
  {
    for i := 0 to |others|
      invariant forall k :: 0 <= k < i ==>
                              !(others[k].target == draft.target && others[k].targetHandle == draft.targetHandle)
    {
      if others[i].target == draft.target && others[i].targetHandle == draft.targetHandle {
        return true;
      }
    }
    return false;
  }

  function Without(edges: seq<Edge>, id: string): seq<Edge> {
    if edges == [] then []
    else if edges[0].id == id then Without(edges[1..], id)
    else [edges[0]] + Without(edges[1..], id)
  }

  lemma {:induction false} WithoutMembers(edges: seq<Edge>, id: string, e: Edge)
    ensures e in Without(edges, id) <==> e in edges && e.id != id
  {
    if edges != [] {
      assert edges == [edges[0]] + edges[1..];
      WithoutMembers(edges[1..], id, e);
    }
  }

  ghost predicate UniqueEdgeIds(edges: seq<Edge>) {
    forall i, j :: 0 <= i < j < |edges| ==> edges[i].id != edges[j].id
  }

  /** The type of each node: where two nodes share an id the first one counts. */
  function FirstTypes(nodes: seq<Node>): (types: map<NodeId, NodeType>)
    ensures forall n :: n in nodes ==> n.id in types
    ensures forall id :: id in types ==> exists n :: n in nodes && n.id == id && n.kind == types[id]
  {
    if nodes == [] then map[]
    else
      var n := nodes[|nodes| - 1];
      var before := FirstTypes(nodes[..|nodes| - 1]);
      if n.id in before then before else before[n.id := n.kind]
  }

  /** The pairs in which no node of the set stands. */
  function Avoiding(E: set<(NodeId, NodeId)>, skipped: set<NodeId>): set<(NodeId, NodeId)> {
    set p | p in E && p.0 !in skipped && p.1 !in skipped
  }

  /** The search has a right to this node: it passes over it, or comes to it along the edges. */
  ghost predicate Comes(E: set<(NodeId, NodeId)>, skipped: set<NodeId>, start: NodeId, v: NodeId) {
    v in skipped || (start !in skipped && Reach(E, start, v))
  }

  lemma ComesNext(types: map<NodeId, NodeType>, edges: seq<Edge>, skipped: set<NodeId>, start: NodeId, a: NodeId,
                  b: NodeId)
    requires (a, b) in NodeGraph(types, edges) && a !in skipped
    requires Comes(Avoiding(NodeGraph(types, edges), skipped), skipped, start, a)
    ensures Comes(Avoiding(NodeGraph(types, edges), skipped), skipped, start, b)
    ensures exists e :: e in edges && e.target == b
  {
    var E := Avoiding(NodeGraph(types, edges), skipped);
    if b !in skipped {
      ReachEdge(E, a, b);
      ReachTrans(E, start, a, b);
    }
  }

  lemma NothingIsLeft(E: set<(NodeId, NodeId)>, visited: set<NodeId>, a: NodeId, b: NodeId)
    requires a in visited && b !in visited
    requires forall e :: e in E && e.0 in visited ==> e.1 in visited
    ensures !Reach(E, a, b)
  {
    if Reach(E, a, b) {
      var p :| PathFromTo(E, p, a, b);
      ReachStaysInClosed(E, visited, p);
    }
  }

  /** Puts the targets of a node's edges on the stack. */
  method PushTargets(edges: seq<Edge>, types: map<NodeId, NodeType>, nodeId: NodeId, rest: seq<NodeId>)
    returns (stack: seq<NodeId>)
    ensures forall v :: v in stack <==> v in rest || (nodeId, v) in NodeGraph(types, edges)
  {
    stack := rest;
    for i := 0 to |edges|
      invariant forall v :: v in stack <==> v in rest || (nodeId, v) in NodeGraph(types, edges[..i])
    {
      var edge := edges[i];
      assert edges[..i + 1] == edges[..i] + [edge];
      if IsTerminal(types, edge) {
        continue;
      }
      if edge.source == nodeId {
        stack := stack + [edge.target];
      }
    }
    assert edges[..|edges|] == edges;
  }

  /**
   The depth-first search of both validators: from the target of the draft edge, along the
   given edges that are not terminal, it looks for the source of the draft edge. The editor's
   search passes over nodes without an id.
   */
  method CreatesCycle(draft: Edge, edges: seq<Edge>, types: map<NodeId, NodeType>, skipped: set<NodeId>)
    returns (found: bool)
    ensures found <==>
            draft.target !in skipped && Reach(Avoiding(NodeGraph(types, edges), skipped), draft.target, draft.source)
  {
    ghost var E := Avoiding(NodeGraph(types, edges), skipped);
    ghost var universe := {draft.target} + set e | e in edges :: e.target;
    var visited: set<NodeId> := {};
    var stack := [draft.target];
    ReachSelf(E, draft.target);
    assert Comes(E, skipped, draft.target, draft.target);
    while |stack| > 0
      invariant forall v :: v in stack || v in visited ==> v in universe
      invariant forall v :: v in stack ==> Comes(E, skipped, draft.target, v)
      invariant draft.target in skipped || draft.target in visited || draft.target in stack
      invariant draft.source !in visited
      invariant forall e :: e in E && e.0 in visited ==> e.1 in visited || e.1 in stack
      decreases universe - visited, |stack|
    {
      var nodeId := stack[|stack| - 1];
      ghost var popped := stack;
      stack := stack[..|stack| - 1];
      assert forall v :: v in popped ==> v == nodeId || v in stack;
      assert nodeId in popped;
      if nodeId in skipped || nodeId in visited {
        continue;
      }
      if nodeId == draft.source {
        return true;
      }
      visited := visited + {nodeId};
      ghost var rest := stack;
      stack := PushTargets(edges, types, nodeId, stack);
      forall v | v in stack
        ensures v in universe && Comes(E, skipped, draft.target, v)
      {
        if v !in rest {
          ComesNext(types, edges, skipped, draft.target, nodeId, v);
        }
      }
    }
    if draft.target !in skipped {
      NothingIsLeft(E, visited, draft.target, draft.source);
    }
    return false;
  }

  /**
   Run without the draft edge itself, the search answers whether that edge closes a cycle of the
   whole node graph.
   */
  lemma SearchWithoutDraft(types: map<NodeId, NodeType>, edges: seq<Edge>, draft: Edge)
    requires draft in edges && UniqueEdgeIds(edges)
    ensures var E := NodeGraph(types, edges);
            Reach(NodeGraph(types, Without(edges, draft.id)), draft.target, draft.source)
            <==> Reach(E, draft.target, draft.source)
  {
    var E, F := NodeGraph(types, edges), NodeGraph(types, Without(edges, draft.id));
    forall e: Edge
      ensures e in Without(edges, draft.id) <==> e in edges && e != draft
    {
      WithoutMembers(edges, draft.id, e);
    }
    ReachWithoutEdge(E, F, (draft.source, draft.target));
  }
}
