/**
 The synchronous delivery engine of a running topology: receive and emit call each other along the
 routes with no depth limit. The specification functions say what one injection does to every node;
 the class performs it step by step.

 What scripts, filters and protocol slaves answer, and what writes to ports and sockets return, is
 given by a World: any function of the injections and deliveries so far, so nodes may keep state of
 their own, and the same question may be answered differently at each moment.
 */
module DeliveryEngine {
  import opened Wrappers
  import opened Digraph
  import opened Topology
  import opened RuntimeValidator

  type Bytes = seq<bv8>

  datatype Topo = Topo(types: map<NodeId, NodeType>, edges: seq<Edge>)

  datatype Frame = Frame(data: Bytes, sent: bool)

  datatype NodeState = NodeState(rxBytes: nat, txBytes: nat, buffer: Bytes, frames: seq<Frame>)

  datatype Delivery = Delivery(port: PortRef, data: Bytes, depth: nat)

  /** The turn counts the injections, so that no two answers of the world are asked for at the same moment. */
  datatype State = State(nodes: map<NodeId, NodeState>, log: seq<Delivery>, turn: nat)

  datatype WriteResult = Unbound | Wrote(n: nat) | WriteFailed(n: nat)

  datatype World = World(react: (nat, seq<Delivery>, PortRef, Bytes) -> Option<Bytes>,
                         write: (nat, seq<Delivery>, NodeId, Bytes) -> WriteResult)

  datatype Outcome = Outcome(st: State, failed: Option<NodeId>)

  /** What one node does with a payload before anything is passed on, and what it passes on. */
  datatype Absorbed = Absorbed(st: State, forward: Option<(Handle, Bytes)>, failed: Option<NodeId>)

  ghost predicate Sound(g: Topo) {
    && AllEndsWellFormed(g.types, g.edges)
    && SingleSource(g.edges)
    && Acyclic(NodeGraph(g.types, g.edges))
  }

  lemma AcceptedIsSound(req: Request)
    requires Accepted(req)
    ensures Sound(Topo(TypesOf(req.nodes), req.edges))
  {
  }

  // ---------------------------------------------------------------------------------------------
  // Node state
  // ---------------------------------------------------------------------------------------------

  function AddRx(st: State, n: NodeId, k: nat): State
    requires n in st.nodes
  {
    st.(nodes := st.nodes[n := st.nodes[n].(rxBytes := st.nodes[n].rxBytes + k)])
  }

  function AddTx(st: State, n: NodeId, k: nat): State
    requires n in st.nodes
  {
    st.(nodes := st.nodes[n := st.nodes[n].(txBytes := st.nodes[n].txBytes + k)])
  }

  function AppendBuffer(st: State, n: NodeId, data: Bytes): State
    requires n in st.nodes
  {
    st.(nodes := st.nodes[n := st.nodes[n].(buffer := st.nodes[n].buffer + data)])
  }

  function AppendFrame(st: State, n: NodeId, data: Bytes, sent: bool): State
    requires n in st.nodes
  {
    st.(nodes := st.nodes[n := st.nodes[n].(frames := st.nodes[n].frames + [Frame(data, sent)])])
  }

  // ---------------------------------------------------------------------------------------------
  // Routes and the termination measure
  // ---------------------------------------------------------------------------------------------

  /** The input ports that an output port feeds, in edge order. */
  function Targets(edges: seq<Edge>, o: PortRef): seq<PortRef> {
    if edges == [] then []
    else if edges[0].source == o.node && edges[0].sourceHandle == o.handle then
      [PortRef(edges[0].target, edges[0].targetHandle)] + Targets(edges[1..], o)
    else Targets(edges[1..], o)
  }

  lemma {:induction false} TargetsMembers(edges: seq<Edge>, o: PortRef, t: PortRef)
    ensures t in Targets(edges, o) <==>
            exists e :: e in edges && e.source == o.node && e.sourceHandle == o.handle
                        && e.target == t.node && e.targetHandle == t.handle
  {
    if edges != [] {
      assert edges == [edges[0]] + edges[1..];
      TargetsMembers(edges[1..], o, t);
    }
  }

  predicate IsTerminalPort(g: Topo, p: PortRef) {
    p.handle == Rx && p.node in g.types && IsMaster(g.types[p.node])
  }

  ghost function Level(g: Topo, n: NodeId): nat {
    1 + Rank(NodeGraph(g.types, g.edges), g.types.Keys, n)
  }

  /** How deep a cascade can go below an input port. A master's rx is a leaf wherever it stands. */
  ghost function Height(g: Topo, p: PortRef): nat {
    if IsTerminalPort(g, p) then 0 else Level(g, p.node)
  }

  lemma TargetIsLower(g: Topo, o: PortRef, t: PortRef)
    requires Sound(g) && t in Targets(g.edges, o)
    ensures Height(g, t) < Level(g, o.node)
    ensures t.node in g.types && HasInput(g.types[t.node], t.handle)
  {
    TargetsMembers(g.edges, o, t);
    var e :| e in g.edges && e.source == o.node && e.sourceHandle == o.handle
             && e.target == t.node && e.targetHandle == t.handle;
    assert EndsWellFormed(g.types, e);
    if !IsTerminal(g.types, e) {
      var E := NodeGraph(g.types, g.edges);
      assert (e.source, e.target) in E;
      RankDecreases(E, g.types.Keys, e.source, e.target);
    }
  }

  lemma LevelBound(g: Topo, n: NodeId)
    requires Sound(g) && n in g.types
    ensures Level(g, n) <= |g.types|
  {
    RankBound(NodeGraph(g.types, g.edges), g.types.Keys, n);
  }

  // ---------------------------------------------------------------------------------------------
  // The engine as functions
  // ---------------------------------------------------------------------------------------------

  function Absorb(kind: NodeType, w: World, st: State, p: PortRef, data: Bytes, depth: nat): (r: Absorbed)
    requires p.node in st.nodes
    ensures r.st.nodes.Keys == st.nodes.Keys
    ensures r.st.log == st.log + [Delivery(p, data, depth)] && r.st.turn == st.turn
  {
    var n := p.node;
    var st := st.(log := st.log + [Delivery(p, data, depth)]);
    var st := if kind == Remote then st else AddRx(st, n, |data|);
    match kind
    case Monitor | ScriptAnalyzer =>
      Absorbed(AppendFrame(st, n, data, false), None, None)
    case Filter =>
      if w.react(st.turn, st.log, p, data).Some?
      then Absorbed(AddTx(st, n, |data|), Some((Out, data)), None)
      else Absorbed(st, None, None)
    case ScriptTransform =>
      (match w.react(st.turn, st.log, p, data)
       case None => Absorbed(st, None, None)
       case Some(out) => if out == [] then Absorbed(st, None, None)
         else Absorbed(AddTx(st, n, |out|), Some((Out, out)), None))
    case Bridge =>
      if p.handle == AIn then Absorbed(AddTx(st, n, |data|), Some((BOut, data)), None)
      else if p.handle == BIn then Absorbed(AddTx(st, n, |data|), Some((AOut, data)), None)
      else Absorbed(st, None, None)
    case Physical =>
      (match w.write(st.turn, st.log, n, data)
       case Unbound => Absorbed(st, None, None)
       case Wrote(k) => Absorbed(AddTx(st, n, k), None, None)
       case WriteFailed(_) => Absorbed(st, None, Some(n)))
    case Virtual =>
      Absorbed(AppendBuffer(AddTx(st, n, |data|), n, data), Some((Rx, data)), None)
    case Remote =>
      (match w.write(st.turn, st.log, n, data)
       case Unbound => Absorbed(st, None, Some(n))
       case Wrote(k) => Absorbed(AddTx(st, n, k), None, None)
       case WriteFailed(k) => Absorbed(AddTx(st, n, k), None, Some(n)))
    case ModbusSlave =>
      var st := AppendFrame(AppendBuffer(st, n, data), n, data, false);
      (match w.react(st.turn, st.log, p, data)
       case None => Absorbed(st, None, None)
       case Some(reply) => Absorbed(AppendFrame(AddTx(st, n, |reply|), n, reply, true), Some((Tx, reply)), None))
    case FecbusSlave =>
      var st := AppendBuffer(st, n, data);
      (match w.react(st.turn, st.log, p, data)
       case None => Absorbed(st, None, None)
       case Some(reply) => Absorbed(AddTx(st, n, |reply|), Some((Tx, reply)), None))
    case ModbusMaster => Absorbed(AppendFrame(AppendBuffer(st, n, data), n, data, false), None, None)
    case FecbusMaster => Absorbed(AppendBuffer(st, n, data), None, None)
    case ScriptGenerator | Unknown(_) => Absorbed(st, None, None)
  }

  function Receive(g: Topo, w: World, st: State, p: PortRef, data: Bytes, depth: nat): (r: Outcome)
    requires Sound(g) && st.nodes.Keys == g.types.Keys
    ensures r.st.nodes.Keys == g.types.Keys
    decreases Height(g, p), 2
  {
    if p.node !in g.types || data == [] then Outcome(st, None)
    else
      var a := Absorb(g.types[p.node], w, st, p, data, depth);
      match a.forward
      case None => Outcome(a.st, a.failed)
      case Some((h, out)) =>
        var r := Emit(g, w, a.st, PortRef(p.node, h), out, depth);
        // Only the bridge hands an error of its targets back to its own caller.
        Outcome(r.st, if g.types[p.node] == Bridge then r.failed else None)
  }

  function Emit(g: Topo, w: World, st: State, o: PortRef, data: Bytes, depth: nat): (r: Outcome)
    requires Sound(g) && st.nodes.Keys == g.types.Keys
    ensures r.st.nodes.Keys == g.types.Keys
    decreases Level(g, o.node), 1
  {
    EmitTo(g, w, st, o, Targets(g.edges, o), data, depth)
  }

  /** Every target gets the payload, also after a failure; the first failure is reported. */
  function EmitTo(g: Topo, w: World, st: State, o: PortRef, targets: seq<PortRef>, data: Bytes, depth: nat)
    : (r: Outcome)
    requires Sound(g) && st.nodes.Keys == g.types.Keys
    requires forall t :: t in targets ==> t in Targets(g.edges, o)
    ensures r.st.nodes.Keys == g.types.Keys
    decreases Level(g, o.node), 0, |targets|
  {
    if targets == [] then Outcome(st, None)
    else
      TargetIsLower(g, o, targets[0]);
      var first := Receive(g, w, st, targets[0], data, depth + 1);
      var rest := EmitTo(g, w, first.st, o, targets[1..], data, depth);
      Outcome(rest.st, if first.failed.Some? then first.failed else rest.failed)
  }

  /** The ways bytes enter a running topology: from a device or socket, by a send request, from a script. */
  datatype Injection =
    | DeviceData(node: NodeId, data: Bytes)
    | SendTo(node: NodeId, data: Bytes)
    | Generated(node: NodeId, data: Bytes)

  /** What an injection changes at its own node, and the output port it then emits on, if any. */
  datatype Entry = Entry(st: State, port: Option<PortRef>, failed: Option<NodeId>)

  function Enter(kind: NodeType, w: World, st: State, inj: Injection): (r: Entry)
    requires inj.node in st.nodes
    ensures r.st.nodes.Keys == st.nodes.Keys && r.st.log == st.log
    ensures r.port.Some? ==> r.port.value.node == inj.node
  {
    var n, data := inj.node, inj.data;
    match inj
    case DeviceData(_, _) => Entry(AppendBuffer(AddRx(st, n, |data|), n, data), Some(PortRef(n, Rx)), None)
    case Generated(_, _) =>
      if data == [] then Entry(st, None, None) else Entry(AddTx(st, n, |data|), Some(PortRef(n, Out)), None)
    case SendTo(_, _) =>
      match kind
      case ModbusMaster | ModbusSlave =>
        Entry(AppendFrame(AddTx(st, n, |data|), n, data, true), Some(PortRef(n, Tx)), None)
      case FecbusMaster | FecbusSlave => Entry(AddTx(st, n, |data|), Some(PortRef(n, Tx)), None)
      case Physical =>
        (match w.write(st.turn, st.log, n, data)
         case Wrote(k) => Entry(AddTx(st, n, k), None, None)
         case _ => Entry(st, None, Some(n)))
      case Remote =>
        (match w.write(st.turn, st.log, n, data)
         case Unbound => Entry(st, None, Some(n))
         case Wrote(k) => Entry(AddTx(st, n, k), None, None)
         case WriteFailed(k) => Entry(AddTx(st, n, k), None, Some(n)))
      case _ => Entry(st, None, Some(n))
  }

  function Begin(st: State): State {
    st.(turn := st.turn + 1)
  }

  function Inject(g: Topo, w: World, st: State, inj: Injection): (r: Outcome)
    requires Sound(g) && st.nodes.Keys == g.types.Keys
    ensures r.st.nodes.Keys == g.types.Keys
  {
    Act(g, w, Begin(st), inj)
  }

  function Act(g: Topo, w: World, st: State, inj: Injection): (r: Outcome)
    requires Sound(g) && st.nodes.Keys == g.types.Keys
    ensures r.st.nodes.Keys == g.types.Keys
  {
    var n := inj.node;
    if n !in g.types then Outcome(st, if inj.DeviceData? then None else Some(n))
    else if inj.SendTo? && g.types[n] == Virtual then Receive(g, w, st, PortRef(n, Tx), inj.data, 1)
    else
      var e := Enter(g.types[n], w, st, inj);
      match e.port
      case None => Outcome(e.st, e.failed)
      case Some(o) =>
        var r := Emit(g, w, e.st, o, inj.data, 0);
        Outcome(r.st, if inj.SendTo? then r.failed else None)
  }

  lemma SendsFrame(g: Topo, w: World, st: State, n: NodeId, data: Bytes)
    requires Sound(g) && st.nodes.Keys == g.types.Keys && n in g.types
    requires g.types[n] == ModbusMaster || g.types[n] == ModbusSlave
    ensures Act(g, w, st, SendTo(n, data))
            == Emit(g, w, AppendFrame(AddTx(st, n, |data|), n, data, true), PortRef(n, Tx), data, 0)
  {
  }

  lemma SendsBytes(g: Topo, w: World, st: State, n: NodeId, data: Bytes)
    requires Sound(g) && st.nodes.Keys == g.types.Keys && n in g.types
    requires g.types[n] == FecbusMaster || g.types[n] == FecbusSlave
    ensures Act(g, w, st, SendTo(n, data)) == Emit(g, w, AddTx(st, n, |data|), PortRef(n, Tx), data, 0)
  {
  }

  // ---------------------------------------------------------------------------------------------
  // The engine as it runs
  // ---------------------------------------------------------------------------------------------

  class SerialGraphRuntime {
    const g: Topo
    const w: World
    var nodes: map<NodeId, NodeState>
    var routes: map<PortRef, seq<PortRef>>
    /** The deliveries made so far; kept so that the World may depend on them. */
    var log: seq<Delivery>
    /** The injections made so far, likewise. */
    var turn: nat

    ghost predicate Valid()
      reads this
    {
      && Sound(g)
      && nodes.Keys == g.types.Keys
      && forall o :: Routed(routes, o) == Targets(g.edges, o)
    }

    ghost function Now(): State
      reads this
    {
      State(nodes, log, turn)
    }

    static function Routed(routes: map<PortRef, seq<PortRef>>, o: PortRef): seq<PortRef> {
      if o in routes then routes[o] else []
    }

    static function AtRest(types: map<NodeId, NodeType>): (nodes: map<NodeId, NodeState>)
      ensures nodes.Keys == types.Keys && forall n :: n in nodes ==> nodes[n] == NodeState(0, 0, [], [])
    {
      map n | n in types :: NodeState(0, 0, [], [])
    }

    constructor (topo: Topo, world: World)
      requires Sound(topo)
      ensures Valid() && g == topo && w == world
      ensures log == [] && turn == 0 && forall n :: n in nodes ==> nodes[n] == NodeState(0, 0, [], [])
    {
      g := topo;
      w := world;
      nodes := AtRest(topo.types);
      log, turn := [], 0;
      var table := BuildRoutes(topo.edges);
      routes := table;
    }

    /** The route table: for each output port the input ports it feeds, in the order of the edges. */
    static method BuildRoutes(edges: seq<Edge>) returns (routes: map<PortRef, seq<PortRef>>)
      ensures forall o :: Routed(routes, o) == Targets(edges, o)
    {
      routes := map[];
      for i := 0 to |edges|
        invariant forall o :: Routed(routes, o) == Targets(edges[..i], o)
      {
        var edge := edges[i];
        var source, target := PortRef(edge.source, edge.sourceHandle), PortRef(edge.target, edge.targetHandle);
        ghost var before := routes;
        routes := routes[source := Routed(routes, source) + [target]];
        forall o
          ensures Routed(routes, o) == Targets(edges[..i + 1], o)
        {
          assert edges[..i + 1] == edges[..i] + [edge];
          TargetsSnoc(edges[..i], edge, o);
          assert Routed(before, o) == Targets(edges[..i], o);
        }
      }
      assert edges[..|edges|] == edges;
    }

    method AddRxBytes(n: NodeId, k: nat)
      requires n in nodes
      modifies `nodes
      ensures Now() == AddRx(old(Now()), n, k)
    {
      nodes := nodes[n := nodes[n].(rxBytes := nodes[n].rxBytes + k)];
    }

    method AddTxBytes(n: NodeId, k: nat)
      requires n in nodes
      modifies `nodes
      ensures Now() == AddTx(old(Now()), n, k)
    {
      nodes := nodes[n := nodes[n].(txBytes := nodes[n].txBytes + k)];
    }

    method Buffer(n: NodeId, data: Bytes)
      requires n in nodes
      modifies `nodes
      ensures Now() == AppendBuffer(old(Now()), n, data)
    {
      nodes := nodes[n := nodes[n].(buffer := nodes[n].buffer + data)];
    }

    method Record(n: NodeId, data: Bytes, sent: bool)
      requires n in nodes
      modifies `nodes
      ensures Now() == AppendFrame(old(Now()), n, data, sent)
    {
      nodes := nodes[n := nodes[n].(frames := nodes[n].frames + [Frame(data, sent)])];
    }

    /** The state changes of one node; what it passes on comes back to the caller. */
    method AbsorbAt(p: PortRef, data: Bytes, depth: nat)
      returns (forward: Option<(Handle, Bytes)>, failed: Option<NodeId>)
      requires Valid() && p.node in g.types
      modifies `nodes, `log
      ensures Absorbed(Now(), forward, failed) == Absorb(g.types[p.node], w, old(Now()), p, data, depth)
    {
      var n := p.node;
      forward, failed := None, None;
      log := log + [Delivery(p, data, depth)];
      if g.types[n] != Remote {
        AddRxBytes(n, |data|);
      }
      match g.types[n]
      case Monitor | ScriptAnalyzer =>
        Record(n, data, false);
      case Filter =>
        if w.react(turn, log, p, data).Some? {
          AddTxBytes(n, |data|);
          forward := Some((Out, data));
        }
      case ScriptTransform =>
        var out := w.react(turn, log, p, data);
        if out.Some? && out.value != [] {
          AddTxBytes(n, |out.value|);
          forward := Some((Out, out.value));
        }
      case Bridge =>
        if p.handle == AIn {
          AddTxBytes(n, |data|);
          forward := Some((BOut, data));
        } else if p.handle == BIn {
          AddTxBytes(n, |data|);
          forward := Some((AOut, data));
        }
      case Physical =>
        var result := w.write(turn, log, n, data);
        if result.Wrote? {
          AddTxBytes(n, result.n);
        } else if result.WriteFailed? {
          failed := Some(n);
        }
      case Virtual =>
        AddTxBytes(n, |data|);
        Buffer(n, data);
        forward := Some((Rx, data));
      case Remote =>
        var result := w.write(turn, log, n, data);
        if !result.Unbound? {
          AddTxBytes(n, result.n);
        }
        if !result.Wrote? {
          failed := Some(n);
        }
      case ModbusSlave =>
        Buffer(n, data);
        Record(n, data, false);
        var reply := w.react(turn, log, p, data);
        if reply.Some? {
          AddTxBytes(n, |reply.value|);
          Record(n, reply.value, true);
          forward := Some((Tx, reply.value));
        }
      case FecbusSlave =>
        Buffer(n, data);
        var reply := w.react(turn, log, p, data);
        if reply.Some? {
          AddTxBytes(n, |reply.value|);
          forward := Some((Tx, reply.value));
        }
      case ModbusMaster =>
        Buffer(n, data);
        Record(n, data, false);
      case FecbusMaster =>
        Buffer(n, data);
      case ScriptGenerator | Unknown(_) =>
    }

    method ReceiveAt(p: PortRef, data: Bytes, depth: nat) returns (failed: Option<NodeId>)
      requires Valid()
      modifies `nodes, `log
      ensures Valid()
      ensures Outcome(Now(), failed) == Receive(g, w, old(Now()), p, data, depth)
      decreases Height(g, p), 2
    {
      if p.node !in g.types || |data| == 0 {
        return None;
      }
      var forward;
      forward, failed := AbsorbAt(p, data, depth);
      if forward.Some? {
        var below := EmitFrom(PortRef(p.node, forward.value.0), forward.value.1, depth);
        failed := if g.types[p.node] == Bridge then below else None;
      }
    }

    method EmitFrom(o: PortRef, data: Bytes, depth: nat) returns (firstErr: Option<NodeId>)
      requires Valid()
      modifies `nodes, `log
      ensures Valid()
      ensures Outcome(Now(), firstErr) == Emit(g, w, old(Now()), o, data, depth)
      decreases Level(g, o.node), 1
    {
      var targets := Routed(routes, o);
      firstErr := None;
      for i := 0 to |targets|
        invariant Valid()
        invariant var rest := EmitTo(g, w, Now(), o, targets[i..], data, depth);
                  Emit(g, w, old(Now()), o, data, depth)
                  == Outcome(rest.st, if firstErr.Some? then firstErr else rest.failed)
      {
        TargetIsLower(g, o, targets[i]);
        var err := ReceiveAt(targets[i], data, depth + 1);
        if err.Some? && firstErr.None? {
          firstErr := err;
        }
      }
    }

    method Perform(inj: Injection) returns (failed: Option<NodeId>)
      requires Valid()
      modifies `nodes, `log, `turn
      ensures Valid()
      ensures Outcome(Now(), failed) == Inject(g, w, old(Now()), inj)
    {
      turn := turn + 1;
      assert Now() == Begin(old(Now()));
      failed := Enact(inj);
    }

    method Enact(inj: Injection) returns (failed: Option<NodeId>)
      requires Valid()
      modifies `nodes, `log
      ensures Valid()
      ensures Outcome(Now(), failed) == Act(g, w, old(Now()), inj)
    {
      failed := None;
      if inj.node !in g.types {
        return if inj.DeviceData? then None else Some(inj.node);
      }
      match inj
      case DeviceData(n, data) => TakeDeviceData(n, data);
      case Generated(n, data) => TakeGenerated(n, data);
      case SendTo(n, data) => failed := Send(n, data);
    }

    method TakeDeviceData(n: NodeId, data: Bytes)
      requires Valid() && n in g.types
      modifies `nodes, `log
      ensures Valid()
      ensures Outcome(Now(), None) == Act(g, w, old(Now()), DeviceData(n, data))
    {
      AddRxBytes(n, |data|);
      Buffer(n, data);
      var _ := EmitFrom(PortRef(n, Rx), data, 0);
    }

    method TakeGenerated(n: NodeId, data: Bytes)
      requires Valid() && n in g.types
      modifies `nodes, `log
      ensures Valid()
      ensures Outcome(Now(), None) == Act(g, w, old(Now()), Generated(n, data))
    {
      if |data| > 0 {
        AddTxBytes(n, |data|);
        var _ := EmitFrom(PortRef(n, Out), data, 0);
      }
    }

    method Send(n: NodeId, data: Bytes) returns (failed: Option<NodeId>)
      requires Valid() && n in g.types
      modifies `nodes, `log
      ensures Valid()
      ensures Outcome(Now(), failed) == Act(g, w, old(Now()), SendTo(n, data))
    {
      failed := Some(n);
      match g.types[n]
      case ModbusMaster | ModbusSlave => failed := SendFrame(n, data);
      case FecbusMaster | FecbusSlave => failed := SendBytes(n, data);
      case Physical => failed := WritePhysical(n, data);
      case Virtual => failed := ReceiveAt(PortRef(n, Tx), data, 1);
      case Remote => failed := WriteRemote(n, data);
      case _ =>
    }

    method SendFrame(n: NodeId, data: Bytes) returns (failed: Option<NodeId>)
      requires Valid() && n in g.types && (g.types[n] == ModbusMaster || g.types[n] == ModbusSlave)
      modifies `nodes, `log
      ensures Valid()
      ensures Outcome(Now(), failed) == Act(g, w, old(Now()), SendTo(n, data))
    {
      SendsFrame(g, w, Now(), n, data);
      AddTxBytes(n, |data|);
      Record(n, data, true);
      failed := EmitFrom(PortRef(n, Tx), data, 0);
    }

    method SendBytes(n: NodeId, data: Bytes) returns (failed: Option<NodeId>)
      requires Valid() && n in g.types && (g.types[n] == FecbusMaster || g.types[n] == FecbusSlave)
      modifies `nodes, `log
      ensures Valid()
      ensures Outcome(Now(), failed) == Act(g, w, old(Now()), SendTo(n, data))
    {
      SendsBytes(g, w, Now(), n, data);
      AddTxBytes(n, |data|);
      failed := EmitFrom(PortRef(n, Tx), data, 0);
    }

    method WritePhysical(n: NodeId, data: Bytes) returns (failed: Option<NodeId>)
      requires Valid() && n in g.types && g.types[n] == Physical
      modifies `nodes
      ensures Valid()
      ensures Outcome(Now(), failed) == Act(g, w, old(Now()), SendTo(n, data))
    {
      var result := w.write(turn, log, n, data);
      if !result.Wrote? {
        return Some(n);
      }
      AddTxBytes(n, result.n);
      failed := None;
    }

    method WriteRemote(n: NodeId, data: Bytes) returns (failed: Option<NodeId>)
      requires Valid() && n in g.types && g.types[n] == Remote
      modifies `nodes
      ensures Valid()
      ensures Outcome(Now(), failed) == Act(g, w, old(Now()), SendTo(n, data))
    {
      var result := w.write(turn, log, n, data);
      if !result.Unbound? {
        AddTxBytes(n, result.n);
      }
      failed := if result.Wrote? then None else Some(n);
    }
  }

  /** A start request gives a runtime exactly when the validator reports nothing, and else its report. */
  method StartSerialGraph(req: Request, world: World) returns (errs: seq<Problem>, runtime: SerialGraphRuntime?)
    ensures errs == Problems(req) && (errs == [] <==> Accepted(req)) && (runtime != null <==> errs == [])
    ensures runtime != null ==>
              && fresh(runtime) && runtime.Valid() && runtime.w == world
              && runtime.g == Topo(TypesOf(req.nodes), req.edges) && runtime.log == [] && runtime.turn == 0
              && forall n :: n in runtime.nodes ==> runtime.nodes[n] == NodeState(0, 0, [], [])
  {
    errs := Validate(req);
    if errs != [] {
      return errs, null;
    }
    AcceptedIsSound(req);
    runtime := new SerialGraphRuntime(Topo(TypesOf(req.nodes), req.edges), world);
  }

  lemma {:induction false} TargetsSnoc(edges: seq<Edge>, e: Edge, o: PortRef)
    ensures Targets(edges + [e], o) ==
            Targets(edges, o)
            + if e.source == o.node && e.sourceHandle == o.handle then [PortRef(e.target, e.targetHandle)] else []
  {
    if edges != [] {
      assert (edges + [e])[1..] == edges[1..] + [e];
      TargetsSnoc(edges[1..], e, o);
    }
  }
}
