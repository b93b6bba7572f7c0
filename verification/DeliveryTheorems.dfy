/**
 What one injection into an accepted topology does: every input port is visited at most once,
 the cascade is no deeper than the number of nodes, the receive counters account for every
 delivery, and in a graph whose nodes pass bytes on unchanged the ports visited are exactly
 those reachable along the routes.
 */
module DeliveryTheorems {
  import opened Wrappers
  import opened Pieces
  import opened Digraph
  import opened Topology
  import opened RuntimeValidator
  import opened DeliveryEngine
  import opened FrameHistories

  /** The input handle whose payloads make a node emit on the given output handle. */
  function Feed(kind: NodeType, output: Handle): Option<Handle> {
    match kind
    case Filter | ScriptTransform => if output == Out then Some(In) else None
    case Virtual => if output == Rx then Some(Tx) else None
    case ModbusSlave | FecbusSlave => if output == Tx then Some(Rx) else None
    case Bridge => if output == BOut then Some(AIn) else if output == AOut then Some(BIn) else None
    case _ => None
  }

  /** One step of a payload: from an input port, through its node, along an edge to the next input port. */
  function Hops(g: Topo): set<(PortRef, PortRef)> {
    set e | e in g.edges && e.source in g.types && Feed(g.types[e.source], e.sourceHandle).Some?
      :: (PortRef(e.source, Feed(g.types[e.source], e.sourceHandle).value), PortRef(e.target, e.targetHandle))
  }

  /** The input ports that lie downstream of an output port. */
  ghost predicate Downstream(g: Topo, o: PortRef, q: PortRef) {
    exists t :: t in Targets(g.edges, o) && Reach(Hops(g), t, q)
  }

  ghost predicate NoRepeats(log: seq<Delivery>, from: nat) {
    forall i, j :: from <= i < j < |log| ==> log[i].port != log[j].port
  }

  ghost predicate Visits(log: seq<Delivery>, from: nat, q: PortRef) {
    exists i :: from <= i < |log| && log[i].port == q
  }

  ghost predicate DepthsWithin(log: seq<Delivery>, from: nat, low: nat, high: nat) {
    forall i :: from <= i < |log| ==> low <= log[i].depth <= high
  }

  // ---------------------------------------------------------------------------------------------
  // The hop graph
  // ---------------------------------------------------------------------------------------------

  lemma HopEdge(g: Topo, a: PortRef, b: PortRef) returns (e: Edge)
    requires (a, b) in Hops(g)
    ensures e in g.edges && e.source == a.node && e.source in g.types && b == PortRef(e.target, e.targetHandle)
    ensures Feed(g.types[e.source], e.sourceHandle) == Some(a.handle)
    ensures b in Targets(g.edges, PortRef(e.source, e.sourceHandle))
  {
    e :| e in g.edges && e.source in g.types && Feed(g.types[e.source], e.sourceHandle).Some?
         && a == PortRef(e.source, Feed(g.types[e.source], e.sourceHandle).value)
         && b == PortRef(e.target, e.targetHandle);
    TargetsMembers(g.edges, PortRef(e.source, e.sourceHandle), b);
  }

  lemma HopLowers(g: Topo, a: PortRef, b: PortRef)
    requires Sound(g) && (a, b) in Hops(g)
    ensures Height(g, b) < Height(g, a)
    ensures Height(g, a) == Level(g, a.node)
  {
    var e := HopEdge(g, a, b);
    TargetIsLower(g, PortRef(e.source, e.sourceHandle), b);
  }

  lemma {:induction false} PathLowers(g: Topo, p: seq<PortRef>)
    requires Sound(g) && IsPath(Hops(g), p)
    ensures Height(g, p[|p| - 1]) <= Height(g, p[0])
  {
    if |p| > 1 {
      assert (p[0], p[1]) in Hops(g);
      HopLowers(g, p[0], p[1]);
      PathLowers(g, p[1..]);
    }
  }

  lemma ReachLowers(g: Topo, a: PortRef, b: PortRef)
    requires Sound(g) && Reach(Hops(g), a, b)
    ensures Height(g, b) <= Height(g, a)
  {
    var p :| PathFromTo(Hops(g), p, a, b);
    PathLowers(g, p);
  }

  lemma SameEdgeIntoPort(g: Topo, e: Edge, f: Edge)
    requires Sound(g) && e in g.edges && f in g.edges
    requires e.target == f.target && e.targetHandle == f.targetHandle
    ensures e == f
  {
    var i :| 0 <= i < |g.edges| && g.edges[i] == e;
    var j :| 0 <= j < |g.edges| && g.edges[j] == f;
    assert i == j;
  }

  /** The single-source rule and the one-to-one node behaviour leave every input port one predecessor. */
  lemma OnePredecessor(g: Topo)
    requires Sound(g)
    ensures forall e, f :: e in Hops(g) && f in Hops(g) && e.1 == f.1 ==> e == f
  {
    forall e, f | e in Hops(g) && f in Hops(g) && e.1 == f.1
      ensures e == f
    {
      var x := HopEdge(g, e.0, e.1);
      var y := HopEdge(g, f.0, f.1);
      SameEdgeIntoPort(g, x, y);
    }
  }

  lemma SiblingNotAbove(g: Topo, o: PortRef, t: PortRef, u: PortRef)
    requires Sound(g) && t in Targets(g.edges, o) && u in Targets(g.edges, o) && t != u
    ensures !Reach(Hops(g), t, u)
  {
    if Reach(Hops(g), t, u) {
      ReachLastEdge(Hops(g), t, u);
      var x :| (x, u) in Hops(g) && Reach(Hops(g), t, x);
      var e := HopEdge(g, x, u);
      TargetsMembers(g.edges, o, u);
      var f :| f in g.edges && f.source == o.node && f.sourceHandle == o.handle
               && f.target == u.node && f.targetHandle == u.handle;
      SameEdgeIntoPort(g, e, f);
      HopLowers(g, x, u);
      ReachLowers(g, t, x);
      TargetIsLower(g, o, t);
      assert false;
    }
  }

  /** The parts of a topology below two different targets of one output port do not meet. */
  lemma SiblingsApart(g: Topo, o: PortRef, t: PortRef, u: PortRef, q: PortRef)
    requires Sound(g) && t in Targets(g.edges, o) && u in Targets(g.edges, o) && t != u
    ensures !(Reach(Hops(g), t, q) && Reach(Hops(g), u, q))
  {
    if Reach(Hops(g), t, q) && Reach(Hops(g), u, q) {
      var p :| PathFromTo(Hops(g), p, t, q);
      var r :| PathFromTo(Hops(g), r, u, q);
      OnePredecessor(g);
      ReachComparable(Hops(g), p, r);
      SiblingNotAbove(g, o, t, u);
      SiblingNotAbove(g, o, u, t);
      assert false;
    }
  }

  lemma {:induction false} TargetsDistinct(edges: seq<Edge>, o: PortRef)
    requires SingleSource(edges)
    ensures forall i, j :: 0 <= i < j < |Targets(edges, o)| ==> Targets(edges, o)[i] != Targets(edges, o)[j]
  {
    if edges != [] {
      var first := PortRef(edges[0].target, edges[0].targetHandle);
      TargetsDistinct(edges[1..], o);
      TargetsMembers(edges[1..], o, first);
      forall e | e in edges[1..]
        ensures PortRef(e.target, e.targetHandle) != first
      {
        var i :| 0 <= i < |edges[1..]| && edges[1..][i] == e;
        assert edges[i + 1] == e && 0 < i + 1;
      }
    }
  }

  lemma AbsorbForwards(g: Topo, w: World, st: State, p: PortRef, data: Bytes, depth: nat)
    requires p.node in st.nodes && p.node in g.types && HasInput(g.types[p.node], p.handle)
    ensures var a := Absorb(g.types[p.node], w, st, p, data, depth);
            a.forward.Some? ==> Feed(g.types[p.node], a.forward.value.0) == Some(p.handle) && !IsTerminalPort(g, p)
  {
    var ports := ProviderOf(g.types[p.node]).value.inputs;
    if |ports| == 1 {
      assert ports[1..] == [] && FindPort(ports[1..], p.handle).None?;
    }
  }

  // ---------------------------------------------------------------------------------------------
  // At most once, and not too deep
  // ---------------------------------------------------------------------------------------------

  lemma {:induction false} ReceiveTrace(g: Topo, w: World, st: State, p: PortRef, data: Bytes, depth: nat)
    requires Sound(g) && st.nodes.Keys == g.types.Keys
    requires p.node in g.types && HasInput(g.types[p.node], p.handle)
    ensures var log := Receive(g, w, st, p, data, depth).st.log;
            && st.log <= log
            && NoRepeats(log, |st.log|)
            && DepthsWithin(log, |st.log|, depth, depth + Height(g, p))
            && forall q :: Visits(log, |st.log|, q) ==> Reach(Hops(g), p, q)
    decreases Height(g, p), 1, 0
  {
    ReachSelf(Hops(g), p);
    if data != [] {
      var a := Absorb(g.types[p.node], w, st, p, data, depth);
      AbsorbForwards(g, w, st, p, data, depth);
      if a.forward.Some? {
        var o := PortRef(p.node, a.forward.value.0);
        EmitTrace(g, w, a.st, o, 0, a.forward.value.1, depth);
        assert Targets(g.edges, o)[0..] == Targets(g.edges, o);
        var log := Receive(g, w, st, p, data, depth).st.log;
        forall q | Visits(log, |a.st.log|, q)
          ensures Reach(Hops(g), p, q) && q != p
        {
          var t :| t in Targets(g.edges, o) && Reach(Hops(g), t, q);
          TargetIsHop(g, p, o, t);
          ReachTrans(Hops(g), p, t, q);
          ReachLowers(g, t, q);
        }
        assert log[|st.log|] == a.st.log[|st.log|];
        forall q | Visits(log, |st.log|, q)
          ensures Reach(Hops(g), p, q)
        {
          var i :| |st.log| <= i < |log| && log[i].port == q;
          if i > |st.log| {
            assert Visits(log, |a.st.log|, q);
          }
        }
        forall i, j | |st.log| <= i < j < |log|
          ensures log[i].port != log[j].port
        {
          assert Visits(log, |a.st.log|, log[j].port);
        }
      }
    }
  }

  lemma TargetIsHop(g: Topo, p: PortRef, o: PortRef, t: PortRef)
    requires Sound(g) && p.node in g.types && o.node == p.node
    requires Feed(g.types[p.node], o.handle) == Some(p.handle) && t in Targets(g.edges, o)
    ensures (p, t) in Hops(g) && Reach(Hops(g), p, t)
    ensures Height(g, t) < Height(g, p)
  {
    TargetsMembers(g.edges, o, t);
    var e :| e in g.edges && e.source == o.node && e.sourceHandle == o.handle
             && e.target == t.node && e.targetHandle == t.handle;
    var from, to := PortRef(e.source, Feed(g.types[e.source], e.sourceHandle).value), PortRef(e.target, e.targetHandle);
    assert (from, to) in Hops(g);
    ReachEdge(Hops(g), p, t);
    HopLowers(g, p, t);
  }

  lemma {:induction false} EmitTrace(g: Topo, w: World, st: State, o: PortRef, k: nat, data: Bytes, depth: nat)
    requires Sound(g) && st.nodes.Keys == g.types.Keys
    requires k <= |Targets(g.edges, o)|
    ensures var targets := Targets(g.edges, o)[k..];
            var log := EmitTo(g, w, st, o, targets, data, depth).st.log;
            && st.log <= log
            && NoRepeats(log, |st.log|)
            && DepthsWithin(log, |st.log|, depth + 1, depth + Level(g, o.node))
            && forall q :: Visits(log, |st.log|, q) ==> exists t :: t in targets && Reach(Hops(g), t, q)
    decreases Level(g, o.node), 0, |Targets(g.edges, o)| - k
  {
    var targets := Targets(g.edges, o)[k..];
    if targets != [] {
      var t := targets[0];
      TargetIsLower(g, o, t);
      var first := Receive(g, w, st, t, data, depth + 1);
      ReceiveTrace(g, w, st, t, data, depth + 1);
      assert targets[1..] == Targets(g.edges, o)[k + 1..];
      EmitTrace(g, w, first.st, o, k + 1, data, depth);
      var log := EmitTo(g, w, st, o, targets, data, depth).st.log;
      forall q | Visits(log, |st.log|, q)
        ensures Visits(first.st.log, |st.log|, q) || Visits(log, |first.st.log|, q)
      {
        var i :| |st.log| <= i < |log| && log[i].port == q;
        if i < |first.st.log| {
          assert first.st.log[i] == log[i];
        }
      }
      forall i, j | |st.log| <= i < j < |log|
        ensures log[i].port != log[j].port
      {
        if i < |first.st.log| <= j {
          assert first.st.log[i] == log[i];
          assert Visits(first.st.log, |st.log|, log[i].port) && Visits(log, |first.st.log|, log[j].port);
          var u :| u in targets[1..] && Reach(Hops(g), u, log[j].port);
          TargetsDistinct(g.edges, o);
          assert u != t;
          SiblingsApart(g, o, t, u, log[j].port);
        } else if j < |first.st.log| {
          assert first.st.log[i] == log[i] && first.st.log[j] == log[j];
        }
      }
      forall i | |st.log| <= i < |log|
        ensures depth + 1 <= log[i].depth <= depth + Level(g, o.node)
      {
        if i < |first.st.log| {
          assert first.st.log[i] == log[i];
        }
      }
    }
  }

  // ---------------------------------------------------------------------------------------------
  // Byte accounting
  // ---------------------------------------------------------------------------------------------

  /** The bytes delivered to a node's input ports. */
  function Received(log: seq<Delivery>, n: NodeId): nat {
    if log == [] then 0
    else Received(log[..|log| - 1], n) + if log[|log| - 1].port.node == n then |log[|log| - 1].data| else 0
  }

  /** What a node of this kind counts of the deliveries: a remote node counts only what its socket hands it. */
  function Counted(kind: NodeType, log: seq<Delivery>, n: NodeId): nat {
    if kind == Remote then 0 else Received(log, n)
  }

  /** What a receive counter holds beyond the deliveries of the log that it counts. */
  function Surplus(kind: NodeType, st: State, n: NodeId): int
    requires n in st.nodes
  {
    st.nodes[n].rxBytes - Counted(kind, st.log, n)
  }

  lemma AbsorbAccounts(kind: NodeType, w: World, st: State, p: PortRef, data: Bytes, depth: nat, own: NodeType,
                       n: NodeId)
    requires p.node in st.nodes && n in st.nodes && (p.node == n ==> kind == own)
    ensures Surplus(own, Absorb(kind, w, st, p, data, depth).st, n) == Surplus(own, st, n)
  {
    var log := st.log + [Delivery(p, data, depth)];
    assert log[..|log| - 1] == st.log;
  }

  /** Whatever a cascade does, the counters grow by exactly what was delivered. */
  lemma {:induction false} ReceiveAccounts(g: Topo, w: World, st: State, p: PortRef, data: Bytes, depth: nat, n: NodeId)
    requires Sound(g) && st.nodes.Keys == g.types.Keys && n in g.types
    ensures Surplus(g.types[n], Receive(g, w, st, p, data, depth).st, n) == Surplus(g.types[n], st, n)
    decreases Height(g, p), 2, 0
  {
    if p.node in g.types && data != [] {
      AbsorbAccounts(g.types[p.node], w, st, p, data, depth, g.types[n], n);
      var a := Absorb(g.types[p.node], w, st, p, data, depth);
      if a.forward.Some? {
        var o := PortRef(p.node, a.forward.value.0);
        EmitAccounts(g, w, a.st, o, Targets(g.edges, o), a.forward.value.1, depth, n);
      }
    }
  }

  lemma {:induction false} EmitAccounts(g: Topo, w: World, st: State, o: PortRef, targets: seq<PortRef>, data: Bytes,
                                        depth: nat, n: NodeId)
    requires Sound(g) && st.nodes.Keys == g.types.Keys && n in g.types
    requires forall t :: t in targets ==> t in Targets(g.edges, o)
    ensures Surplus(g.types[n], EmitTo(g, w, st, o, targets, data, depth).st, n) == Surplus(g.types[n], st, n)
    decreases Level(g, o.node), 0, |targets|
  {
    if targets != [] {
      TargetIsLower(g, o, targets[0]);
      ReceiveAccounts(g, w, st, targets[0], data, depth + 1, n);
      EmitAccounts(g, w, Receive(g, w, st, targets[0], data, depth + 1).st, o, targets[1..], data, depth, n);
    }
  }

  /** Virtual ports and bridges send on every byte they receive. */
  predicate SendsOn(kind: NodeType) {
    kind == Virtual || kind == Bridge
  }

  /** What a send counter holds beyond the deliveries of the log. */
  function SendSurplus(st: State, n: NodeId): int
    requires n in st.nodes
  {
    st.nodes[n].txBytes - Received(st.log, n)
  }

  lemma BridgeInputs(h: Handle)
    requires HasInput(Bridge, h)
    ensures h == AIn || h == BIn
  {
    var inputs := ProviderOf(Bridge).value.inputs;
    assert inputs[1..] == [BytesPort(BIn)] && inputs[1..][1..] == [];
    assert FindPort(inputs, h) == if h == AIn then Some(inputs[0]) else FindPort(inputs[1..], h);
  }

  lemma AbsorbSends(kind: NodeType, w: World, st: State, p: PortRef, data: Bytes, depth: nat, n: NodeId)
    requires p.node in st.nodes && n in st.nodes && HasInput(kind, p.handle) && (p.node == n ==> SendsOn(kind))
    ensures SendSurplus(Absorb(kind, w, st, p, data, depth).st, n) == SendSurplus(st, n)
  {
    var log := st.log + [Delivery(p, data, depth)];
    assert log[..|log| - 1] == st.log;
    if p.node == n && kind == Bridge {
      BridgeInputs(p.handle);
    }
  }

  lemma {:induction false} ReceiveSends(g: Topo, w: World, st: State, p: PortRef, data: Bytes, depth: nat, n: NodeId)
    requires Sound(g) && st.nodes.Keys == g.types.Keys && n in g.types && SendsOn(g.types[n])
    requires p.node in g.types && HasInput(g.types[p.node], p.handle)
    ensures SendSurplus(Receive(g, w, st, p, data, depth).st, n) == SendSurplus(st, n)
    decreases Height(g, p), 2, 0
  {
    if data != [] {
      AbsorbSends(g.types[p.node], w, st, p, data, depth, n);
      var a := Absorb(g.types[p.node], w, st, p, data, depth);
      if a.forward.Some? {
        var o := PortRef(p.node, a.forward.value.0);
        EmitSends(g, w, a.st, o, Targets(g.edges, o), a.forward.value.1, depth, n);
      }
    }
  }

  lemma {:induction false} EmitSends(g: Topo, w: World, st: State, o: PortRef, targets: seq<PortRef>, data: Bytes,
                                     depth: nat, n: NodeId)
    requires Sound(g) && st.nodes.Keys == g.types.Keys && n in g.types && SendsOn(g.types[n])
    requires forall t :: t in targets ==> t in Targets(g.edges, o)
    ensures SendSurplus(EmitTo(g, w, st, o, targets, data, depth).st, n) == SendSurplus(st, n)
    decreases Level(g, o.node), 0, |targets|
  {
    if targets != [] {
      TargetIsLower(g, o, targets[0]);
      ReceiveSends(g, w, st, targets[0], data, depth + 1, n);
      EmitSends(g, w, Receive(g, w, st, targets[0], data, depth + 1).st, o, targets[1..], data, depth, n);
    }
  }

  // ---------------------------------------------------------------------------------------------
  // What the nodes keep
  // ---------------------------------------------------------------------------------------------

  /** Kinds that keep every byte they receive. */
  predicate KeepsBytes(kind: NodeType) {
    kind == Virtual || kind == ModbusSlave || kind == FecbusSlave || kind == ModbusMaster || kind == FecbusMaster
  }

  /** Kinds that keep every payload they receive as a frame. */
  predicate KeepsFrames(kind: NodeType) {
    kind == Monitor || kind == ScriptAnalyzer || kind == ModbusSlave || kind == ModbusMaster
  }

  /** The payloads delivered to a node from an index of the log on, in order. */
  function Payloads(log: seq<Delivery>, from: nat, n: NodeId): seq<Bytes> {
    if |log| <= from then []
    else
      var last := log[|log| - 1];
      Payloads(log[..|log| - 1], from, n) + if last.port.node == n then [last.data] else []
  }

  function Joined(payloads: seq<Bytes>): Bytes {
    if payloads == [] then [] else Joined(payloads[..|payloads| - 1]) + payloads[|payloads| - 1]
  }

  /** The frames that were received, as opposed to sent. */
  function Heard(frames: seq<Frame>): seq<Bytes> {
    if frames == [] then []
    else
      var last := frames[|frames| - 1];
      Heard(frames[..|frames| - 1]) + if last.sent then [] else [last.data]
  }

  lemma JoinedSnoc(payloads: seq<Bytes>, data: Bytes)
    ensures Joined(payloads + [data]) == Joined(payloads) + data
  {
    assert (payloads + [data])[..|payloads|] == payloads;
  }

  lemma HeardSnoc(frames: seq<Frame>, f: Frame)
    ensures Heard(frames + [f]) == Heard(frames) + if f.sent then [] else [f.data]
  {
    assert (frames + [f])[..|frames|] == frames;
  }

  lemma PayloadsSnoc(log: seq<Delivery>, from: nat, n: NodeId, d: Delivery)
    requires from <= |log|
    ensures Payloads(log + [d], from, n)
            == if d.port.node == n then Payloads(log, from, n) + [d.data] else Payloads(log, from, n)
  {
    assert (log + [d])[..|log|] == log;
  }

  /** Between two states a node was given these payloads, and kept exactly what its kind keeps. */
  ghost predicate KeptThese(kind: NodeType, base: NodeState, node: NodeState, got: seq<Bytes>) {
    && node.buffer == (if KeepsBytes(kind) then base.buffer + Joined(got) else base.buffer)
    && Heard(node.frames) == (if KeepsFrames(kind) then Heard(base.frames) + got else Heard(base.frames))
  }

  /** The same since the log had length `from`. */
  ghost predicate Kept(kind: NodeType, base: NodeState, st: State, n: NodeId, from: nat)
    requires n in st.nodes
  {
    from <= |st.log| && KeptThese(kind, base, st.nodes[n], Payloads(st.log, from, n))
  }

  lemma KeptAtStart(kind: NodeType, st: State, n: NodeId)
    requires n in st.nodes
    ensures Kept(kind, st.nodes[n], st, n, |st.log|)
  {
    assert Joined([]) == [] && Payloads(st.log, |st.log|, n) == [];
  }

  lemma KeptOneMore(kind: NodeType, base: NodeState, before: NodeState, after: NodeState, got: seq<Bytes>, data: Bytes)
    requires KeptThese(kind, base, before, got)
    requires after.buffer == if KeepsBytes(kind) then before.buffer + data else before.buffer
    requires Heard(after.frames) == if KeepsFrames(kind) then Heard(before.frames) + [data] else Heard(before.frames)
    ensures KeptThese(kind, base, after, got + [data])
  {
    JoinedSnoc(got, data);
    AppendAssoc(base.buffer, Joined(got), data);
    AppendAssoc(Heard(base.frames), got, [data]);
  }

  lemma AbsorbElsewhere(kind: NodeType, w: World, st: State, p: PortRef, data: Bytes, depth: nat, n: NodeId)
    requires p.node in st.nodes && n in st.nodes && p.node != n
    ensures Absorb(kind, w, st, p, data, depth).st.nodes[n] == st.nodes[n]
  {
  }

  lemma AbsorbBuffers(kind: NodeType, w: World, st: State, p: PortRef, data: Bytes, depth: nat)
    requires p.node in st.nodes
    ensures Absorb(kind, w, st, p, data, depth).st.nodes[p.node].buffer
            == if KeepsBytes(kind) then st.nodes[p.node].buffer + data else st.nodes[p.node].buffer
  {
  }

  /** The received frame, and behind it the reply of a MODBUS slave, if it replies. */
  lemma AbsorbFrames(kind: NodeType, w: World, st: State, p: PortRef, data: Bytes, depth: nat)
    returns (sent: seq<Frame>)
    requires p.node in st.nodes
    ensures |sent| <= 1 && forall f :: f in sent ==> f.sent
    ensures Absorb(kind, w, st, p, data, depth).st.nodes[p.node].frames
            == if KeepsFrames(kind) then st.nodes[p.node].frames + [Frame(data, false)] + sent
               else st.nodes[p.node].frames
  {
    sent := [];
    if kind == ModbusSlave {
      var reply := w.react(st.turn, st.log + [Delivery(p, data, depth)], p, data);
      if reply.Some? {
        sent := [Frame(reply.value, true)];
      }
    }
  }

  lemma AbsorbHears(kind: NodeType, w: World, st: State, p: PortRef, data: Bytes, depth: nat)
    requires p.node in st.nodes
    ensures Heard(Absorb(kind, w, st, p, data, depth).st.nodes[p.node].frames)
            == if KeepsFrames(kind) then Heard(st.nodes[p.node].frames) + [data] else Heard(st.nodes[p.node].frames)
  {
    var frames := st.nodes[p.node].frames;
    var sent := AbsorbFrames(kind, w, st, p, data, depth);
    HeardSnoc(frames, Frame(data, false));
    var heard := frames + [Frame(data, false)];
    if |sent| == 1 {
      assert sent == [sent[0]] && sent[0] in sent;
      HeardSnoc(heard, sent[0]);
    } else {
      assert heard + sent == heard;
    }
  }

  lemma AbsorbKeeps(g: Topo, w: World, st: State, p: PortRef, data: Bytes, depth: nat, base: NodeState, n: NodeId,
                    from: nat)
    requires st.nodes.Keys == g.types.Keys && p.node in g.types && n in g.types && Kept(g.types[n], base, st, n, from)
    ensures Kept(g.types[n], base, Absorb(g.types[p.node], w, st, p, data, depth).st, n, from)
  {
    var after := Absorb(g.types[p.node], w, st, p, data, depth).st;
    PayloadsSnoc(st.log, from, n, Delivery(p, data, depth));
    if p.node == n {
      AbsorbBuffers(g.types[n], w, st, p, data, depth);
      AbsorbHears(g.types[n], w, st, p, data, depth);
      KeptOneMore(g.types[n], base, st.nodes[n], after.nodes[n], Payloads(st.log, from, n), data);
    } else {
      AbsorbElsewhere(g.types[p.node], w, st, p, data, depth, n);
    }
  }

  lemma {:induction false} ReceiveKeeps(g: Topo, w: World, st: State, p: PortRef, data: Bytes, depth: nat,
                                        base: NodeState, n: NodeId, from: nat)
    requires Sound(g) && st.nodes.Keys == g.types.Keys && n in g.types && Kept(g.types[n], base, st, n, from)
    ensures Kept(g.types[n], base, Receive(g, w, st, p, data, depth).st, n, from)
    decreases Height(g, p), 2, 0
  {
    if p.node in g.types && data != [] {
      AbsorbKeeps(g, w, st, p, data, depth, base, n, from);
      var a := Absorb(g.types[p.node], w, st, p, data, depth);
      if a.forward.Some? {
        var o := PortRef(p.node, a.forward.value.0);
        EmitKeeps(g, w, a.st, o, Targets(g.edges, o), a.forward.value.1, depth, base, n, from);
      }
    }
  }

  lemma {:induction false} EmitKeeps(g: Topo, w: World, st: State, o: PortRef, targets: seq<PortRef>, data: Bytes,
                                     depth: nat, base: NodeState, n: NodeId, from: nat)
    requires Sound(g) && st.nodes.Keys == g.types.Keys && n in g.types && Kept(g.types[n], base, st, n, from)
    requires forall t :: t in targets ==> t in Targets(g.edges, o)
    ensures Kept(g.types[n], base, EmitTo(g, w, st, o, targets, data, depth).st, n, from)
    decreases Level(g, o.node), 0, |targets|
  {
    if targets != [] {
      TargetIsLower(g, o, targets[0]);
      ReceiveKeeps(g, w, st, targets[0], data, depth + 1, base, n, from);
      var first := Receive(g, w, st, targets[0], data, depth + 1);
      EmitKeeps(g, w, first.st, o, targets[1..], data, depth, base, n, from);
    }
  }

  // ---------------------------------------------------------------------------------------------
  // Graphs that pass bytes on unchanged
  // ---------------------------------------------------------------------------------------------

  /** Virtual ports and bridges pass every payload on; the other kinds named here end it. */
  predicate IsTransparent(kind: NodeType) {
    kind != Filter && kind != ScriptTransform && kind != ModbusSlave && kind != FecbusSlave
  }

  /** No node that a payload can come to from this input port changes, holds back or answers it. */
  ghost predicate TransparentFrom(g: Topo, p: PortRef) {
    forall q :: Reach(Hops(g), p, q) && q.node in g.types ==> IsTransparent(g.types[q.node])
  }

  /** None downstream of an output port does. */
  ghost predicate TransparentBelow(g: Topo, o: PortRef) {
    forall q :: Downstream(g, o, q) && q.node in g.types ==> IsTransparent(g.types[q.node])
  }

  lemma TransparentTargets(g: Topo, o: PortRef)
    requires TransparentBelow(g, o)
    ensures forall t :: t in Targets(g.edges, o) ==> TransparentFrom(g, t)
  {
    forall t, q | t in Targets(g.edges, o) && Reach(Hops(g), t, q) && q.node in g.types
      ensures IsTransparent(g.types[q.node])
    {
      assert Downstream(g, o, q);
    }
  }

  lemma TransparentNext(g: Topo, p: PortRef, o: PortRef)
    requires Sound(g) && TransparentFrom(g, p) && p.node in g.types && o.node == p.node
    requires Feed(g.types[p.node], o.handle) == Some(p.handle)
    ensures forall t :: t in Targets(g.edges, o) ==> TransparentFrom(g, t)
  {
    forall t, q | t in Targets(g.edges, o) && Reach(Hops(g), t, q) && q.node in g.types
      ensures IsTransparent(g.types[q.node])
    {
      TargetIsHop(g, p, o, t);
      ReachTrans(Hops(g), p, t, q);
    }
  }

  ghost predicate AllCarry(log: seq<Delivery>, from: nat, data: Bytes) {
    forall i :: from <= i < |log| ==> log[i].data == data
  }

  lemma TransparentForwards(g: Topo, w: World, st: State, p: PortRef, data: Bytes, depth: nat, h: Handle)
    requires p.node in st.nodes && p.node in g.types && HasInput(g.types[p.node], p.handle)
    requires IsTransparent(g.types[p.node])
    ensures var a := Absorb(g.types[p.node], w, st, p, data, depth);
            && (a.forward.Some? ==> a.forward.value.1 == data)
            && (Feed(g.types[p.node], h) == Some(p.handle) ==> a.forward == Some((h, data)))
  {
  }

  lemma {:induction false} ReceiveCovers(g: Topo, w: World, st: State, p: PortRef, data: Bytes, depth: nat)
    requires Sound(g) && TransparentFrom(g, p) && st.nodes.Keys == g.types.Keys && data != []
    requires p.node in g.types && HasInput(g.types[p.node], p.handle)
    ensures var log := Receive(g, w, st, p, data, depth).st.log;
            && st.log <= log && AllCarry(log, |st.log|, data)
            && forall q :: Reach(Hops(g), p, q) ==> Visits(log, |st.log|, q)
    decreases Height(g, p), 2, 0
  {
    var log := Receive(g, w, st, p, data, depth).st.log;
    var a := Absorb(g.types[p.node], w, st, p, data, depth);
    ReachSelf(Hops(g), p);
    AbsorbForwards(g, w, st, p, data, depth);
    TransparentForwards(g, w, st, p, data, depth, In);
    if a.forward.Some? {
      var o := PortRef(p.node, a.forward.value.0);
      TransparentNext(g, p, o);
      EmitCovers(g, w, a.st, o, Targets(g.edges, o), data, depth);
    }
    assert a.st.log <= log && log[|st.log|] == a.st.log[|st.log|];
    forall q | Reach(Hops(g), p, q)
      ensures Visits(log, |st.log|, q)
    {
      if q != p {
        ReachFirstEdge(Hops(g), p, q);
        var x :| (p, x) in Hops(g) && Reach(Hops(g), x, q);
        var e := HopEdge(g, p, x);
        TransparentForwards(g, w, st, p, data, depth, e.sourceHandle);
        assert Visits(log, |a.st.log|, q);
      }
    }
  }

  lemma {:induction false} EmitCovers(g: Topo, w: World, st: State, o: PortRef, targets: seq<PortRef>, data: Bytes,
                                      depth: nat)
    requires Sound(g) && st.nodes.Keys == g.types.Keys && data != []
    requires forall t :: t in targets ==> t in Targets(g.edges, o) && TransparentFrom(g, t)
    ensures var log := EmitTo(g, w, st, o, targets, data, depth).st.log;
            && st.log <= log && AllCarry(log, |st.log|, data)
            && forall t, q :: t in targets && Reach(Hops(g), t, q) ==> Visits(log, |st.log|, q)
    decreases Level(g, o.node), 0, |targets|
  {
    if targets != [] {
      var t := targets[0];
      TargetIsLower(g, o, t);
      var first := Receive(g, w, st, t, data, depth + 1);
      ReceiveCovers(g, w, st, t, data, depth + 1);
      EmitCovers(g, w, first.st, o, targets[1..], data, depth);
      var log := EmitTo(g, w, st, o, targets, data, depth).st.log;
      forall u, q | u in targets && Reach(Hops(g), u, q)
        ensures Visits(log, |st.log|, q)
      {
        if u == t {
          var i :| |st.log| <= i < |first.st.log| && first.st.log[i].port == q;
          assert log[i].port == q;
        } else {
          assert u in targets[1..];
          assert Visits(log, |first.st.log|, q);
        }
      }
      forall i | |st.log| <= i < |log|
        ensures log[i].data == data
      {
        if i < |first.st.log| {
          assert first.st.log[i] == log[i];
        }
      }
    }
  }

  // ---------------------------------------------------------------------------------------------
  // Main results, for one injection at an output port
  // ---------------------------------------------------------------------------------------------

  lemma EmitVisitsOnce(g: Topo, w: World, st: State, o: PortRef, data: Bytes)
    requires Sound(g) && st.nodes.Keys == g.types.Keys && o.node in g.types
    ensures var log := Emit(g, w, st, o, data, 0).st.log;
            && st.log <= log
            && NoRepeats(log, |st.log|)
            && DepthsWithin(log, |st.log|, 1, |g.types|)
            && forall q :: Visits(log, |st.log|, q) ==> Downstream(g, o, q)
  {
    EmitTrace(g, w, st, o, 0, data, 0);
    assert Targets(g.edges, o)[0..] == Targets(g.edges, o);
    LevelBound(g, o.node);
  }

  /**
   In every accepted topology, whatever its scripts, filters and slaves answer, one emission ends,
   visits only ports downstream, none of them twice, and nests no deeper than there are nodes.
   */
  lemma InjectionVisitsOnce(req: Request, w: World, st: State, o: PortRef, data: Bytes)
    requires Accepted(req)
    requires var g := Topo(TypesOf(req.nodes), req.edges); st.nodes.Keys == g.types.Keys && o.node in g.types
    ensures var g := Topo(TypesOf(req.nodes), req.edges);
            var log := Emit(g, w, st, o, data, 0).st.log;
            && st.log <= log
            && NoRepeats(log, |st.log|)
            && DepthsWithin(log, |st.log|, 1, |g.types|)
            && forall q :: Visits(log, |st.log|, q) ==> Downstream(g, o, q)
  {
    AcceptedIsSound(req);
    EmitVisitsOnce(Topo(TypesOf(req.nodes), req.edges), w, st, o, data);
  }

  /**
   The receive counters grow by exactly the bytes delivered to their node in this emission, except that those of
   remote nodes stay as they are.
   */
  lemma InjectionAccounts(req: Request, w: World, st: State, o: PortRef, data: Bytes, n: NodeId)
    requires Accepted(req)
    requires var g := Topo(TypesOf(req.nodes), req.edges);
             st.nodes.Keys == g.types.Keys && n in g.types
    ensures var g := Topo(TypesOf(req.nodes), req.edges);
            var r := Emit(g, w, st, o, data, 0);
            r.st.nodes[n].rxBytes - st.nodes[n].rxBytes
            == if g.types[n] == Remote then 0 else Received(r.st.log, n) - Received(st.log, n)
  {
    var g := Topo(TypesOf(req.nodes), req.edges);
    EmitAccounts(g, w, st, o, Targets(g.edges, o), data, 0, n);
  }

  /** The downstream input ports of one node. */
  ghost function DownstreamPorts(g: Topo, o: PortRef, n: NodeId): set<PortRef> {
    set e | e in g.edges && e.target == n && Downstream(g, o, PortRef(e.target, e.targetHandle))
      :: PortRef(e.target, e.targetHandle)
  }

  /** A virtual port or bridge sends on, in one emission, exactly as many bytes as are delivered to it. */
  lemma InjectionIsSentOn(req: Request, w: World, st: State, o: PortRef, data: Bytes, n: NodeId)
    requires Accepted(req)
    requires var g := Topo(TypesOf(req.nodes), req.edges);
             st.nodes.Keys == g.types.Keys && n in g.types && SendsOn(g.types[n])
    ensures var r := Emit(Topo(TypesOf(req.nodes), req.edges), w, st, o, data, 0);
            r.st.nodes[n].txBytes - st.nodes[n].txBytes == Received(r.st.log, n) - Received(st.log, n)
  {
    AcceptedIsSound(req);
    var g := Topo(TypesOf(req.nodes), req.edges);
    EmitSends(g, w, st, o, Targets(g.edges, o), data, 0, n);
  }

  /**
   In every accepted topology, what an emission delivers to a node is what the node keeps, in the order of
   delivery: the bytes at the end of its buffer, the payloads as received frames, each exactly for the kinds
   that keep them, and nothing else is added.
   */
  lemma InjectionIsKept(req: Request, w: World, st: State, o: PortRef, data: Bytes, n: NodeId)
    requires Accepted(req)
    requires var g := Topo(TypesOf(req.nodes), req.edges); st.nodes.Keys == g.types.Keys && n in g.types
    ensures var g := Topo(TypesOf(req.nodes), req.edges);
            var r := Emit(g, w, st, o, data, 0).st;
            var got := Payloads(r.log, |st.log|, n);
            && r.nodes[n].buffer
               == (if KeepsBytes(g.types[n]) then st.nodes[n].buffer + Joined(got) else st.nodes[n].buffer)
            && Heard(r.nodes[n].frames)
               == (if KeepsFrames(g.types[n]) then Heard(st.nodes[n].frames) + got else Heard(st.nodes[n].frames))
  {
    AcceptedIsSound(req);
    var g := Topo(TypesOf(req.nodes), req.edges);
    KeptAtStart(g.types[n], st, n);
    EmitKeeps(g, w, st, o, Targets(g.edges, o), data, 0, st.nodes[n], n, |st.log|);
  }

  lemma {:induction false} HeardJoins(a: seq<Frame>, b: seq<Frame>)
    ensures Heard(a + b) == Heard(a) + Heard(b)
  {
    if b == [] {
      assert a + b == a;
    } else {
      var before := b[..|b| - 1];
      HeardJoins(a, before);
      assert (a + b)[..|a + b| - 1] == a + before;
      assert (a + b)[|a + b| - 1] == b[|b| - 1];
    }
  }

  lemma HeardOfSuffix(frames: seq<Frame>, i: nat)
    requires i <= |frames|
    ensures |Heard(frames[..i])| <= |Heard(frames)| && Heard(frames[i..]) == Heard(frames)[|Heard(frames[..i])|..]
  {
    HeardJoins(frames[..i], frames[i..]);
    assert frames == frames[..i] + frames[i..];
  }

  lemma RetainedIsHeard(frames: seq<Frame>) returns (k: nat)
    ensures k <= |Heard(frames)| && Heard(Retained(frames)) == Heard(frames)[k..]
  {
    RetainedIsSuffix(frames);
    var i := |frames| - |Retained(frames)|;
    HeardOfSuffix(frames, i);
    k := |Heard(frames[..i])|;
  }

  /** Of all that a node of a frame-keeping kind has heard, before and in this emission, it still holds the end. */
  lemma InjectionIsRetained(req: Request, w: World, st: State, o: PortRef, data: Bytes, n: NodeId) returns (k: nat)
    requires Accepted(req)
    requires var g := Topo(TypesOf(req.nodes), req.edges);
             st.nodes.Keys == g.types.Keys && n in g.types && KeepsFrames(g.types[n])
    ensures var r := Emit(Topo(TypesOf(req.nodes), req.edges), w, st, o, data, 0).st;
            var all := Heard(st.nodes[n].frames) + Payloads(r.log, |st.log|, n);
            k <= |all| && Heard(Retained(r.nodes[n].frames)) == all[k..]
  {
    InjectionIsKept(req, w, st, o, data, n);
    k := RetainedIsHeard(Emit(Topo(TypesOf(req.nodes), req.edges), w, st, o, data, 0).st.nodes[n].frames);
  }

  lemma PrefixOf<T>(a: seq<T>, s: seq<T>)
    requires a <= s
    ensures s[..|a|] == a
  {
  }

  /** When a stretch of the log visits the downstream ports once each, a node receives a payload for each of its own. */
  lemma CountsDownstream(g: Topo, log: seq<Delivery>, from: nat, data: Bytes, o: PortRef, n: NodeId)
    requires Sound(g) && from <= |log| && NoRepeats(log, from) && AllCarry(log, from, data)
    requires forall q :: Visits(log, from, q) <==> Downstream(g, o, q)
    ensures Received(log, n) == Received(log[..from], n) + |data| * |DownstreamPorts(g, o, n)|
  {
    ReceivedCounts(log, from, data, n);
    DownstreamIsVisited(g, log, from, o, n);
  }

  /**
   In an accepted topology, where all nodes downstream pass bytes on unchanged, one emission of a payload delivers
   exactly that payload to exactly the downstream input ports, each once, and every node counts the
   payload once for each of its downstream ports, but for remote nodes, which count nothing of it.
   */
  lemma InjectionReachesExactly(req: Request, w: World, st: State, o: PortRef, data: Bytes)
    requires Accepted(req) && data != []
    requires var g := Topo(TypesOf(req.nodes), req.edges);
             TransparentBelow(g, o) && st.nodes.Keys == g.types.Keys && o.node in g.types
    ensures var g := Topo(TypesOf(req.nodes), req.edges);
            var r := Emit(g, w, st, o, data, 0);
            && st.log <= r.st.log
            && NoRepeats(r.st.log, |st.log|)
            && AllCarry(r.st.log, |st.log|, data)
            && (forall q :: Visits(r.st.log, |st.log|, q) <==> Downstream(g, o, q))
            && forall n :: n in g.types ==>
                             r.st.nodes[n].rxBytes == st.nodes[n].rxBytes
                             + if g.types[n] == Remote then 0 else |data| * |DownstreamPorts(g, o, n)|
  {
    var g := Topo(TypesOf(req.nodes), req.edges);
    var r := Emit(g, w, st, o, data, 0);
    InjectionVisitsOnce(req, w, st, o, data);
    TransparentTargets(g, o);
    EmitCovers(g, w, st, o, Targets(g.edges, o), data, 0);
    forall n | n in g.types
      ensures r.st.nodes[n].rxBytes == st.nodes[n].rxBytes
              + if g.types[n] == Remote then 0 else |data| * |DownstreamPorts(g, o, n)|
    {
      InjectionAccounts(req, w, st, o, data, n);
      CountsDownstream(g, r.st.log, |st.log|, data, o, n);
      PrefixOf(st.log, r.st.log);
    }
  }

  /** The ports of one node that a stretch of the log visits. */
  function VisitedPorts(log: seq<Delivery>, from: nat, n: NodeId): set<PortRef> {
    set i | from <= i < |log| && log[i].port.node == n :: log[i].port
  }

  lemma VisitedSnoc(log: seq<Delivery>, from: nat, n: NodeId)
    requires from < |log|
    ensures VisitedPorts(log, from, n) ==
            VisitedPorts(log[..|log| - 1], from, n)
            + if log[|log| - 1].port.node == n then {log[|log| - 1].port} else {}
  {
    var before := log[..|log| - 1];
    forall q
      ensures q in VisitedPorts(log, from, n) <==>
              q in VisitedPorts(before, from, n) || (log[|log| - 1].port == q && q.node == n)
    {
      if q in VisitedPorts(before, from, n) {
        var i :| from <= i < |before| && before[i].port.node == n && before[i].port == q;
        assert log[i].port == q;
      }
      if q in VisitedPorts(log, from, n) {
        var i :| from <= i < |log| && log[i].port.node == n && log[i].port == q;
        assert i < |before| ==> before[i].port == q;
      }
    }
  }

  lemma {:induction false} ReceivedCounts(log: seq<Delivery>, from: nat, data: Bytes, n: NodeId)
    requires from <= |log| && NoRepeats(log, from) && AllCarry(log, from, data)
    ensures Received(log, n) == Received(log[..from], n) + |data| * |VisitedPorts(log, from, n)|
  {
    if from == |log| {
      assert log[..from] == log;
      assert VisitedPorts(log, from, n) == {};
    } else {
      var before, last := log[..|log| - 1], log[|log| - 1];
      ReceivedCounts(before, from, data, n);
      assert before[..from] == log[..from];
      VisitedSnoc(log, from, n);
      var u := VisitedPorts(before, from, n);
      assert last.port !in u;
      assert last.data == data;
      if last.port.node == n {
        assert |u + {last.port}| == |u| + 1;
        Distribute(|data|, |u|);
      }
    }
  }

  lemma Distribute(k: nat, m: nat)
    ensures k * (m + 1) == k * m + k
  {
  }

  lemma DownstreamIsVisited(g: Topo, log: seq<Delivery>, from: nat, o: PortRef, n: NodeId)
    requires Sound(g)
    requires forall q :: Visits(log, from, q) <==> Downstream(g, o, q)
    ensures DownstreamPorts(g, o, n) == VisitedPorts(log, from, n)
  {
    forall q
      ensures q in DownstreamPorts(g, o, n) <==> q.node == n && Downstream(g, o, q)
    {
      if Downstream(g, o, q) {
        var t :| t in Targets(g.edges, o) && Reach(Hops(g), t, q);
        if t == q {
          TargetsMembers(g.edges, o, q);
        } else {
          ReachLastEdge(Hops(g), t, q);
          var x :| (x, q) in Hops(g) && Reach(Hops(g), t, x);
          var e := HopEdge(g, x, q);
        }
      }
    }
    forall q
      ensures q in VisitedPorts(log, from, n) <==> q.node == n && Visits(log, from, q)
    {
    }
  }

  // ---------------------------------------------------------------------------------------------
  // Whole runs
  // ---------------------------------------------------------------------------------------------

  function Run(g: Topo, w: World, st: State, injections: seq<Injection>): (r: State)
    requires Sound(g) && st.nodes.Keys == g.types.Keys
    ensures r.nodes.Keys == g.types.Keys
  {
    if injections == [] then st
    else Inject(g, w, Run(g, w, st, injections[..|injections| - 1]), injections[|injections| - 1]).st
  }

  /** The bytes that devices hand to a node. */
  function FromDevice(injections: seq<Injection>, n: NodeId): nat {
    if injections == [] then 0
    else
      var inj := injections[|injections| - 1];
      FromDevice(injections[..|injections| - 1], n) + if inj.DeviceData? && inj.node == n then |inj.data| else 0
  }

  lemma EnterAccounts(kind: NodeType, w: World, st: State, inj: Injection, own: NodeType, n: NodeId)
    requires inj.node in st.nodes && n in st.nodes
    ensures Surplus(own, Enter(kind, w, st, inj).st, n)
            == Surplus(own, st, n) + if inj.DeviceData? && inj.node == n then |inj.data| else 0
  {
  }

  lemma InjectAccounts(g: Topo, w: World, st: State, inj: Injection, n: NodeId)
    requires Sound(g) && st.nodes.Keys == g.types.Keys && n in g.types
    ensures Surplus(g.types[n], Inject(g, w, st, inj).st, n)
            == Surplus(g.types[n], st, n) + if inj.DeviceData? && inj.node == n then |inj.data| else 0
  {
    var st := Begin(st);
    if inj.node in g.types {
      if inj.SendTo? && g.types[inj.node] == Virtual {
        ReceiveAccounts(g, w, st, PortRef(inj.node, Tx), inj.data, 1, n);
      } else {
        EnterAccounts(g.types[inj.node], w, st, inj, g.types[n], n);
        var e := Enter(g.types[inj.node], w, st, inj);
        if e.port.Some? {
          EmitAccounts(g, w, e.st, e.port.value, Targets(g.edges, e.port.value), inj.data, 0, n);
        }
      }
    }
  }

  /**
   Over every run, a receive counter is what was delivered to the node plus what its device sent, and of a remote
   node only what its socket handed it.
   */
  lemma {:induction false} RunAccounts(g: Topo, w: World, st: State, injections: seq<Injection>, n: NodeId)
    requires Sound(g) && st.nodes.Keys == g.types.Keys && n in g.types
    requires st.nodes[n].rxBytes == 0 && st.log == []
    ensures var r := Run(g, w, st, injections);
            r.nodes[n].rxBytes == Counted(g.types[n], r.log, n) + FromDevice(injections, n)
  {
    if injections != [] {
      var before := injections[..|injections| - 1];
      RunAccounts(g, w, st, before, n);
      InjectAccounts(g, w, Run(g, w, st, before), injections[|injections| - 1], n);
    }
  }

  /** No injection of any kind visits an input port twice or nests deeper than one more than the nodes. */
  lemma EveryInjectionVisitsOnce(g: Topo, w: World, st: State, inj: Injection)
    requires Sound(g) && st.nodes.Keys == g.types.Keys
    ensures var log := Inject(g, w, st, inj).st.log;
            st.log <= log && NoRepeats(log, |st.log|) && DepthsWithin(log, |st.log|, 1, |g.types| + 1)
  {
    var st := Begin(st);
    if inj.node in g.types {
      if inj.SendTo? && g.types[inj.node] == Virtual {
        LevelBound(g, inj.node);
        ReceiveTrace(g, w, st, PortRef(inj.node, Tx), inj.data, 1);
      } else {
        var e := Enter(g.types[inj.node], w, st, inj);
        if e.port.Some? {
          EmitVisitsOnce(g, w, e.st, e.port.value, inj.data);
        }
      }
    }
  }
}
