/**
 The backend validator of a topology start request, and what it means for a request to pass it:
 the per-edge depth-first searches together establish that the node graph is acyclic.
 */
module RuntimeValidator {
  import opened Wrappers
  import opened Digraph
  import opened NodeSettings
  import opened Topology

  datatype Request = Request(nodes: seq<Node>, edges: seq<Edge>)

  datatype Problem =
    | EmptyNodeId
    | DuplicateNodeId(node: NodeId)
    | ProviderNotFound(kind: NodeType)
    | RemoteSetting(node: NodeId, issue: Issue)
    | ResourceDuplicated(key: ResourceKey, previous: NodeId, node: NodeId)
    | EmptyEdgeId
    | DuplicateEdgeId(edge: string)
    | SourceNotFound(edge: string)
    | TargetNotFound(edge: string)
    | SelfConnection(edge: string)
    | OutputPortNotFound(edge: string)
    | InputPortNotFound(edge: string)
    | IncompatibleKinds(edge: string)
    | InputAlreadyConnected(edge: string)
    | DirectedCycle(edge: string)

  /** Some other edge of the request ends in the same input port. */
  ghost predicate InputTaken(edges: seq<Edge>, edge: Edge) {
    Taken(Without(edges, edge.id), edge)
  }

  /** Removing this edge's id leaves a node graph that still leads from its target to its source. */
  ghost predicate ClosesCycle(types: map<NodeId, NodeType>, edges: seq<Edge>, edge: Edge) {
    && !IsTerminal(types, edge)
    && Reach(NodeGraph(types, Without(edges, edge.id)), edge.target, edge.source)
  }

  /** The problems of one edge, in the order in which the validator reports them. */
  ghost function EdgeProblems(edges: seq<Edge>, edge: Edge, types: map<NodeId, NodeType>): seq<Problem> {
    if edge.source !in types || edge.target !in types then
      (if edge.source !in types then [SourceNotFound(edge.id)] else [])
      + (if edge.target !in types then [TargetNotFound(edge.id)] else [])
    else
      var self := if edge.source == edge.target then [SelfConnection(edge.id)] else [];
      var from, to := ProviderOf(types[edge.source]), ProviderOf(types[edge.target]);
      if from.None? || to.None? then self
      else
        var output := FindPort(from.value.outputs, edge.sourceHandle);
        var input := FindPort(to.value.inputs, edge.targetHandle);
        if output.None? || input.None? then
          self
          + (if output.None? then [OutputPortNotFound(edge.id)] else [])
          + (if input.None? then [InputPortNotFound(edge.id)] else [])
        else
          self + JoinProblems(edges, edge, types, output.value, input.value)
  }

  /** The problems of joining two declared ports. */
  ghost function JoinProblems(edges: seq<Edge>, edge: Edge, types: map<NodeId, NodeType>, output: PortSpec,
                              input: PortSpec): seq<Problem> {
    (if output.kind != input.kind then [IncompatibleKinds(edge.id)] else [])
    + (if !input.multiple && InputTaken(edges, edge) then [InputAlreadyConnected(edge.id)] else [])
    + (if ClosesCycle(types, edges, edge) then [DirectedCycle(edge.id)] else [])
  }

  method OtherEdges(edges: seq<Edge>, id: string) returns (out: seq<Edge>)
    ensures out == Without(edges, id)
  {
    out := [];
    for i := 0 to |edges|
      invariant Without(edges, id) == out + Without(edges[i..], id)
    {
      if edges[i].id != id {
        out := out + [edges[i]];
      }
    }
  }

  lemma NothingIsSkipped(types: map<NodeId, NodeType>, edges: seq<Edge>)
    ensures Avoiding(NodeGraph(types, edges), {}) == NodeGraph(types, edges)
  {
  }

  method ValidateEdge(edges: seq<Edge>, edge: Edge, types: map<NodeId, NodeType>) returns (errs: seq<Problem>)
    ensures errs == EdgeProblems(edges, edge, types)
  {
    errs := [];
    if edge.source !in types {
      errs := errs + [SourceNotFound(edge.id)];
    }
    if edge.target !in types {
      errs := errs + [TargetNotFound(edge.id)];
    }
    if edge.source !in types || edge.target !in types {
      return;
    }
    if edge.source == edge.target {
      errs := errs + [SelfConnection(edge.id)];
    }
    var from, to := ProviderOf(types[edge.source]), ProviderOf(types[edge.target]);
    if from.None? || to.None? {
      return;
    }
    var output, input := FindPort(from.value.outputs, edge.sourceHandle), FindPort(to.value.inputs, edge.targetHandle);
    if output.None? {
      errs := errs + [OutputPortNotFound(edge.id)];
    }
    if input.None? {
      errs := errs + [InputPortNotFound(edge.id)];
    }
    if output.None? || input.None? {
      return;
    }
    var more := ValidateJoin(edges, edge, types, output.value, input.value);
    errs := errs + more;
  }

  method ValidateJoin(edges: seq<Edge>, edge: Edge, types: map<NodeId, NodeType>, output: PortSpec, input: PortSpec)
    returns (errs: seq<Problem>)
    ensures errs == JoinProblems(edges, edge, types, output, input)
  {
    errs := [];
    if output.kind != input.kind {
      errs := errs + [IncompatibleKinds(edge.id)];
    }
    var others := OtherEdges(edges, edge.id);
    if !input.multiple {
      var taken := IsTaken(others, edge);
      if taken {
        errs := errs + [InputAlreadyConnected(edge.id)];
      }
    }
    if !IsTerminal(types, edge) {
      var cycle := CreatesCycle(edge, others, types, {});
      NothingIsSkipped(types, others);
      if cycle {
        errs := errs + [DirectedCycle(edge.id)];
      }
    }
  }

  /** Nodes without an id never enter the node map. */
  function Named(nodes: seq<Node>): seq<Node> {
    if nodes == [] then []
    else
      var before, n := Named(nodes[..|nodes| - 1]), nodes[|nodes| - 1];
      if n.id == "" then before else before + [n]
  }

  function TypesOf(nodes: seq<Node>): map<NodeId, NodeType> {
    FirstTypes(Named(nodes))
  }

  /** The problems of one node, given the types of the nodes before it. */
  function NodeStep(types: map<NodeId, NodeType>, n: Node): seq<Problem> {
    if n.id == "" then [EmptyNodeId]
    else if n.id in types then [DuplicateNodeId(n.id)]
    else
      (if ProviderOf(n.kind).None? then [ProviderNotFound(n.kind)] else [])
      + (if n.kind == Remote then SettingProblems(n.id, RemoteIssues(n.config)) else [])
  }

  function SettingProblems(node: NodeId, issues: seq<Issue>): (r: seq<Problem>)
    ensures |r| == |issues| && forall p :: p in r ==> p.RemoteSetting?
  {
    seq(|issues|, i requires 0 <= i < |issues| => RemoteSetting(node, issues[i]))
  }

  function NodeProblems(nodes: seq<Node>): seq<Problem> {
    if nodes == [] then []
    else NodeProblems(nodes[..|nodes| - 1]) + NodeStep(TypesOf(nodes[..|nodes| - 1]), nodes[|nodes| - 1])
  }

  /** What a node claims for itself. */
  function ClaimOf(n: Node): Option<ResourceKey> {
    match n.kind
    case Remote => RemoteClaim(n.config)
    case Physical | Virtual => PortClaim(n.config)
    case _ => None
  }

  /** The first of the nodes that claims this. */
  function FirstOwner(nodes: seq<Node>, key: ResourceKey): (r: Option<NodeId>)
    ensures r.Some? <==> exists n :: n in nodes && ClaimOf(n) == Some(key)
    ensures r.Some? ==> exists n :: n in nodes && ClaimOf(n) == Some(key) && n.id == r.value
  {
    if nodes == [] then None
    else
      var before, n := FirstOwner(nodes[..|nodes| - 1], key), nodes[|nodes| - 1];
      if before.None? && ClaimOf(n) == Some(key) then Some(n.id) else before
  }

  /** The problem of one node's claim, given the nodes before it. */
  function ClaimStep(before: seq<Node>, n: Node): seq<Problem> {
    match ClaimOf(n)
    case None => []
    case Some(key) =>
      match FirstOwner(before, key)
      case None => []
      case Some(previous) => [ResourceDuplicated(key, previous, n.id)]
  }

  function ResourceProblems(nodes: seq<Node>): seq<Problem> {
    if nodes == [] then []
    else ResourceProblems(nodes[..|nodes| - 1]) + ClaimStep(nodes[..|nodes| - 1], nodes[|nodes| - 1])
  }

  /** The claims made by the nodes so far, each with the node that made it first. */
  ghost predicate Records(used: map<ResourceKey, NodeId>, nodes: seq<Node>) {
    forall key :: FirstOwner(nodes, key) == if key in used then Some(used[key]) else None
  }

  lemma OwnerNext(nodes: seq<Node>, i: nat, key: ResourceKey)
    requires i < |nodes|
    ensures FirstOwner(nodes[..i + 1], key) ==
            if FirstOwner(nodes[..i], key).None? && ClaimOf(nodes[i]) == Some(key) then Some(nodes[i].id)
            else FirstOwner(nodes[..i], key)
  {
    assert nodes[..i + 1][..i] == nodes[..i];
  }

  lemma RecordsNext(used: map<ResourceKey, NodeId>, nodes: seq<Node>, i: nat)
    requires i < |nodes| && Records(used, nodes[..i])
    ensures var claim := ClaimOf(nodes[i]);
            Records(if claim.None? || claim.value in used then used else used[claim.value := nodes[i].id],
                    nodes[..i + 1])
  {
    forall key {
      OwnerNext(nodes, i, key);
    }
  }

  lemma ResourcesNext(nodes: seq<Node>, i: nat)
    requires i < |nodes|
    ensures ResourceProblems(nodes[..i + 1]) == ResourceProblems(nodes[..i]) + ClaimStep(nodes[..i], nodes[i])
  {
    assert nodes[..i + 1][..i] == nodes[..i];
  }

  /** Each claim is looked up among those recorded so far, and recorded if it is new. */
  method ValidateResources(nodes: seq<Node>) returns (errs: seq<Problem>)
    ensures errs == ResourceProblems(nodes)
  {
    errs := [];
    var used: map<ResourceKey, NodeId> := map[];
    for i := 0 to |nodes|
      invariant errs == ResourceProblems(nodes[..i])
      invariant Records(used, nodes[..i])
    {
      var node := nodes[i];
      ResourcesNext(nodes, i);
      RecordsNext(used, nodes, i);
      var claim := ClaimOf(node);
      if claim.None? {
        continue;
      }
      assert FirstOwner(nodes[..i], claim.value) == if claim.value in used then Some(used[claim.value]) else None;
      if claim.value in used {
        errs := errs + [ResourceDuplicated(claim.value, used[claim.value], node.id)];
      } else {
        used := used[claim.value := node.id];
      }
    }
    assert nodes[..|nodes|] == nodes;
  }

  /** No two nodes claim the same serial port, or the same endpoint in the same role. */
  ghost predicate ClaimsDiffer(nodes: seq<Node>) {
    forall i, j {:trigger ClaimOf(nodes[i]), ClaimOf(nodes[j])} ::
      0 <= i < j < |nodes| && ClaimOf(nodes[i]).Some? ==> ClaimOf(nodes[i]) != ClaimOf(nodes[j])
  }

  lemma ClaimsDifferSnoc(before: seq<Node>, n: Node)
    ensures ClaimsDiffer(before + [n]) <==>
            ClaimsDiffer(before) && (ClaimOf(n).Some? ==> forall m :: m in before ==> ClaimOf(m) != ClaimOf(n))
  {
    var nodes := before + [n];
    if ClaimsDiffer(nodes) {
      assert forall i :: 0 <= i < |before| ==> nodes[i] == before[i];
      assert nodes[|before|] == n;
      forall m | m in before && ClaimOf(n).Some?
        ensures ClaimOf(m) != ClaimOf(n)
      {
        var i :| 0 <= i < |before| && before[i] == m;
        assert ClaimOf(nodes[i]).Some? ==> ClaimOf(nodes[i]) != ClaimOf(nodes[|before|]);
      }
    }
  }

  /** The search through the recorded claims reports nothing exactly when no two nodes claim the same. */
  lemma {:induction false} ResourceProblemsIff(nodes: seq<Node>)
    ensures ResourceProblems(nodes) == [] <==> ClaimsDiffer(nodes)
  {
    if nodes != [] {
      var before, n := nodes[..|nodes| - 1], nodes[|nodes| - 1];
      assert nodes == before + [n];
      ResourceProblemsIff(before);
      EmptyConcat(ResourceProblems(before), ClaimStep(before, n));
      ClaimsDifferSnoc(before, n);
    }
  }

  /** The problems of one edge, given the edges before it. */
  ghost function EdgeStep(before: seq<Edge>, e: Edge, edges: seq<Edge>, types: map<NodeId, NodeType>): seq<Problem> {
    if e.id == "" then [EmptyEdgeId]
    else if exists f :: f in before && f.id == e.id then [DuplicateEdgeId(e.id)]
    else EdgeProblems(edges, e, types)
  }

  ghost function EdgeListProblems(prefix: seq<Edge>, edges: seq<Edge>, types: map<NodeId, NodeType>): seq<Problem> {
    if prefix == [] then []
    else
      EdgeListProblems(prefix[..|prefix| - 1], edges, types)
      + EdgeStep(prefix[..|prefix| - 1], prefix[|prefix| - 1], edges, types)
  }

  ghost function Problems(req: Request): seq<Problem> {
    NodeProblems(req.nodes) + ResourceProblems(req.nodes) + EdgeListProblems(req.edges, req.edges, TypesOf(req.nodes))
  }

  lemma TypesOfSnoc(nodes: seq<Node>, n: Node)
    ensures TypesOf(nodes + [n]) ==
            if n.id == "" || n.id in TypesOf(nodes) then TypesOf(nodes) else TypesOf(nodes)[n.id := n.kind]
  {
    assert (nodes + [n])[..|nodes|] == nodes;
    if n.id != "" {
      assert (Named(nodes) + [n])[..|Named(nodes)|] == Named(nodes);
    }
  }

  lemma NodesNext(nodes: seq<Node>, i: nat)
    requires i < |nodes|
    ensures NodeProblems(nodes[..i + 1]) == NodeProblems(nodes[..i]) + NodeStep(TypesOf(nodes[..i]), nodes[i])
    ensures TypesOf(nodes[..i + 1]) ==
            if nodes[i].id == "" || nodes[i].id in TypesOf(nodes[..i]) then TypesOf(nodes[..i])
            else TypesOf(nodes[..i])[nodes[i].id := nodes[i].kind]
  {
    assert nodes[..i + 1] == nodes[..i] + [nodes[i]] && nodes[..i + 1][..i] == nodes[..i];
    TypesOfSnoc(nodes[..i], nodes[i]);
  }

  method ValidateNodes(nodes: seq<Node>) returns (errs: seq<Problem>, types: map<NodeId, NodeType>)
    ensures errs == NodeProblems(nodes)
    ensures types == TypesOf(nodes)
  {
    errs, types := [], map[];
    for i := 0 to |nodes|
      invariant errs == NodeProblems(nodes[..i])
      invariant types == TypesOf(nodes[..i])
    {
      var node := nodes[i];
      NodesNext(nodes, i);
      if node.id == "" {
        errs := errs + [EmptyNodeId];
        continue;
      }
      if node.id in types {
        errs := errs + [DuplicateNodeId(node.id)];
        continue;
      }
      var more := ValidateKind(node, types);
      errs := errs + more;
      types := types[node.id := node.kind];
    }
    assert nodes[..|nodes|] == nodes;
  }

  method ValidateKind(node: Node, types: map<NodeId, NodeType>) returns (errs: seq<Problem>)
    requires node.id != "" && node.id !in types
    ensures errs == NodeStep(types, node)
  {
    errs := [];
    if ProviderOf(node.kind).None? {
      errs := errs + [ProviderNotFound(node.kind)];
    }
    if node.kind == Remote {
      errs := errs + SettingProblems(node.id, RemoteIssues(node.config));
    }
  }

  /** The ids that count as seen. */
  ghost function SeenIds(edges: seq<Edge>): set<string> {
    set f | f in edges && f.id != "" :: f.id
  }

  lemma SeenSnoc(edges: seq<Edge>, i: nat)
    requires i < |edges|
    ensures SeenIds(edges[..i + 1]) == SeenIds(edges[..i]) + if edges[i].id == "" then {} else {edges[i].id}
  {
    assert edges[..i + 1] == edges[..i] + [edges[i]];
  }

  lemma EdgeListSnoc(edges: seq<Edge>, i: nat, types: map<NodeId, NodeType>)
    requires i < |edges|
    ensures EdgeListProblems(edges[..i + 1], edges, types) ==
            EdgeListProblems(edges[..i], edges, types)
            + if edges[i].id == "" then [EmptyEdgeId]
              else if edges[i].id in SeenIds(edges[..i]) then [DuplicateEdgeId(edges[i].id)]
              else EdgeProblems(edges, edges[i], types)
  {
    assert edges[..i + 1][..i] == edges[..i];
  }

  method ValidateEdges(edges: seq<Edge>, types: map<NodeId, NodeType>) returns (errs: seq<Problem>)
    ensures errs == EdgeListProblems(edges, edges, types)
  {
    errs := [];
    var seen: set<string> := {};
    for i := 0 to |edges|
      invariant errs == EdgeListProblems(edges[..i], edges, types)
      invariant seen == SeenIds(edges[..i])
    {
      var edge := edges[i];
      EdgeListSnoc(edges, i, types);
      SeenSnoc(edges, i);
      if edge.id == "" {
        errs := errs + [EmptyEdgeId];
        continue;
      }
      if edge.id in seen {
        errs := errs + [DuplicateEdgeId(edge.id)];
        continue;
      }
      seen := seen + {edge.id};
      var more := ValidateEdge(edges, edge, types);
      errs := errs + more;
    }
    assert edges[..|edges|] == edges;
  }

  /** Accepted requests are the usable, well-formed, single-source, acyclic ones, and no others. */
  method Validate(req: Request) returns (errs: seq<Problem>)
    ensures errs == Problems(req)
    ensures errs == [] <==> Accepted(req)
  {
    var nodeErrs, types := ValidateNodes(req.nodes);
    var resourceErrs := ValidateResources(req.nodes);
    var edgeErrs := ValidateEdges(req.edges, types);
    errs := nodeErrs + resourceErrs + edgeErrs;
    AcceptedIff(req);
  }

  // ---------------------------------------------------------------------------------------------
  // What acceptance means
  // ---------------------------------------------------------------------------------------------

  ghost predicate NodesWellFormed(nodes: seq<Node>) {
    && (forall i :: 0 <= i < |nodes| ==> nodes[i].id != "" && ProviderOf(nodes[i].kind).Some?)
    && (forall i, j :: 0 <= i < j < |nodes| ==> nodes[i].id != nodes[j].id)
  }

  ghost predicate RemotesUsable(nodes: seq<Node>) {
    forall n {:trigger IsUsable(n.config)} :: n in nodes && n.kind == Remote ==> IsUsable(n.config)
  }

  /** Both ends exist, differ, and name declared ports. */
  predicate EndsWellFormed(types: map<NodeId, NodeType>, e: Edge) {
    && e.source in types && e.target in types && e.source != e.target
    && HasOutput(types[e.source], e.sourceHandle)
    && HasInput(types[e.target], e.targetHandle)
  }

  predicate HasOutput(kind: NodeType, h: Handle) {
    ProviderOf(kind).Some? && FindPort(ProviderOf(kind).value.outputs, h).Some?
  }

  predicate HasInput(kind: NodeType, h: Handle) {
    ProviderOf(kind).Some? && FindPort(ProviderOf(kind).value.inputs, h).Some?
  }

  ghost predicate SingleSource(edges: seq<Edge>) {
    forall i, j :: 0 <= i < j < |edges| ==>
                     edges[i].target != edges[j].target || edges[i].targetHandle != edges[j].targetHandle
  }

  ghost predicate NamedUniqueEdges(edges: seq<Edge>) {
    && (forall i :: 0 <= i < |edges| ==> edges[i].id != "")
    && UniqueEdgeIds(edges)
  }

  ghost predicate AllEndsWellFormed(types: map<NodeId, NodeType>, edges: seq<Edge>) {
    forall e :: e in edges ==> EndsWellFormed(types, e)
  }

  ghost predicate Accepted(req: Request) {
    var types := TypesOf(req.nodes);
    && NodesWellFormed(req.nodes)
    && RemotesUsable(req.nodes)
    && ClaimsDiffer(req.nodes)
    && NamedUniqueEdges(req.edges)
    && AllEndsWellFormed(types, req.edges)
    && SingleSource(req.edges)
    && Acyclic(NodeGraph(types, req.edges))
  }

  /**
   The per-edge searches report a directed cycle on some edge exactly when the edges that do not
   enter a master's rx port contain a cycle, although each search ignores its own edge.
   */
  lemma CycleReportedIff(types: map<NodeId, NodeType>, edges: seq<Edge>)
    requires UniqueEdgeIds(edges)
    ensures (exists e :: e in edges && ClosesCycle(types, edges, e)) <==> !Acyclic(NodeGraph(types, edges))
  {
    var E := NodeGraph(types, edges);
    forall e | e in edges
      ensures ClosesCycle(types, edges, e) <==> !IsTerminal(types, e) && Reach(E, e.target, e.source)
    {
      SearchWithoutDraft(types, edges, e);
    }
    if !Acyclic(E) {
      var p :| p in E && Reach(E, p.1, p.0);
      var e :| e in edges && !IsTerminal(types, e) && p == (e.source, e.target);
      assert ClosesCycle(types, edges, e);
    }
    if e :| e in edges && ClosesCycle(types, edges, e) {
      assert (e.source, e.target) in E;
    }
  }

  /** On a request with unique edge ids and well-formed ends, the report itself says the same. */
  lemma CycleProblemIff(req: Request)
    requires NamedUniqueEdges(req.edges) && AllEndsWellFormed(TypesOf(req.nodes), req.edges)
    ensures (exists id :: DirectedCycle(id) in Problems(req)) <==> !Acyclic(NodeGraph(TypesOf(req.nodes), req.edges))
  {
    var types := TypesOf(req.nodes);
    NodeProblemsNoCycle(req.nodes);
    EdgeListCycle(req.edges, req.edges, types);
    CycleReportedIff(types, req.edges);
    ResourceProblemsNoCycle(req.nodes);
    NoCycleAppend(NodeProblems(req.nodes), ResourceProblems(req.nodes));
    var ns := NodeProblems(req.nodes) + ResourceProblems(req.nodes);
    var es := EdgeListProblems(req.edges, req.edges, types);
    forall id
      ensures DirectedCycle(id) in Problems(req) <==> DirectedCycle(id) in es
    {
      assert DirectedCycle(id) in ns + es <==> DirectedCycle(id) in ns || DirectedCycle(id) in es;
      assert DirectedCycle(id).DirectedCycle?;
    }
    if e :| e in req.edges && ClosesCycle(types, req.edges, e) {
      assert DirectedCycle(e.id) in es;
    }
  }

  predicate NoCycleAmong(ps: seq<Problem>) {
    forall p :: p in ps ==> !p.DirectedCycle?
  }

  lemma NoCycleAppend(ps: seq<Problem>, more: seq<Problem>)
    requires NoCycleAmong(ps) && NoCycleAmong(more)
    ensures NoCycleAmong(ps + more)
  {
  }

  lemma NodeStepNoCycle(types: map<NodeId, NodeType>, n: Node)
    ensures NoCycleAmong(NodeStep(types, n))
  {
  }

  lemma {:induction false} NodeProblemsNoCycle(nodes: seq<Node>)
    ensures NoCycleAmong(NodeProblems(nodes))
  {
    if nodes != [] {
      var before, n := nodes[..|nodes| - 1], nodes[|nodes| - 1];
      NodeProblemsNoCycle(before);
      NodeStepNoCycle(TypesOf(before), n);
      NoCycleAppend(NodeProblems(before), NodeStep(TypesOf(before), n));
    }
  }

  lemma {:induction false} ResourceProblemsNoCycle(nodes: seq<Node>)
    ensures NoCycleAmong(ResourceProblems(nodes))
  {
    if nodes != [] {
      var before, n := nodes[..|nodes| - 1], nodes[|nodes| - 1];
      ResourceProblemsNoCycle(before);
      NoCycleAppend(ResourceProblems(before), ClaimStep(before, n));
    }
  }

  lemma {:induction false} EdgeListCycle(prefix: seq<Edge>, edges: seq<Edge>, types: map<NodeId, NodeType>)
    requires prefix <= edges && NamedUniqueEdges(edges) && AllEndsWellFormed(types, edges)
    ensures forall id :: DirectedCycle(id) in EdgeListProblems(prefix, edges, types) <==>
                         exists e :: e in prefix && e.id == id && ClosesCycle(types, edges, e)
  {
    if prefix != [] {
      var before, e := prefix[..|prefix| - 1], prefix[|prefix| - 1];
      assert prefix == before + [e];
      EdgeListCycle(before, edges, types);
      assert e == edges[|prefix| - 1];
      assert e in edges;
      forall id
        ensures DirectedCycle(id) in EdgeProblems(edges, e, types) <==> id == e.id && ClosesCycle(types, edges, e)
      {
      }
      var ps, last := EdgeListProblems(before, edges, types), EdgeProblems(edges, e, types);
      assert EdgeListProblems(prefix, edges, types) == ps + last;
      forall id
        ensures DirectedCycle(id) in ps + last <==>
                exists e :: e in prefix && e.id == id && ClosesCycle(types, edges, e)
      {
        assert DirectedCycle(id) in ps + last <==> DirectedCycle(id) in ps || DirectedCycle(id) in last;
      }
    }
  }

  lemma {:induction false} TypesOfKeys(nodes: seq<Node>, id: NodeId)
    ensures id in TypesOf(nodes) <==> id != "" && exists n :: n in nodes && n.id == id
  {
    if nodes != [] {
      var before, n := nodes[..|nodes| - 1], nodes[|nodes| - 1];
      assert nodes == before + [n];
      TypesOfKeys(before, id);
      TypesOfSnoc(before, n);
    }
  }

  lemma NodesWellFormedSnoc(before: seq<Node>, n: Node)
    ensures NodesWellFormed(before + [n]) <==>
            && NodesWellFormed(before) && n.id != "" && ProviderOf(n.kind).Some?
            && forall m :: m in before ==> m.id != n.id
  {
    var nodes := before + [n];
    if NodesWellFormed(nodes) {
      assert forall i :: 0 <= i < |before| ==> nodes[i] == before[i];
      assert nodes[|before|] == n;
      forall m | m in before
        ensures m.id != n.id
      {
        var i :| 0 <= i < |before| && before[i] == m;
        assert nodes[i].id != nodes[|before|].id;
      }
    }
  }

  lemma RemotesUsableSnoc(before: seq<Node>, n: Node)
    ensures RemotesUsable(before + [n]) <==> RemotesUsable(before) && (n.kind == Remote ==> IsUsable(n.config))
  {
    if RemotesUsable(before + [n]) {
      assert n in before + [n];
      assert forall m :: m in before ==> m in before + [n];
    }
  }

  lemma NodeStepIff(types: map<NodeId, NodeType>, n: Node)
    ensures NodeStep(types, n) == [] <==>
            && n.id != "" && n.id !in types && ProviderOf(n.kind).Some?
            && (n.kind == Remote ==> IsUsable(n.config))
  {
    if n.kind == Remote {
      var settings := SettingProblems(n.id, RemoteIssues(n.config));
      assert settings == [] <==> |settings| == 0;
    }
  }

  lemma {:induction false} NodeProblemsIff(nodes: seq<Node>)
    ensures NodeProblems(nodes) == [] <==> NodesWellFormed(nodes) && RemotesUsable(nodes)
  {
    if nodes != [] {
      var before, n := nodes[..|nodes| - 1], nodes[|nodes| - 1];
      assert nodes == before + [n];
      NodeProblemsIff(before);
      TypesOfKeys(before, n.id);
      NodesWellFormedSnoc(before, n);
      RemotesUsableSnoc(before, n);
      NodeStepIff(TypesOf(before), n);
      EmptyConcat(NodeProblems(before), NodeStep(TypesOf(before), n));
    }
  }

  lemma EmptyConcat<T>(a: seq<T>, b: seq<T>)
    ensures a + b == [] <==> a == [] && b == []
  {
    assert |a + b| == |a| + |b|;
  }

  /** Ports of the provider table carry bytes and take one source each. */
  lemma EdgeProblemsIff(edges: seq<Edge>, e: Edge, types: map<NodeId, NodeType>)
    requires forall id :: id in types ==> ProviderOf(types[id]).Some?
    ensures EdgeProblems(edges, e, types) == [] <==>
            EndsWellFormed(types, e) && !InputTaken(edges, e) && !ClosesCycle(types, edges, e)
  {
    if e.source in types && e.target in types {
      OutputIsBytes(types[e.source], e.sourceHandle);
      InputIsBytes(types[e.target], e.targetHandle);
    }
  }

  lemma NamedUniqueSnoc(before: seq<Edge>, e: Edge)
    ensures NamedUniqueEdges(before + [e]) <==>
            NamedUniqueEdges(before) && e.id != "" && forall f :: f in before ==> f.id != e.id
  {
    var edges := before + [e];
    if NamedUniqueEdges(edges) {
      assert forall i :: 0 <= i < |before| ==> edges[i] == before[i];
      assert edges[|before|] == e;
      forall f | f in before
        ensures f.id != e.id
      {
        var i :| 0 <= i < |before| && before[i] == f;
        assert edges[i].id != edges[|before|].id;
      }
    }
  }

  ghost predicate AllClean(prefix: seq<Edge>, edges: seq<Edge>, types: map<NodeId, NodeType>) {
    forall e :: e in prefix ==> EdgeProblems(edges, e, types) == []
  }

  lemma CleanSnoc(before: seq<Edge>, e: Edge, edges: seq<Edge>, types: map<NodeId, NodeType>)
    ensures AllClean(before + [e], edges, types) <==>
            AllClean(before, edges, types) && EdgeProblems(edges, e, types) == []
  {
    if AllClean(before + [e], edges, types) {
      assert e in before + [e];
      forall f | f in before
        ensures EdgeProblems(edges, f, types) == []
      {
        assert f in before + [e];
      }
    }
  }

  lemma EdgeStepClean(before: seq<Edge>, e: Edge, edges: seq<Edge>, types: map<NodeId, NodeType>)
    ensures EdgeStep(before, e, edges, types) == [] <==>
            e.id != "" && (forall f :: f in before ==> f.id != e.id) && EdgeProblems(edges, e, types) == []
  {
  }

  lemma {:induction false} EdgeListIff(prefix: seq<Edge>, edges: seq<Edge>, types: map<NodeId, NodeType>)
    ensures EdgeListProblems(prefix, edges, types) == [] <==>
            NamedUniqueEdges(prefix) && AllClean(prefix, edges, types)
  {
    if prefix != [] {
      var before, e := prefix[..|prefix| - 1], prefix[|prefix| - 1];
      assert prefix == before + [e];
      EdgeListIff(before, edges, types);
      NamedUniqueSnoc(before, e);
      EmptyConcat(EdgeListProblems(before, edges, types), EdgeStep(before, e, edges, types));
      CleanSnoc(before, e, edges, types);
      EdgeStepClean(before, e, edges, types);
    }
  }

  /** No edge finds its input port taken exactly when every input port has at most one source. */
  lemma SingleSourceIff(edges: seq<Edge>)
    requires UniqueEdgeIds(edges)
    ensures (forall e :: e in edges ==> !InputTaken(edges, e)) <==> SingleSource(edges)
  {
    forall e: Edge, o: Edge
      ensures o in Without(edges, e.id) <==> o in edges && o.id != e.id
    {
      WithoutMembers(edges, e.id, o);
    }
    if forall e :: e in edges ==> !InputTaken(edges, e) {
      forall i, j | 0 <= i < j < |edges|
        ensures edges[i].target != edges[j].target || edges[i].targetHandle != edges[j].targetHandle
      {
        assert edges[j] in Without(edges, edges[i].id);
        assert !InputTaken(edges, edges[i]);
      }
    }
  }

  /** The validator reports nothing exactly when the request is well formed, single-source and acyclic. */
  lemma AcceptedIff(req: Request)
    ensures Problems(req) == [] <==> Accepted(req)
  {
    var types := TypesOf(req.nodes);
    NodeProblemsIff(req.nodes);
    ResourceProblemsIff(req.nodes);
    EdgeListIff(req.edges, req.edges, types);
    EmptyConcat(NodeProblems(req.nodes), ResourceProblems(req.nodes));
    EmptyConcat(NodeProblems(req.nodes) + ResourceProblems(req.nodes), EdgeListProblems(req.edges, req.edges, types));
    if NodesWellFormed(req.nodes) && NamedUniqueEdges(req.edges) {
      KnownTypes(req.nodes);
      forall e | e in req.edges
        ensures EdgeProblems(req.edges, e, types) == [] <==>
                EndsWellFormed(types, e) && !InputTaken(req.edges, e) && !ClosesCycle(types, req.edges, e)
      {
        EdgeProblemsIff(req.edges, e, types);
      }
      SingleSourceIff(req.edges);
      CycleReportedIff(types, req.edges);
    }
  }

  lemma {:induction false} NamedMembers(nodes: seq<Node>)
    ensures forall n :: n in Named(nodes) ==> n in nodes
  {
    if nodes != [] {
      NamedMembers(nodes[..|nodes| - 1]);
    }
  }

  lemma KnownTypes(nodes: seq<Node>)
    requires NodesWellFormed(nodes)
    ensures forall id :: id in TypesOf(nodes) ==> ProviderOf(TypesOf(nodes)[id]).Some?
  {
    NamedMembers(nodes);
  }
}
