/**
 The graph editor: its own connection check and the editing steps of the graph store.
 Every document that the steps can build from an empty one passes the editor's validation.
 */
module GraphEditor {
  import opened Wrappers
  import opened Digraph
  import opened Doubles
  import opened NodeSettings
  import opened Topology
  import RV = RuntimeValidator
  import Decimal

  datatype Document = Document(id: string, nodes: seq<Node>, edges: seq<Edge>)

  datatype ConnectError =
    | SourceNodeNotFound
    | TargetNodeNotFound
    | SelfConnection
    | ProviderNotFound
    | OutputPortNotFound
    | InputPortNotFound
    | IncompatibleKinds
    | InputAlreadyConnected
    | DirectedCycle

  /** The edges a draft is compared with: all of them, except the one it is already. */
  function Others(edges: seq<Edge>, draftId: Option<string>): seq<Edge> {
    match draftId
    case None => edges
    case Some(id) => Without(edges, id)
  }

  function TypesIn(doc: Document): map<NodeId, NodeType> {
    FirstTypes(doc.nodes)
  }

  /** What the editor's search passes over: nodes without an id. */
  const UNNAMED: set<NodeId> := {""}

  /** The editor's search from the target of the draft finds its source. */
  ghost predicate ClosesCycle(types: map<NodeId, NodeType>, others: seq<Edge>, draft: Edge) {
    && !IsTerminal(types, draft)
    && draft.target !in UNNAMED
    && Reach(Avoiding(NodeGraph(types, others), UNNAMED), draft.target, draft.source)
  }

  /** What the connection check promises about a draft it accepts. */
  ghost predicate Connectable(types: map<NodeId, NodeType>, others: seq<Edge>, draft: Edge) {
    && RV.EndsWellFormed(types, draft)
    && (forall o :: o in others ==> o.target != draft.target || o.targetHandle != draft.targetHandle)
    && !ClosesCycle(types, others, draft)
  }

  lemma AvoidsNothing(types: map<NodeId, NodeType>, edges: seq<Edge>, skipped: set<NodeId>)
    requires forall e :: e in edges ==> e.source !in skipped && e.target !in skipped
    ensures Avoiding(NodeGraph(types, edges), skipped) == NodeGraph(types, edges)
  {
  }

  /** In a document whose nodes all have an id, the search leaves nothing out. */
  lemma NamedSearchIsFull(doc: Document, others: seq<Edge>, draft: Edge)
    requires forall n :: n in doc.nodes ==> n.id != ""
    requires RV.AllEndsWellFormed(TypesIn(doc), others) && RV.EndsWellFormed(TypesIn(doc), draft)
    ensures ClosesCycle(TypesIn(doc), others, draft) <==>
            !IsTerminal(TypesIn(doc), draft) && Reach(NodeGraph(TypesIn(doc), others), draft.target, draft.source)
  {
    assert "" !in TypesIn(doc);
    AvoidsNothing(TypesIn(doc), others, UNNAMED);
  }

  /** A cycle that needs a node without an id is not noticed. */
  lemma UnnamedHidesCycle(types: map<NodeId, NodeType>, others: seq<Edge>, draft: Edge)
    requires draft.source == "" || draft.target == ""
    ensures !ClosesCycle(types, others, draft)
  {
    if draft.target != "" && Reach(Avoiding(NodeGraph(types, others), UNNAMED), draft.target, draft.source) {
      ReachLastEdge(Avoiding(NodeGraph(types, others), UNNAMED), draft.target, draft.source);
    }
  }

  const A_FILTER := Node("a", Filter, map[])
  const UNNAMED_FILTER := Node("", Filter, map[])
  const THERE := Edge("there", "a", Out, "", In)
  const BACK := Edge("back", "", Out, "a", In)

  lemma FilterPorts()
    ensures RV.HasInput(Filter, In) && RV.HasOutput(Filter, Out)
  {
  }

  /** Two filters, one without an id: an edge leads there, and the edge back is accepted although it closes a cycle. */
  lemma UnnamedCycleIsAccepted()
    ensures var doc := Document("graph-1", [A_FILTER, UNNAMED_FILTER], [THERE]);
            && ConnectErrors(TypesIn(doc), doc.edges, BACK) == []
            && Acyclic(NodeGraph(TypesIn(doc), doc.edges))
            && !Acyclic(NodeGraph(TypesIn(doc), doc.edges + [BACK]))
  {
    var doc := Document("graph-1", [A_FILTER, UNNAMED_FILTER], [THERE]);
    var types := TypesIn(doc);
    TwoTypes();
    FilterPorts();
    UnnamedHidesCycle(types, doc.edges, BACK);
    ConnectErrorsIff(types, doc.edges, BACK);
    ThereAndBack(types);
  }

  lemma ThereAndBack(types: map<NodeId, NodeType>)
    requires types == map["a" := Filter, "" := Filter]
    ensures Acyclic(NodeGraph(types, [THERE])) && !Acyclic(NodeGraph(types, [THERE] + [BACK]))
  {
    var one, both := NodeGraph(types, [THERE]), NodeGraph(types, [THERE] + [BACK]);
    assert THERE in [THERE] + [BACK] && BACK in [THERE] + [BACK];
    assert one == {("a", "")} && ("", "a") in both && ("a", "") in both;
    ReachEdge(both, "a", "");
    OneEdgeIsAcyclic("a", "");
  }

  lemma TwoTypes()
    ensures FirstTypes([A_FILTER, UNNAMED_FILTER]) == map["a" := Filter, "" := Filter]
  {
    var nodes := [A_FILTER, UNNAMED_FILTER];
    assert nodes[..1] == [A_FILTER] && nodes[..1][..0] == [];
    assert FirstTypes([]) == map[];
  }

  lemma OneEdgeIsAcyclic(a: NodeId, b: NodeId)
    requires a != b
    ensures Acyclic({(a, b)})
  {
    var E := {(a, b)};
    if Reach(E, b, a) {
      ReachFirstEdge(E, b, a);
    }
  }

  lemma FirstTypesSnoc(nodes: seq<Node>, i: nat)
    requires i < |nodes|
    ensures var before, n := FirstTypes(nodes[..i]), nodes[i];
            FirstTypes(nodes[..i + 1]) == if n.id in before then before else before[n.id := n.kind]
  {
    assert nodes[..i + 1][..i] == nodes[..i];
  }

  method CollectTypes(nodes: seq<Node>) returns (types: map<NodeId, NodeType>)
    ensures types == FirstTypes(nodes)
  {
    types := map[];
    for i := 0 to |nodes|
      invariant types == FirstTypes(nodes[..i])
    {
      FirstTypesSnoc(nodes, i);
      if nodes[i].id !in types {
        types := types[nodes[i].id := nodes[i].kind];
      }
    }
    assert nodes[..|nodes|] == nodes;
  }

  ghost function ConnectErrors(types: map<NodeId, NodeType>, others: seq<Edge>, draft: Edge): seq<ConnectError> {
    if draft.source !in types || draft.target !in types then
      (if draft.source !in types then [SourceNodeNotFound] else [])
      + (if draft.target !in types then [TargetNodeNotFound] else [])
    else
      var self := if draft.source == draft.target then [SelfConnection] else [];
      var from, to := ProviderOf(types[draft.source]), ProviderOf(types[draft.target]);
      if from.None? || to.None? then
        self + (if from.None? then [ProviderNotFound] else []) + (if to.None? then [ProviderNotFound] else [])
      else
        var output := FindPort(from.value.outputs, draft.sourceHandle);
        var input := FindPort(to.value.inputs, draft.targetHandle);
        if output.None? || input.None? then
          self + (if output.None? then [OutputPortNotFound] else []) + (if input.None? then [InputPortNotFound] else [])
        else
          self + JoinErrors(types, others, draft, output.value, input.value)
  }

  /** The errors of joining two declared ports. */
  ghost function JoinErrors(types: map<NodeId, NodeType>, others: seq<Edge>, draft: Edge, output: PortSpec,
                            input: PortSpec): seq<ConnectError> {
    (if output.kind != input.kind then [IncompatibleKinds] else [])
    + (if !input.multiple && Taken(others, draft) then [InputAlreadyConnected] else [])
    + (if ClosesCycle(types, others, draft) then [DirectedCycle] else [])
  }

  lemma ConnectErrorsIff(types: map<NodeId, NodeType>, others: seq<Edge>, draft: Edge)
    ensures ConnectErrors(types, others, draft) == [] <==> Connectable(types, others, draft)
  {
    if draft.source in types && draft.target in types && ProviderOf(types[draft.source]).Some?
       && ProviderOf(types[draft.target]).Some?
    {
      OutputIsBytes(types[draft.source], draft.sourceHandle);
      InputIsBytes(types[draft.target], draft.targetHandle);
    }
  }

  method CanConnect(doc: Document, draft: Edge, draftId: Option<string>) returns (errors: seq<ConnectError>)
    ensures errors == ConnectErrors(TypesIn(doc), Others(doc.edges, draftId), draft)
    ensures errors == [] <==> Connectable(TypesIn(doc), Others(doc.edges, draftId), draft)
  {
    var types := CollectTypes(doc.nodes);
    var others := doc.edges;
    if draftId.Some? {
      others := RV.OtherEdges(doc.edges, draftId.value);
    }
    errors := CheckDraft(types, others, draft);
    ConnectErrorsIff(types, others, draft);
  }

  method CheckDraft(types: map<NodeId, NodeType>, others: seq<Edge>, draft: Edge) returns (errors: seq<ConnectError>)
    ensures errors == ConnectErrors(types, others, draft)
  {
    errors := [];
    if draft.source !in types {
      errors := errors + [SourceNodeNotFound];
    }
    if draft.target !in types {
      errors := errors + [TargetNodeNotFound];
    }
    if draft.source !in types || draft.target !in types {
      return;
    }
    if draft.source == draft.target {
      errors := errors + [SelfConnection];
    }
    var from, to := ProviderOf(types[draft.source]), ProviderOf(types[draft.target]);
    if from.None? {
      errors := errors + [ProviderNotFound];
    }
    if to.None? {
      errors := errors + [ProviderNotFound];
    }
    if from.None? || to.None? {
      return;
    }
    var output := FindPort(from.value.outputs, draft.sourceHandle);
    var input := FindPort(to.value.inputs, draft.targetHandle);
    if output.None? {
      errors := errors + [OutputPortNotFound];
    }
    if input.None? {
      errors := errors + [InputPortNotFound];
    }
    if output.None? || input.None? {
      return;
    }
    var more := CheckJoin(types, others, draft, output.value, input.value);
    errors := errors + more;
  }

  method CheckJoin(types: map<NodeId, NodeType>, others: seq<Edge>, draft: Edge, output: PortSpec, input: PortSpec)
    returns (errors: seq<ConnectError>)
    ensures errors == JoinErrors(types, others, draft, output, input)
  {
    errors := [];
    if output.kind != input.kind {
      errors := errors + [IncompatibleKinds];
    }
    var taken := IsTaken(others, draft);
    if !input.multiple && taken {
      errors := errors + [InputAlreadyConnected];
    }
    if !IsTerminal(types, draft) {
      var cycle := CreatesCycle(draft, others, types, UNNAMED);
      if cycle {
        errors := errors + [DirectedCycle];
      }
    }
  }

  datatype EdgeError = EdgeError(edge: string, error: ConnectError)

  function Labelled(edge: string, errors: seq<ConnectError>): (r: seq<EdgeError>)
    ensures |r| == |errors|
    ensures forall x :: x in r <==> x.edge == edge && x.error in errors
  {
    var r := seq(|errors|, k requires 0 <= k < |errors| => EdgeError(edge, errors[k]));
    assert forall k :: 0 <= k < |errors| ==> r[k].error == errors[k] && r[k] in r;
    r
  }

  lemma LabelledIff(edge: string, errors: seq<ConnectError>)
    ensures Labelled(edge, errors) == [] <==> errors == []
  {
    assert |Labelled(edge, errors)| == |errors|;
  }

  /** The errors of an edge among the others of its document. */
  ghost function ErrorsOf(doc: Document, e: Edge): seq<ConnectError> {
    ConnectErrors(TypesIn(doc), Without(doc.edges, e.id), e)
  }

  function Flat<T>(lists: seq<seq<T>>): seq<T> {
    if lists == [] then [] else Flat(lists[..|lists| - 1]) + lists[|lists| - 1]
  }

  lemma {:induction false} FlatMembers<T>(lists: seq<seq<T>>, x: T)
    ensures x in Flat(lists) <==> exists k :: 0 <= k < |lists| && x in lists[k]
  {
    if lists != [] {
      var before := lists[..|lists| - 1];
      FlatMembers(before, x);
      if x in Flat(before) {
        var k :| 0 <= k < |before| && x in before[k];
        assert x in lists[k];
      }
    }
  }

  lemma {:induction false} FlatIsEmptyIff<T>(lists: seq<seq<T>>)
    ensures Flat(lists) == [] <==> forall k :: 0 <= k < |lists| ==> lists[k] == []
  {
    if lists != [] {
      var before := lists[..|lists| - 1];
      FlatIsEmptyIff(before);
      RV.EmptyConcat(Flat(before), lists[|lists| - 1]);
      assert forall k :: 0 <= k < |before| ==> before[k] == lists[k];
    }
  }

  lemma FlatNext<T>(lists: seq<seq<T>>, i: nat)
    requires i < |lists|
    ensures Flat(lists[..i + 1]) == Flat(lists[..i]) + lists[i]
  {
    assert lists[..i + 1][..i] == lists[..i];
  }

  /** What is reported on each edge: its errors, labelled with its id. */
  ghost function Reports(doc: Document): seq<seq<EdgeError>> {
    seq(|doc.edges|, k requires 0 <= k < |doc.edges| => Labelled(doc.edges[k].id, ErrorsOf(doc, doc.edges[k])))
  }

  lemma ReportMembers(doc: Document, x: EdgeError)
    ensures x in Flat(Reports(doc)) <==> exists e :: e in doc.edges && e.id == x.edge && x.error in ErrorsOf(doc, e)
  {
    FlatMembers(Reports(doc), x);
    if e :| e in doc.edges && e.id == x.edge && x.error in ErrorsOf(doc, e) {
      var k :| 0 <= k < |doc.edges| && doc.edges[k] == e;
      assert x in Reports(doc)[k];
    }
  }

  /** An error is in the report exactly when an edge of that id has it. */
  ghost predicate IsExact(doc: Document, errors: seq<EdgeError>) {
    forall x :: x in errors <==> exists e :: e in doc.edges && e.id == x.edge && x.error in ErrorsOf(doc, e)
  }

  lemma ReportIsExact(doc: Document)
    ensures IsExact(doc, Flat(Reports(doc)))
  {
    forall x
      ensures x in Flat(Reports(doc)) <==>
              exists e :: e in doc.edges && e.id == x.edge && x.error in ErrorsOf(doc, e)
    {
      ReportMembers(doc, x);
    }
  }

  /** Every edge could be drawn among the others. */
  ghost predicate AllConnectable(doc: Document) {
    forall e :: e in doc.edges ==> Connectable(TypesIn(doc), Without(doc.edges, e.id), e)
  }

  lemma ReportIsEmptyIff(doc: Document)
    ensures Flat(Reports(doc)) == [] <==> AllConnectable(doc)
  {
    FlatIsEmptyIff(Reports(doc));
    forall k | 0 <= k < |doc.edges|
      ensures Reports(doc)[k] == [] <==>
              Connectable(TypesIn(doc), Without(doc.edges, doc.edges[k].id), doc.edges[k])
    {
      LabelledIff(doc.edges[k].id, ErrorsOf(doc, doc.edges[k]));
      ConnectErrorsIff(TypesIn(doc), Without(doc.edges, doc.edges[k].id), doc.edges[k]);
    }
  }

  /** The edge part of the whole-document validation: each edge is checked against the others. */
  method ValidateEdges(doc: Document) returns (errors: seq<EdgeError>)
    ensures errors == Flat(Reports(doc)) && IsExact(doc, errors)
    ensures errors == [] <==> AllConnectable(doc)
  {
    errors := [];
    ghost var reports := Reports(doc);
    for i := 0 to |doc.edges|
      invariant errors == Flat(reports[..i])
    {
      var found := CanConnect(doc, doc.edges[i], Some(doc.edges[i].id));
      FlatNext(reports, i);
      errors := errors + Labelled(doc.edges[i].id, found);
    }
    assert reports[..|doc.edges|] == reports;
    ReportIsEmptyIff(doc);
    ReportIsExact(doc);
  }

  // ---------------------------------------------------------------------------------------------
  // Fresh ids
  // ---------------------------------------------------------------------------------------------

  /** The number an id carries behind its prefix, as a double. */
  function Sequence(id: string, prefix: string): nat {
    if prefix <= id && Decimal.IsNumeral(id[|prefix|..]) then Double(Decimal.Value(id[|prefix|..])) else 0
  }

  function MaxSequence(ids: seq<string>, prefix: string): (max: nat)
    ensures forall id :: id in ids ==> Sequence(id, prefix) <= max
  {
    if ids == [] then 0
    else
      var before, last := MaxSequence(ids[..|ids| - 1], prefix), Sequence(ids[|ids| - 1], prefix);
      if last > before then last else before
  }

  lemma {:induction false} MaxIsReached(ids: seq<string>, prefix: string)
    ensures MaxSequence(ids, prefix) == 0 || exists id :: id in ids && Sequence(id, prefix) == MaxSequence(ids, prefix)
  {
    if ids != [] {
      var before := ids[..|ids| - 1];
      MaxIsReached(before, prefix);
      assert ids[|ids| - 1] in ids && forall id :: id in before ==> id in ids;
    }
  }

  lemma MaxIsDouble(ids: seq<string>, prefix: string)
    ensures Double(MaxSequence(ids, prefix)) == MaxSequence(ids, prefix)
  {
    MaxIsReached(ids, prefix);
    SmallIsExact(0);
    if id :| id in ids && Sequence(id, prefix) == MaxSequence(ids, prefix) > 0 {
      DoubleIsDouble(Decimal.Value(id[|prefix|..]));
    }
  }

  /** One more than the largest number behind the prefix, in the arithmetic of doubles. */
  method NextSequence(ids: seq<string>, prefix: string) returns (next: nat)
    ensures next == Double(MaxSequence(ids, prefix) + 1)
  {
    var max := 0;
    for i := 0 to |ids|
      invariant max == MaxSequence(ids[..i], prefix)
    {
      assert ids[..i + 1][..i] == ids[..i];
      if prefix <= ids[i] {
        var seqNo := Sequence(ids[i], prefix);
        if seqNo > max {
          max := seqNo;
        }
      }
    }
    assert ids[..|ids|] == ids;
    return Double(max + 1);
  }

  function NextId(ids: seq<string>, prefix: string): string {
    prefix + Decimal.Render(Double(MaxSequence(ids, prefix) + 1))
  }

  lemma SequenceOfRender(prefix: string, n: nat)
    ensures Sequence(prefix + Decimal.Render(n), prefix) == Double(n)
  {
    var id := prefix + Decimal.Render(n);
    assert id[|prefix|..] == Decimal.Render(n);
    Decimal.ValueOfRender(n);
  }

  /** The largest number is so large that one more is the same double, and an id spells it as the editor does. */
  predicate RunsOut(ids: seq<string>, prefix: string) {
    var max := MaxSequence(ids, prefix);
    IsStuck(max) && prefix + Decimal.Render(max) in ids
  }

  /** The next id differs from every id in use, whatever those look like, unless the numbers have run out. */
  lemma NextIdIsFreshIff(ids: seq<string>, prefix: string)
    ensures NextId(ids, prefix) !in ids <==> !RunsOut(ids, prefix)
  {
    var next := NextNumberIs(ids, prefix);
    if next in ids {
      assert Sequence(next, prefix) <= MaxSequence(ids, prefix);
    }
  }

  /** The next number is larger than all others, or as large as the largest, whose text is then the next id. */
  lemma NextNumberIs(ids: seq<string>, prefix: string) returns (next: string)
    ensures next == NextId(ids, prefix)
    ensures var max := MaxSequence(ids, prefix);
            if IsStuck(max) then next == prefix + Decimal.Render(max) else Sequence(next, prefix) > max
  {
    var max := MaxSequence(ids, prefix);
    next := NextId(ids, prefix);
    MaxIsDouble(ids, prefix);
    OneMoreIff(max);
    DoubleIsDouble(max + 1);
    SequenceOfRender(prefix, Double(max + 1));
  }

  /** Below 2^53 they have not run out. */
  lemma SmallDoesNotRunOut(ids: seq<string>, prefix: string)
    requires MaxSequence(ids, prefix) < TWO_53
    ensures !RunsOut(ids, prefix) && Double(MaxSequence(ids, prefix) + 1) == MaxSequence(ids, prefix) + 1
  {
    SmallIsExact(MaxSequence(ids, prefix) + 1);
  }

  /** A document whose only id carries a stuck number gets that id again. */
  lemma IdIsUsedAgain(prefix: string, x: nat)
    requires IsStuck(x) && Double(x) == x
    ensures var ids := [prefix + Decimal.Render(x)]; NextId(ids, prefix) in ids
  {
    var id := prefix + Decimal.Render(x);
    SequenceOfRender(prefix, x);
    MaxOfOne(id, prefix);
    NextIdIsFreshIff([id], prefix);
  }

  /** The first of them is 2^53, as in edge-9007199254740992. */
  lemma FirstStuckNumber()
    ensures IsStuck(TWO_53) && Double(TWO_53) == TWO_53
    ensures forall x :: 0 <= x < TWO_53 ==> !IsStuck(x)
  {
    SmallIsExact(TWO_53);
  }

  lemma MaxOfOne(id: string, prefix: string)
    ensures MaxSequence([id], prefix) == Sequence(id, prefix)
  {
    assert [id][..0] == [] && MaxSequence([], prefix) == 0;
  }

  function NodeIds(nodes: seq<Node>): seq<string> {
    seq(|nodes|, i requires 0 <= i < |nodes| => nodes[i].id)
  }

  function EdgeIds(edges: seq<Edge>): seq<string> {
    seq(|edges|, i requires 0 <= i < |edges| => edges[i].id)
  }

  // ---------------------------------------------------------------------------------------------
  // Editing steps
  // ---------------------------------------------------------------------------------------------

  datatype Step =
    | AddNode(kind: NodeType, config: Config)
    | Connect(source: NodeId, sourceHandle: Handle, target: NodeId, targetHandle: Handle)
    | RemoveEdge(id: string)
    | RemoveNode(id: NodeId)

  function KeepNodes(nodes: seq<Node>, id: NodeId): (kept: seq<Node>)
    ensures forall n :: n in kept <==> n in nodes && n.id != id
  {
    if nodes == [] then []
    else if nodes[0].id == id then KeepNodes(nodes[1..], id)
    else [nodes[0]] + KeepNodes(nodes[1..], id)
  }

  function KeepEdges(edges: seq<Edge>, node: NodeId): (kept: seq<Edge>)
    ensures forall e :: e in kept <==> e in edges && e.source != node && e.target != node
  {
    if edges == [] then []
    else if edges[0].source == node || edges[0].target == node then KeepEdges(edges[1..], node)
    else [edges[0]] + KeepEdges(edges[1..], node)
  }

  function DraftOf(step: Step, id: string): Edge
    requires step.Connect?
  {
    Edge(id, step.source, step.sourceHandle, step.target, step.targetHandle)
  }

  ghost function Apply(doc: Document, step: Step): Document {
    match step
    case AddNode(kind, config) =>
      if ProviderOf(kind).None? then doc
      else doc.(nodes := doc.nodes + [Node(NextId(NodeIds(doc.nodes), "node-"), kind, config)])
    case Connect(_, _, _, _) =>
      if Connectable(TypesIn(doc), doc.edges, DraftOf(step, ""))
      then doc.(edges := doc.edges + [DraftOf(step, NextId(EdgeIds(doc.edges), "edge-"))])
      else doc
    case RemoveEdge(id) => doc.(edges := Without(doc.edges, id))
    case RemoveNode(id) => Document(doc.id, KeepNodes(doc.nodes, id), KeepEdges(doc.edges, id))
  }

  lemma AppliedAddNode(doc: Document, kind: NodeType, config: Config, added: Node)
    requires ProviderOf(kind).Some? && added == Node(NextId(NodeIds(doc.nodes), "node-"), kind, config)
    ensures Apply(doc, AddNode(kind, config)) == doc.(nodes := doc.nodes + [added])
  {
  }

  lemma AppliedConnect(doc: Document, draft: Edge, added: Edge)
    requires Connectable(TypesIn(doc), doc.edges, draft) && draft.id == ""
    requires added == draft.(id := NextId(EdgeIds(doc.edges), "edge-"))
    ensures Apply(doc, Connect(draft.source, draft.sourceHandle, draft.target, draft.targetHandle))
            == doc.(edges := doc.edges + [added])
  {
  }

  ghost function ApplyAll(doc: Document, steps: seq<Step>): Document {
    if steps == [] then doc else Apply(ApplyAll(doc, steps[..|steps| - 1]), steps[|steps| - 1])
  }

  // ---------------------------------------------------------------------------------------------
  // What every step keeps
  // ---------------------------------------------------------------------------------------------

  ghost predicate Coherent(doc: Document) {
    && RV.NodesWellFormed(doc.nodes)
    && UniqueEdgeIds(doc.edges)
    && RV.AllEndsWellFormed(TypesIn(doc), doc.edges)
    && RV.SingleSource(doc.edges)
    && Acyclic(NodeGraph(TypesIn(doc), doc.edges))
  }

  lemma WithoutEndsWellFormed(types: map<NodeId, NodeType>, edges: seq<Edge>, id: string)
    requires RV.AllEndsWellFormed(types, edges)
    ensures RV.AllEndsWellFormed(types, Without(edges, id))
  {
    forall e | e in Without(edges, id)
      ensures RV.EndsWellFormed(types, e)
    {
      WithoutMembers(edges, id, e);
    }
  }

  /** A coherent document passes the edge validation: nothing is reported on any edge. */
  lemma CoherentPassesValidation(doc: Document)
    requires Coherent(doc)
    ensures AllConnectable(doc)
  {
    RV.SingleSourceIff(doc.edges);
    RV.CycleReportedIff(TypesIn(doc), doc.edges);
    forall e | e in doc.edges
      ensures Connectable(TypesIn(doc), Without(doc.edges, e.id), e)
    {
      assert !RV.InputTaken(doc.edges, e) && !RV.ClosesCycle(TypesIn(doc), doc.edges, e);
      WithoutEndsWellFormed(TypesIn(doc), doc.edges, e.id);
      NamedSearchIsFull(doc, Without(doc.edges, e.id), e);
    }
  }

  /** Types depend only on which nodes there are, as ids are unique. */
  lemma TypeOfMember(nodes: seq<Node>, n: Node)
    requires RV.NodesWellFormed(nodes) && n in nodes
    ensures n.id in FirstTypes(nodes) && FirstTypes(nodes)[n.id] == n.kind
  {
    var m :| m in nodes && m.id == n.id && m.kind == FirstTypes(nodes)[n.id];
    var i :| 0 <= i < |nodes| && nodes[i] == n;
    var j :| 0 <= j < |nodes| && nodes[j] == m;
    assert i == j;
  }

  predicate SameEnds(types: map<NodeId, NodeType>, more: map<NodeId, NodeType>, e: Edge)
    requires e.source in types && e.target in types
  {
    && e.source in more && more[e.source] == types[e.source]
    && e.target in more && more[e.target] == types[e.target]
  }

  /** On edges whose ends are typed alike, the same edges are terminal and the same graph results. */
  lemma SameTypesSameGraph(types: map<NodeId, NodeType>, more: map<NodeId, NodeType>, edges: seq<Edge>)
    requires RV.AllEndsWellFormed(types, edges)
    requires forall e :: e in edges ==> SameEnds(types, more, e)
    ensures RV.AllEndsWellFormed(more, edges)
    ensures NodeGraph(more, edges) == NodeGraph(types, edges)
  {
  }

  lemma SubsequenceCoherent(doc: Document, nodes: seq<Node>, edges: seq<Edge>)
    requires Coherent(doc) && RV.NodesWellFormed(nodes) && UniqueEdgeIds(edges) && RV.SingleSource(edges)
    requires forall n :: n in nodes ==> n in doc.nodes
    requires forall e :: e in edges ==> e in doc.edges
    requires forall e, n :: e in edges && n in doc.nodes && (n.id == e.source || n.id == e.target) ==> n in nodes
    ensures Coherent(Document(doc.id, nodes, edges))
  {
    var types, fewer := FirstTypes(doc.nodes), FirstTypes(nodes);
    assert RV.AllEndsWellFormed(types, edges);
    forall e | e in edges
      ensures SameEnds(types, fewer, e)
    {
      assert RV.EndsWellFormed(types, e);
      var s :| s in doc.nodes && s.id == e.source && s.kind == types[e.source];
      var t :| t in doc.nodes && t.id == e.target && t.kind == types[e.target];
      TypeOfMember(nodes, s);
      TypeOfMember(nodes, t);
    }
    SameTypesSameGraph(types, fewer, edges);
    AcyclicSubgraph(NodeGraph(types, doc.edges), NodeGraph(types, edges));
  }

  lemma FreshNode(nodes: seq<Node>, n: Node)
    requires RV.NodesWellFormed(nodes) && ProviderOf(n.kind).Some? && n.id == NextId(NodeIds(nodes), "node-")
    requires !RunsOut(NodeIds(nodes), "node-")
    ensures RV.NodesWellFormed(nodes + [n])
    ensures n.id !in FirstTypes(nodes) && FirstTypes(nodes + [n]) == FirstTypes(nodes)[n.id := n.kind]
  {
    var ids := NodeIds(nodes);
    NextIdIsFreshIff(ids, "node-");
    forall m | m in nodes
      ensures m.id != n.id
    {
      var i :| 0 <= i < |nodes| && nodes[i] == m;
      assert ids[i] == m.id;
    }
    RV.NodesWellFormedSnoc(nodes, n);
    assert (nodes + [n])[..|nodes|] == nodes;
  }

  lemma MoreTypesSameEnds(types: map<NodeId, NodeType>, id: NodeId, kind: NodeType, edges: seq<Edge>)
    requires RV.AllEndsWellFormed(types, edges) && id !in types
    ensures forall e :: e in edges ==> e.source in types && e.target in types && SameEnds(types, types[id := kind], e)
  {
    forall e | e in edges
      ensures e.source in types && e.target in types
    {
      assert RV.EndsWellFormed(types, e);
    }
  }

  lemma MoreNodesCoherent(doc: Document, n: Node)
    requires Coherent(doc) && RV.NodesWellFormed(doc.nodes + [n])
    requires n.id !in TypesIn(doc) && FirstTypes(doc.nodes + [n]) == TypesIn(doc)[n.id := n.kind]
    ensures Coherent(doc.(nodes := doc.nodes + [n]))
  {
    MoreTypesSameEnds(TypesIn(doc), n.id, n.kind, doc.edges);
    SameTypesSameGraph(TypesIn(doc), TypesIn(doc)[n.id := n.kind], doc.edges);
  }

  lemma AddNodeKeepsCoherent(doc: Document, kind: NodeType, config: Config)
    requires Coherent(doc) && FindsId(doc, AddNode(kind, config))
    ensures Coherent(Apply(doc, AddNode(kind, config)))
  {
    if ProviderOf(kind).Some? {
      var n := Node(NextId(NodeIds(doc.nodes), "node-"), kind, config);
      FreshNode(doc.nodes, n);
      MoreNodesCoherent(doc, n);
    }
  }

  lemma SnocDistinct(edges: seq<Edge>, e: Edge)
    requires UniqueEdgeIds(edges) && RV.SingleSource(edges)
    requires forall o :: o in edges ==> o.id != e.id && (o.target != e.target || o.targetHandle != e.targetHandle)
    ensures UniqueEdgeIds(edges + [e]) && RV.SingleSource(edges + [e])
  {
    assert forall i :: 0 <= i < |edges| ==> edges[i] in edges;
  }

  lemma SnocGraph(types: map<NodeId, NodeType>, edges: seq<Edge>, e: Edge)
    ensures NodeGraph(types, edges + [e]) ==
            NodeGraph(types, edges) + if IsTerminal(types, e) then {} else {(e.source, e.target)}
  {
  }

  lemma FreshEdgeId(edges: seq<Edge>, o: Edge)
    requires o in edges && !RunsOut(EdgeIds(edges), "edge-")
    ensures o.id != NextId(EdgeIds(edges), "edge-")
  {
    NextIdIsFreshIff(EdgeIds(edges), "edge-");
    var i :| 0 <= i < |edges| && edges[i] == o;
    assert EdgeIds(edges)[i] == o.id;
  }

  lemma AddEdgeKeepsCoherent(doc: Document, e: Edge)
    requires Coherent(doc) && Connectable(TypesIn(doc), doc.edges, e)
    requires forall o :: o in doc.edges ==> o.id != e.id
    ensures Coherent(doc.(edges := doc.edges + [e]))
  {
    SnocDistinct(doc.edges, e);
    AddEdgeKeepsAcyclic(doc, e);
  }

  lemma AddEdgeKeepsAcyclic(doc: Document, e: Edge)
    requires Coherent(doc) && Connectable(TypesIn(doc), doc.edges, e)
    ensures Acyclic(NodeGraph(TypesIn(doc), doc.edges + [e]))
  {
    var types := TypesIn(doc);
    NamedSearchIsFull(doc, doc.edges, e);
    SnocGraph(types, doc.edges, e);
    AcyclicAddEdge(NodeGraph(types, doc.edges), (e.source, e.target));
    assert NodeGraph(types, doc.edges) + {} == NodeGraph(types, doc.edges);
  }

  lemma ConnectKeepsCoherent(doc: Document, step: Step)
    requires Coherent(doc) && step.Connect? && FindsId(doc, step)
    ensures Coherent(Apply(doc, step))
  {
    var draft := DraftOf(step, "");
    if Connectable(TypesIn(doc), doc.edges, draft) {
      var e := DraftOf(step, NextId(EdgeIds(doc.edges), "edge-"));
      forall o | o in doc.edges
        ensures o.id != e.id
      {
        FreshEdgeId(doc.edges, o);
      }
      AddEdgeKeepsCoherent(doc, e);
    }
  }

  lemma {:induction false} WithoutKeepsOrder(edges: seq<Edge>, id: string)
    requires UniqueEdgeIds(edges) && RV.SingleSource(edges)
    ensures UniqueEdgeIds(Without(edges, id)) && RV.SingleSource(Without(edges, id))
  {
    if edges != [] {
      WithoutKeepsOrder(edges[1..], id);
      HeadDiffers(edges, Without(edges[1..], id));
      forall e
        ensures e in Without(edges[1..], id) <==> e in edges[1..] && e.id != id
      {
        WithoutMembers(edges[1..], id, e);
      }
    }
  }

  lemma {:induction false} KeepEdgesKeepsOrder(edges: seq<Edge>, node: NodeId)
    requires UniqueEdgeIds(edges) && RV.SingleSource(edges)
    ensures UniqueEdgeIds(KeepEdges(edges, node)) && RV.SingleSource(KeepEdges(edges, node))
  {
    if edges != [] {
      KeepEdgesKeepsOrder(edges[1..], node);
      HeadDiffers(edges, KeepEdges(edges[1..], node));
    }
  }

  /** The first of distinct edges can be put in front of any choice of the later ones. */
  lemma HeadDiffers(edges: seq<Edge>, rest: seq<Edge>)
    requires edges != [] && UniqueEdgeIds(edges) && RV.SingleSource(edges)
    ensures (forall e :: e in rest ==> e in edges[1..]) && UniqueEdgeIds(rest) && RV.SingleSource(rest) ==>
              UniqueEdgeIds([edges[0]] + rest) && RV.SingleSource([edges[0]] + rest)
  {
    forall e | e in edges[1..]
      ensures e.id != edges[0].id && (e.target != edges[0].target || e.targetHandle != edges[0].targetHandle)
    {
      var i :| 0 <= i < |edges[1..]| && edges[1..][i] == e;
      assert edges[i + 1] == e;
    }
    assert forall i :: 0 <= i < |rest| ==> rest[i] in rest;
  }

  lemma {:induction false} KeepNodesKeepsOrder(nodes: seq<Node>, id: NodeId)
    requires RV.NodesWellFormed(nodes)
    ensures RV.NodesWellFormed(KeepNodes(nodes, id))
  {
    if nodes != [] {
      TailWellFormed(nodes);
      KeepNodesKeepsOrder(nodes[1..], id);
      HeadNodeDiffers(nodes, KeepNodes(nodes[1..], id));
    }
  }

  lemma TailWellFormed(nodes: seq<Node>)
    requires nodes != [] && RV.NodesWellFormed(nodes)
    ensures RV.NodesWellFormed(nodes[1..])
    ensures forall n :: n in nodes[1..] ==> n.id != nodes[0].id
  {
    forall n | n in nodes[1..]
      ensures n.id != nodes[0].id
    {
      var j :| 0 <= j < |nodes[1..]| && nodes[1..][j] == n;
      assert nodes[j + 1] == n;
    }
  }

  lemma HeadNodeDiffers(nodes: seq<Node>, rest: seq<Node>)
    requires nodes != [] && RV.NodesWellFormed(nodes) && RV.NodesWellFormed(rest)
    requires forall n :: n in rest ==> n in nodes[1..]
    ensures RV.NodesWellFormed([nodes[0]] + rest)
  {
    TailWellFormed(nodes);
    assert forall i :: 0 <= i < |rest| ==> rest[i] in rest;
  }

  /** The step needs no new id, or finds one. */
  ghost predicate FindsId(doc: Document, step: Step) {
    match step
    case AddNode(kind, _) => ProviderOf(kind).Some? ==> !RunsOut(NodeIds(doc.nodes), "node-")
    case Connect(_, _, _, _) =>
      Connectable(TypesIn(doc), doc.edges, DraftOf(step, "")) ==> !RunsOut(EdgeIds(doc.edges), "edge-")
    case _ => true
  }

  /** An editing step keeps a document coherent exactly when the ids it needs have not run out. */
  lemma StepKeepsCoherentIff(doc: Document, step: Step)
    requires Coherent(doc)
    ensures Coherent(Apply(doc, step)) <==> FindsId(doc, step)
  {
    if FindsId(doc, step) {
      StepKeepsCoherent(doc, step);
    } else if step.AddNode? {
      NextIdIsFreshIff(NodeIds(doc.nodes), "node-");
      UsedNodeId(doc.nodes, Node(NextId(NodeIds(doc.nodes), "node-"), step.kind, step.config));
    } else {
      NextIdIsFreshIff(EdgeIds(doc.edges), "edge-");
      UsedEdgeId(doc.edges, DraftOf(step, NextId(EdgeIds(doc.edges), "edge-")));
    }
  }

  lemma UsedNodeId(nodes: seq<Node>, n: Node)
    requires n.id in NodeIds(nodes)
    ensures !RV.NodesWellFormed(nodes + [n])
  {
    var i :| 0 <= i < |nodes| && NodeIds(nodes)[i] == n.id;
    assert (nodes + [n])[i].id == (nodes + [n])[|nodes|].id;
  }

  lemma UsedEdgeId(edges: seq<Edge>, e: Edge)
    requires e.id in EdgeIds(edges)
    ensures !UniqueEdgeIds(edges + [e])
  {
    var i :| 0 <= i < |edges| && EdgeIds(edges)[i] == e.id;
    assert (edges + [e])[i].id == (edges + [e])[|edges|].id;
  }

  lemma StepKeepsCoherent(doc: Document, step: Step)
    requires Coherent(doc) && FindsId(doc, step)
    ensures Coherent(Apply(doc, step))
  {
    match step
    case AddNode(kind, config) => AddNodeKeepsCoherent(doc, kind, config);
    case Connect(_, _, _, _) => ConnectKeepsCoherent(doc, step);
    case RemoveEdge(id) =>
      WithoutKeepsOrder(doc.edges, id);
      forall e
        ensures e in Without(doc.edges, id) <==> e in doc.edges && e.id != id
      {
        WithoutMembers(doc.edges, id, e);
      }
      SubsequenceCoherent(doc, doc.nodes, Without(doc.edges, id));
    case RemoveNode(id) =>
      KeepNodesKeepsOrder(doc.nodes, id);
      KeepEdgesKeepsOrder(doc.edges, id);
      SubsequenceCoherent(doc, KeepNodes(doc.nodes, id), KeepEdges(doc.edges, id));
  }

  lemma EmptyIsCoherent(id: string)
    ensures Coherent(Document(id, [], []))
  {
    assert NodeGraph(FirstTypes([]), []) == {};
  }

  lemma StepKeepsId(doc: Document, step: Step)
    ensures Apply(doc, step).id == doc.id
  {
  }

  /** All ids of the document carry numbers of at most n. */
  ghost predicate Numbered(doc: Document, n: nat) {
    && (forall m :: m in doc.nodes ==> Sequence(m.id, "node-") <= n)
    && forall e :: e in doc.edges ==> Sequence(e.id, "edge-") <= n
  }

  lemma {:induction false} MaxAtMost(ids: seq<string>, prefix: string, n: nat)
    requires forall id :: id in ids ==> Sequence(id, prefix) <= n
    ensures MaxSequence(ids, prefix) <= n
  {
    MaxIsReached(ids, prefix);
  }

  lemma NumberedMax(doc: Document, n: nat)
    requires Numbered(doc, n)
    ensures MaxSequence(NodeIds(doc.nodes), "node-") <= n && MaxSequence(EdgeIds(doc.edges), "edge-") <= n
  {
    MaxAtMost(NodeIds(doc.nodes), "node-", n);
    MaxAtMost(EdgeIds(doc.edges), "edge-", n);
  }

  lemma NextNumber(ids: seq<string>, prefix: string, n: nat)
    requires MaxSequence(ids, prefix) <= n < TWO_53
    ensures Sequence(NextId(ids, prefix), prefix) <= n + 1 && !RunsOut(ids, prefix)
  {
    SmallDoesNotRunOut(ids, prefix);
    SequenceOfRender(prefix, MaxSequence(ids, prefix) + 1);
  }

  /** A step raises the numbers by one at most, and below 2^53 it finds the id it needs. */
  lemma StepNumbers(doc: Document, step: Step, n: nat)
    requires Numbered(doc, n) && n < TWO_53
    ensures Numbered(Apply(doc, step), n + 1) && FindsId(doc, step)
  {
    NumberedMax(doc, n);
    NextNumber(NodeIds(doc.nodes), "node-", n);
    NextNumber(EdgeIds(doc.edges), "edge-", n);
    if step.RemoveEdge? {
      forall e | e in Without(doc.edges, step.id)
        ensures e in doc.edges
      {
        WithoutMembers(doc.edges, step.id, e);
      }
    }
  }

  /**
   Whatever is done to an empty document, its edge validation never reports anything. Its ids are numbered by the
   steps at most, and so do not run out in as many steps as there are whole doubles one apart.
   */
  lemma {:induction false} EveryEditingRunIsCoherent(id: string, steps: seq<Step>)
    requires |steps| <= TWO_53
    ensures var doc := ApplyAll(Document(id, [], []), steps);
            doc.id == id && Coherent(doc) && AllConnectable(doc) && Numbered(doc, |steps|)
  {
    if steps == [] {
      EmptyIsCoherent(id);
    } else {
      var before := ApplyAll(Document(id, [], []), steps[..|steps| - 1]);
      EveryEditingRunIsCoherent(id, steps[..|steps| - 1]);
      StepNumbers(before, steps[|steps| - 1], |steps| - 1);
      StepKeepsCoherent(before, steps[|steps| - 1]);
      StepKeepsId(before, steps[|steps| - 1]);
    }
    CoherentPassesValidation(ApplyAll(Document(id, [], []), steps));
  }
}
