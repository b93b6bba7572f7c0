/**
 The store of graph documents: every action replaces one document or appends a new one, and
 every document the store ever holds passes the editor's edge validation.
 */
module GraphStores {
  import opened Wrappers
  import opened Doubles
  import opened NodeSettings
  import opened Topology
  import opened GraphEditor
  import Decimal

  function FindDocument(graphs: seq<Document>, id: string): (r: Option<Document>)
    ensures r.Some? ==> r.value in graphs && r.value.id == id
    ensures r.None? ==> forall doc :: doc in graphs ==> doc.id != id
  {
    if graphs == [] then None
    else if graphs[0].id == id then Some(graphs[0])
    else FindDocument(graphs[1..], id)
  }

  /** The document with the id is replaced; the others stay. */
  function Replaced(graphs: seq<Document>, doc: Document): seq<Document> {
    seq(|graphs|, i requires 0 <= i < |graphs| => if graphs[i].id == doc.id then doc else graphs[i])
  }

  ghost predicate StoreValid(graphs: seq<Document>) {
    && (forall i, j :: 0 <= i < j < |graphs| ==> graphs[i].id != graphs[j].id)
    && forall doc :: doc in graphs ==> doc.id != "" && Coherent(doc)
  }

  lemma ReplacedHolds(graphs: seq<Document>, doc: Document)
    requires FindDocument(graphs, doc.id).Some?
    ensures doc in Replaced(graphs, doc)
    ensures forall d :: d in Replaced(graphs, doc) ==> d == doc || d in graphs
  {
    var k :| 0 <= k < |graphs| && graphs[k] == FindDocument(graphs, doc.id).value;
    assert Replaced(graphs, doc)[k] == doc;
  }

  lemma SameIds(graphs: seq<Document>, doc: Document)
    ensures |Replaced(graphs, doc)| == |graphs|
    ensures forall i :: 0 <= i < |graphs| ==> Replaced(graphs, doc)[i].id == graphs[i].id
  {
  }

  /** Replacing one document keeps a store valid exactly when the new one is coherent. */
  lemma ReplacedIsValidIff(graphs: seq<Document>, doc: Document)
    requires StoreValid(graphs) && FindDocument(graphs, doc.id).Some?
    ensures StoreValid(Replaced(graphs, doc)) <==> Coherent(doc)
  {
    ReplacedHolds(graphs, doc);
    SameIds(graphs, doc);
    assert doc.id == FindDocument(graphs, doc.id).value.id != "";
  }

  /** When one of its documents takes a step, a valid store stays valid exactly when the step finds the id it needs. */
  lemma StepInStore(graphs: seq<Document>, id: string, step: Step)
    requires StoreValid(graphs) && FindDocument(graphs, id).Some?
    ensures StoreValid(Replaced(graphs, Apply(FindDocument(graphs, id).value, step)))
            <==> FindsId(FindDocument(graphs, id).value, step)
  {
    var doc := FindDocument(graphs, id).value;
    StepKeepsCoherentIff(doc, step);
    StepKeepsId(doc, step);
    ReplacedIsValidIff(graphs, Apply(doc, step));
  }

  function GraphId(n: nat): string {
    "graph-" + Decimal.Render(n)
  }

  lemma NumberedIdsDiffer(k: nat, n: nat)
    requires k != n
    ensures GraphId(k) != GraphId(n)
  {
    Decimal.ValueOfRender(k);
    Decimal.ValueOfRender(n);
    assert GraphId(n)[6..] == Decimal.Render(n);
    assert GraphId(k)[6..] == Decimal.Render(k);
  }

  class GraphStore {
    var graphs: seq<Document>

    ghost predicate Valid()
      reads this
    {
      StoreValid(graphs)
    }

    constructor ()
      ensures Valid() && graphs == [Document("graph-1", [], [])]
    {
      graphs := [Document("graph-1", [], [])];
      EveryEditingRunIsCoherent("graph-1", []);
    }

    /** What an action on one document leaves behind: that document one step further, or nothing changed. */
    twostate predicate OneStep(graphId: string, step: Step)
      reads this
    {
      match FindDocument(old(graphs), graphId)
      case None => graphs == old(graphs)
      case Some(doc) => graphs == Replaced(old(graphs), Apply(doc, step))
    }

    /** The step finds the id it needs, if there is a document to take it. */
    twostate predicate Found(graphId: string, step: Step)
      reads this
    {
      match FindDocument(old(graphs), graphId)
      case None => true
      case Some(doc) => FindsId(doc, step)
    }

    method FreshId(ids: seq<string>, prefix: string) returns (id: string)
      ensures id == NextId(ids, prefix) && (id !in ids <==> !RunsOut(ids, prefix))
    {
      var next := NextSequence(ids, prefix);
      id := prefix + Decimal.Render(next);
      assert id == NextId(ids, prefix);
      NextIdIsFreshIff(ids, prefix);
    }

    /** Puts a changed document in the place of the one it came from. */
    method Replace(graphId: string, changed: Document, ghost step: Step)
      requires Valid() && FindDocument(graphs, graphId).Some?
      requires changed == Apply(FindDocument(graphs, graphId).value, step)
      modifies this
      ensures OneStep(graphId, step) && (Valid() <==> Found(graphId, step))
    {
      StepInStore(graphs, graphId, step);
      graphs := Replaced(graphs, changed);
    }

    /** The settings are the defaults of the type. */
    method AddNodeToGraph(graphId: string, kind: NodeType, config: Config) returns (node: Option<Node>)
      requires Valid()
      modifies this
      ensures Valid() <==> Found(graphId, AddNode(kind, config))
      ensures if ProviderOf(kind).None? then graphs == old(graphs) else OneStep(graphId, AddNode(kind, config))
      ensures node.Some? <==> ProviderOf(kind).Some? && FindDocument(old(graphs), graphId).Some?
      ensures node.Some? ==>
                var ids := NodeIds(FindDocument(old(graphs), graphId).value.nodes);
                node.value.id == NextId(ids, "node-") && (node.value.id !in ids <==> !RunsOut(ids, "node-"))
    {
      if ProviderOf(kind).None? {
        return None;
      }
      var found := FindDocument(graphs, graphId);
      if found.None? {
        return None;
      }
      var doc := found.value;
      var id := FreshId(NodeIds(doc.nodes), "node-");
      var added := Node(id, kind, config);
      AppliedAddNode(doc, kind, config, added);
      Replace(graphId, doc.(nodes := doc.nodes + [added]), AddNode(kind, config));
      return Some(added);
    }

    method ConnectInGraph(graphId: string, source: NodeId, sourceHandle: Handle, target: NodeId, targetHandle: Handle)
      returns (edge: Option<Edge>)
      requires Valid()
      modifies this
      ensures Valid() <==> Found(graphId, Connect(source, sourceHandle, target, targetHandle))
      ensures edge.None? ==> graphs == old(graphs)
      ensures edge.Some? ==> OneStep(graphId, Connect(source, sourceHandle, target, targetHandle))
      ensures edge.Some? <==>
              var found := FindDocument(old(graphs), graphId);
              found.Some? && Connectable(TypesIn(found.value), found.value.edges,
                                         Edge("", source, sourceHandle, target, targetHandle))
    {
      var found := FindDocument(graphs, graphId);
      if found.None? {
        return None;
      }
      var doc := found.value;
      var draft := Edge("", source, sourceHandle, target, targetHandle);
      var errors := CanConnect(doc, draft, None);
      if errors != [] {
        return None;
      }
      var id := FreshId(EdgeIds(doc.edges), "edge-");
      var added := draft.(id := id);
      AppliedConnect(doc, draft, added);
      Replace(graphId, doc.(edges := doc.edges + [added]), Connect(source, sourceHandle, target, targetHandle));
      return Some(added);
    }

    method RemoveEdgeFromGraph(graphId: string, id: string)
      requires Valid()
      modifies this
      ensures Valid() && OneStep(graphId, RemoveEdge(id))
    {
      var found := FindDocument(graphs, graphId);
      if found.Some? {
        Replace(graphId, found.value.(edges := Without(found.value.edges, id)), RemoveEdge(id));
      }
    }

    method RemoveNodeFromGraph(graphId: string, id: NodeId)
      requires Valid()
      modifies this
      ensures Valid() && OneStep(graphId, RemoveNode(id))
    {
      var found := FindDocument(graphs, graphId);
      if found.Some? {
        var doc := found.value;
        Replace(graphId, Document(doc.id, KeepNodes(doc.nodes, id), KeepEdges(doc.edges, id)), RemoveNode(id));
      }
    }

    method CreateGraph() returns (doc: Document)
      requires Valid()
      modifies this
      ensures Valid() && graphs == old(graphs) + [doc]
      ensures doc.nodes == [] && doc.edges == [] && FindDocument(old(graphs), doc.id).None?
    {
      var id := NextGraphId();
      doc := Document(id, [], []);
      EveryEditingRunIsCoherent(id, []);
      graphs := graphs + [doc];
    }

    /** The first number that no document uses; there is one, as the numbers tried are all in use. */
    method NextGraphId() returns (id: string)
      ensures FindDocument(graphs, id).None?
      ensures exists n: nat :: id == GraphId(n) &&
                               forall k :: 1 <= k < n ==> FindDocument(graphs, GraphId(k)).Some?
    {
      ghost var ids := set doc | doc in graphs :: doc.id;
      ghost var tried: set<string> := {};
      var n := 1;
      while FindDocument(graphs, GraphId(n)).Some?
        invariant n >= 1
        invariant forall k :: 1 <= k < n ==> FindDocument(graphs, GraphId(k)).Some?
        invariant tried <= ids && forall t :: t in tried ==> exists k :: 1 <= k < n && t == GraphId(k)
        decreases ids - tried
      {
        ghost var used := GraphId(n);
        forall k | 1 <= k < n
          ensures used != GraphId(k)
        {
          NumberedIdsDiffer(k, n);
        }
        tried := tried + {used};
        n := n + 1;
      }
      return GraphId(n);
    }
  }
}
