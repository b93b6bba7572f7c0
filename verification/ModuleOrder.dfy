/**
 Dependency orders of modules: when there is one, and the counts by which Kahn's algorithm finds it while it
 walks maps in any order.
 */
module ModuleOrder {
  import opened Wrappers
  import Digraph

  type Id = string

  datatype Module = Module(id: Id, dependencies: seq<Id>)

  type Modules = map<Id, Module>

  ghost predicate AllRegistered(modules: Modules) {
    forall id, d :: id in modules && d in modules[id].dependencies ==> d in modules
  }

  /** An edge leads from a module to one that it depends on. */
  ghost function DependencyEdges(modules: Modules): set<(Id, Id)> {
    set id, d | id in modules && d in modules[id].dependencies :: (id, d)
  }

  /** There is a way to order the modules at all. */
  ghost predicate Orderable(modules: Modules) {
    AllRegistered(modules) && Digraph.Acyclic(DependencyEdges(modules))
  }

  predicate Distinct(s: seq<Id>) {
    forall i, j :: 0 <= i < j < |s| ==> s[i] != s[j]
  }

  function Elements(s: seq<Id>): set<Id> {
    set x | x in s
  }

  /** Each module's dependencies stand before it. */
  predicate DependenciesFirst(modules: Modules, order: seq<Id>) {
    forall i :: 0 <= i < |order| ==>
      order[i] in modules && forall d :: d in modules[order[i]].dependencies ==> d in order[..i]
  }

  /** Every module once, behind everything it depends on. */
  predicate IsDependencyOrder(modules: Modules, order: seq<Id>) {
    Distinct(order) && Elements(order) == modules.Keys && DependenciesFirst(modules, order)
  }

  // Dependency orders and acyclicity

  lemma EarlierInOrder(modules: Modules, order: seq<Id>, i: nat, j: nat)
    requires IsDependencyOrder(modules, order) && i < |order| && j < |order|
    requires order[j] in modules[order[i]].dependencies
    ensures j < i
  {
    var k :| 0 <= k < i && order[..i][k] == order[j];
    assert order[k] == order[j];
  }

  lemma {:induction false} PathGoesBack(modules: Modules, order: seq<Id>, p: seq<Id>, i: nat, j: nat)
    requires IsDependencyOrder(modules, order)
    requires Digraph.IsPath(DependencyEdges(modules), p)
    requires i < |order| && j < |order| && order[i] == p[0] && order[j] == p[|p| - 1]
    ensures j <= i
    decreases |p|
  {
    if |p| > 1 {
      assert (p[0], p[1]) in DependencyEdges(modules);
      assert p[1] in order[..i];
      var k :| 0 <= k < i && order[..i][k] == p[1];
      assert order[k] == p[1];
      PathGoesBack(modules, order, p[1..], k, j);
    }
  }

  /** A dependency order exists only when all dependencies are registered and no module needs itself. */
  lemma OrderedIsOrderable(modules: Modules, order: seq<Id>)
    requires IsDependencyOrder(modules, order)
    ensures Orderable(modules)
  {
    var E := DependencyEdges(modules);
    forall id, d | id in modules && d in modules[id].dependencies
      ensures d in modules
    {
      assert id in Elements(order);
      var i :| 0 <= i < |order| && order[i] == id;
      assert d in order[..i];
      assert d in Elements(order);
    }
    forall e | e in E
      ensures !Digraph.Reach(E, e.1, e.0)
    {
      if Digraph.Reach(E, e.1, e.0) {
        var p :| Digraph.PathFromTo(E, p, e.1, e.0);
        assert e.0 in Elements(order) && e.1 in Elements(order);
        var i :| 0 <= i < |order| && order[i] == e.0;
        var j :| 0 <= j < |order| && order[j] == e.1;
        EarlierInOrder(modules, order, i, j);
        PathGoesBack(modules, order, p, j, i);
      }
    }
  }

  lemma WaitsForStuck(modules: Modules, E: set<(Id, Id)>, stuck: set<Id>, v: Id)
    requires AllRegistered(modules) && E == DependencyEdges(modules) && v in stuck && stuck <= modules.Keys
    requires Pending(modules[v].dependencies, modules.Keys - stuck) > 0
    ensures exists w :: w in stuck && (v, w) in E
  {
    var w := PendingDependency(modules[v].dependencies, modules.Keys - stuck);
    assert w in stuck && (v, w) in E;
  }

  /** Modules that cannot be placed all wait for one another. */
  lemma StuckMeansCircular(modules: Modules, stuck: set<Id>)
    requires AllRegistered(modules) && stuck <= modules.Keys && stuck != {}
    requires forall id :: id in stuck ==> Pending(modules[id].dependencies, modules.Keys - stuck) > 0
    ensures !Digraph.Acyclic(DependencyEdges(modules))
  {
    var E := DependencyEdges(modules);
    forall v | v in stuck
      ensures exists w :: w in stuck && (v, w) in E
    {
      WaitsForStuck(modules, E, stuck, v);
    }
    Digraph.NoEndlessDescent(E, modules.Keys, stuck);
  }

  // The counts of Kahn's algorithm

  /** How many entries of the list are not placed yet; a dependency named twice counts twice. */
  function Pending(dependencies: seq<Id>, placed: set<Id>): nat {
    if dependencies == [] then 0
    else (if dependencies[0] in placed then 0 else 1) + Pending(dependencies[1..], placed)
  }

  lemma {:induction false} PendingNone(dependencies: seq<Id>, placed: set<Id>)
    ensures Pending(dependencies, placed) == 0 <==> forall d :: d in dependencies ==> d in placed
  {
    if dependencies != [] {
      PendingNone(dependencies[1..], placed);
    }
  }

  lemma {:induction false} PendingAtStart(dependencies: seq<Id>)
    ensures Pending(dependencies, {}) == |dependencies|
  {
    if dependencies != [] {
      PendingAtStart(dependencies[1..]);
    }
  }

  lemma {:induction false} PendingDependency(dependencies: seq<Id>, placed: set<Id>) returns (d: Id)
    requires Pending(dependencies, placed) > 0
    ensures d in dependencies && d !in placed
  {
    d := dependencies[0];
    if d in placed {
      d := PendingDependency(dependencies[1..], placed);
    }
  }

  /** Placing a module settles exactly its occurrences. */
  lemma {:induction false} PendingPlaced(dependencies: seq<Id>, placed: set<Id>, x: Id)
    requires x !in placed
    ensures Pending(dependencies, placed + {x}) == Pending(dependencies, placed) - multiset(dependencies)[x]
  {
    if dependencies != [] {
      PendingPlaced(dependencies[1..], placed, x);
      assert dependencies == [dependencies[0]] + dependencies[1..];
    }
  }

  /** Which modules named x as a dependency, and how often, among those already walked. */
  ghost predicate Counted(modules: Modules, walked: set<Id>, indegree: map<Id, int>, dependents: map<Id, seq<Id>>) {
    && walked <= modules.Keys && indegree.Keys == walked
    && (forall id :: id in walked ==> indegree[id] == |modules[id].dependencies|)
    && (forall id, d :: id in walked && d in modules[id].dependencies ==> d in modules)
    && (forall d, x :: multiset(DependentsOf(dependents, d))[x] == Named(modules, walked, x, d))
  }

  ghost function Named(modules: Modules, walked: set<Id>, x: Id, d: Id): nat
    requires walked <= modules.Keys
  {
    if x in walked then multiset(modules[x].dependencies)[d] else 0
  }

  function DependentsOf(dependents: map<Id, seq<Id>>, d: Id): seq<Id> {
    if d in dependents then dependents[d] else []
  }

  lemma MultisetSnoc(s: seq<Id>, x: Id)
    ensures multiset(s + [x]) == multiset(s) + multiset{x}
  {
  }

  /** Counting is inside module `id`, whose first j dependencies have been entered. */
  ghost predicate Counting(modules: Modules, walked: set<Id>, id: Id, j: nat, indegree: map<Id, int>,
                           dependents: map<Id, seq<Id>>)
    requires walked <= modules.Keys && id in modules && j <= |modules[id].dependencies|
  {
    && indegree.Keys == walked + {id} && indegree[id] == j
    && (forall w :: w in walked ==> indegree[w] == |modules[w].dependencies|)
    && (forall d :: d in modules[id].dependencies[..j] ==> d in modules)
    && (forall d, x :: multiset(DependentsOf(dependents, d))[x]
                       == if x == id then multiset(modules[id].dependencies[..j])[d] else Named(modules, walked, x, d))
  }

  /** Only the list of d grows, and only by one `id`. */
  lemma DependentsGrow(dependents: map<Id, seq<Id>>, d: Id, id: Id, e: Id, x: Id)
    ensures multiset(DependentsOf(dependents[d := DependentsOf(dependents, d) + [id]], e))[x]
            == multiset(DependentsOf(dependents, e))[x] + if e == d && x == id then 1 else 0
  {
    MultisetSnoc(DependentsOf(dependents, d), id);
  }

  lemma PrefixGrows(deps: seq<Id>, j: nat, e: Id)
    requires j < |deps|
    ensures multiset(deps[..j + 1])[e] == multiset(deps[..j])[e] + if e == deps[j] then 1 else 0
  {
    assert deps[..j + 1] == deps[..j] + [deps[j]];
    MultisetSnoc(deps[..j], deps[j]);
  }

  /** Entering one more dependency of the module. */
  lemma CountingStep(modules: Modules, walked: set<Id>, id: Id, j: nat, indegree: map<Id, int>,
                     dependents: map<Id, seq<Id>>)
    requires walked <= modules.Keys && id in modules && id !in walked && j < |modules[id].dependencies|
    requires Counting(modules, walked, id, j, indegree, dependents)
    requires modules[id].dependencies[j] in modules
    ensures var d := modules[id].dependencies[j];
            Counting(modules, walked, id, j + 1, indegree[id := indegree[id] + 1],
                     dependents[d := DependentsOf(dependents, d) + [id]])
  {
    var deps := modules[id].dependencies;
    var next := dependents[deps[j] := DependentsOf(dependents, deps[j]) + [id]];
    forall e, x
      ensures multiset(DependentsOf(next, e))[x]
              == if x == id then multiset(deps[..j + 1])[e] else Named(modules, walked, x, e)
    {
      DependentsGrow(dependents, deps[j], id, e, x);
      PrefixGrows(deps, j, e);
    }
  }

  method CountModule(modules: Modules, ghost walked: set<Id>, id: Id, indegree0: map<Id, int>,
                     dependents0: map<Id, seq<Id>>)
    returns (missing: Option<Id>, indegree: map<Id, int>, dependents: map<Id, seq<Id>>)
    requires id in modules && id !in walked && Counted(modules, walked, indegree0, dependents0)
    ensures match missing
            case Some(d) => d in modules[id].dependencies && d !in modules
            case None => Counted(modules, walked + {id}, indegree, dependents)
  {
    indegree, dependents := indegree0[id := 0], dependents0;
    var deps := modules[id].dependencies;
    for j := 0 to |deps|
      invariant Counting(modules, walked, id, j, indegree, dependents)
    {
      var d := deps[j];
      if d !in modules {
        return Some(d), indegree, dependents;
      }
      CountingStep(modules, walked, id, j, indegree, dependents);
      indegree := indegree[id := indegree[id] + 1];
      dependents := dependents[d := DependentsOf(dependents, d) + [id]];
    }
    assert deps[..|deps|] == deps;
    missing := None;
  }

  /** The first loop: how many dependencies each module has, and who depends on it. */
  method CountDependencies(modules: Modules)
    returns (missing: Option<(Id, Id)>, indegree: map<Id, int>, dependents: map<Id, seq<Id>>)
    ensures match missing
            case Some(m) => m.0 in modules && m.1 in modules[m.0].dependencies && m.1 !in modules
            case None => Counted(modules, modules.Keys, indegree, dependents)
  {
    indegree, dependents := map[], map[];
    var rest := modules.Keys;
    while rest != {}
      invariant rest <= modules.Keys && Counted(modules, modules.Keys - rest, indegree, dependents)
      decreases rest
    {
      var id :| id in rest;
      var unknown;
      unknown, indegree, dependents := CountModule(modules, modules.Keys - rest, id, indegree, dependents);
      if unknown.Some? {
        return Some((id, unknown.value)), indegree, dependents;
      }
      assert modules.Keys - rest + {id} == modules.Keys - (rest - {id});
      rest := rest - {id};
    }
    assert modules.Keys - {} == modules.Keys;
    missing := None;
  }

  /** Open counts: what is pending once the modules of `placed` are there, minus what was just settled. */
  ghost predicate Open(modules: Modules, indegree: map<Id, int>, placed: set<Id>, settled: multiset<Id>) {
    && indegree.Keys == modules.Keys
    && forall x :: x in modules ==> indegree[x] == Pending(modules[x].dependencies, placed) - settled[x]
  }

  /** Exactly the modules with nothing open have been scheduled, each once. */
  ghost predicate Scheduled(modules: Modules, indegree: map<Id, int>, scheduled: seq<Id>)
    requires indegree.Keys == modules.Keys
  {
    Distinct(scheduled) && forall x :: x in scheduled <==> x in modules && indegree[x] == 0
  }

  /** The modules without dependencies, in any order. */
  method Ready(modules: Modules, indegree: map<Id, int>) returns (queue: seq<Id>)
    requires indegree.Keys == modules.Keys
    ensures Scheduled(modules, indegree, queue)
  {
    queue := [];
    var rest := modules.Keys;
    while rest != {}
      invariant rest <= modules.Keys && Distinct(queue)
      invariant forall x :: x in queue <==> x in modules && x !in rest && indegree[x] == 0
      decreases rest
    {
      var id :| id in rest;
      if indegree[id] == 0 {
        queue := queue + [id];
      }
      rest := rest - {id};
    }
  }

  /** One of the settled module's dependents has one open dependency less. */
  lemma SettleOne(modules: Modules, indegree: map<Id, int>, placed: set<Id>, settled: multiset<Id>, order: seq<Id>,
                  queue: seq<Id>, x: Id)
    requires Open(modules, indegree, placed, settled) && Scheduled(modules, indegree, order + queue)
    requires x in modules && indegree[x] > 0
    ensures var next := indegree[x := indegree[x] - 1];
            && Open(modules, next, placed, settled + multiset{x})
            && Scheduled(modules, next, order + if next[x] == 0 then queue + [x] else queue)
  {
    assert order + (queue + [x]) == order + queue + [x];
  }

  lemma SnocPrefix(s: seq<Id>, i: nat)
    requires i < |s|
    ensures multiset(s[..i + 1]) == multiset(s[..i]) + multiset{s[i]}
  {
    assert s[..i + 1] == s[..i] + [s[i]];
  }

  /** After all of them, the module counts as placed. */
  lemma SettledAll(modules: Modules, indegree: map<Id, int>, placed: set<Id>, id: Id, settled: multiset<Id>)
    requires id !in placed && Open(modules, indegree, placed, settled)
    requires forall x :: settled[x] == Named(modules, modules.Keys, x, id)
    ensures Open(modules, indegree, placed + {id}, multiset{})
  {
    forall x | x in modules
      ensures indegree[x] == Pending(modules[x].dependencies, placed + {id})
    {
      PendingPlaced(modules[x].dependencies, placed, id);
    }
  }

  method Settle(modules: Modules, id: Id, dependents: map<Id, seq<Id>>, indegree0: map<Id, int>, queue0: seq<Id>,
                ghost order: seq<Id>, ghost placed: set<Id>)
    returns (indegree: map<Id, int>, queue: seq<Id>)
    requires id !in placed && Open(modules, indegree0, placed, multiset{})
    requires Scheduled(modules, indegree0, order + queue0)
    requires forall x :: multiset(DependentsOf(dependents, id))[x] == Named(modules, modules.Keys, x, id)
    ensures Open(modules, indegree, placed + {id}, multiset{})
    ensures Scheduled(modules, indegree, order + queue)
  {
    indegree, queue := indegree0, queue0;
    var ds := DependentsOf(dependents, id);
    for i := 0 to |ds|
      invariant Open(modules, indegree, placed, multiset(ds[..i]))
      invariant Scheduled(modules, indegree, order + queue)
    {
      var x := ds[i];
      SettleRoom(modules, id, ds, placed, i);
      SettleOne(modules, indegree, placed, multiset(ds[..i]), order, queue, x);
      SnocPrefix(ds, i);
      indegree := indegree[x := indegree[x] - 1];
      if indegree[x] == 0 {
        queue := queue + [x];
      }
    }
    assert ds[..|ds|] == ds;
    SettledAll(modules, indegree, placed, id, multiset(ds));
  }

  /** Entry i of the dependents still has something open. */
  lemma SettleRoom(modules: Modules, id: Id, ds: seq<Id>, placed: set<Id>, i: nat)
    requires id !in placed && i < |ds|
    requires forall x :: multiset(ds)[x] == Named(modules, modules.Keys, x, id)
    ensures ds[i] in modules
    ensures Pending(modules[ds[i]].dependencies, placed) > multiset(ds[..i])[ds[i]]
  {
    var x := ds[i];
    assert ds == ds[..i] + [x] + ds[i + 1..];
    assert multiset(ds) == multiset(ds[..i]) + multiset{x} + multiset(ds[i + 1..]);
    assert multiset(ds)[x] > multiset(ds[..i])[x];
    PendingPlaced(modules[x].dependencies, placed, id);
  }

  /** What has been ordered is a dependency order of its part, and the queue holds what may come next. */
  ghost predicate Ordering(modules: Modules, indegree: map<Id, int>, order: seq<Id>, queue: seq<Id>) {
    && Open(modules, indegree, Elements(order), multiset{})
    && Scheduled(modules, indegree, order + queue)
    && DependenciesFirst(modules, order)
  }

  lemma OrderingStarts(modules: Modules, indegree: map<Id, int>, dependents: map<Id, seq<Id>>, queue: seq<Id>)
    requires Counted(modules, modules.Keys, indegree, dependents) && Scheduled(modules, indegree, queue)
    ensures Ordering(modules, indegree, [], queue)
  {
    assert [] + queue == queue && Elements([]) == {};
    forall x | x in modules
      ensures Pending(modules[x].dependencies, {}) == indegree[x]
    {
      PendingAtStart(modules[x].dependencies);
    }
  }

  /** The head of the queue goes to the order. */
  lemma OrderingStep(modules: Modules, indegree: map<Id, int>, order: seq<Id>, queue: seq<Id>)
    requires Ordering(modules, indegree, order, queue) && queue != []
    ensures queue[0] !in Elements(order) && Elements(order + [queue[0]]) == Elements(order) + {queue[0]}
    ensures Scheduled(modules, indegree, order + [queue[0]] + queue[1..])
    ensures DependenciesFirst(modules, order + [queue[0]])
  {
    var id, next := queue[0], order + [queue[0]];
    assert order + queue == next + queue[1..];
    assert (order + queue)[|order|] == id;
    assert id in order + queue;
    forall k | 0 <= k < |order|
      ensures order[k] != id
    {
      assert (order + queue)[k] == order[k];
    }
    PendingNone(modules[id].dependencies, Elements(order));
    forall i | 0 <= i < |next|
      ensures next[i] in modules && forall d :: d in modules[next[i]].dependencies ==> d in next[..i]
    {
      assert next[..i] == order[..i];
      if i == |order| {
        assert order[..i] == order;
      }
    }
  }

  /** When the queue is empty, the order is complete or what is missing is circular. */
  lemma OrderingDone(modules: Modules, indegree: map<Id, int>, order: seq<Id>)
    requires Ordering(modules, indegree, order, []) && AllRegistered(modules)
    ensures Elements(order) <= modules.Keys
    ensures if |order| == |modules| then IsDependencyOrder(modules, order) else !Orderable(modules)
  {
    assert order + [] == order;
    DistinctSize(order);
    Digraph.SubsetCardinality(Elements(order), modules.Keys);
    assert |modules.Keys| == |modules|;
    if |order| != |modules| {
      var stuck := modules.Keys - Elements(order);
      assert modules.Keys - stuck == Elements(order);
      StuckMeansCircular(modules, stuck);
    }
  }

  lemma {:induction false} DistinctSize(s: seq<Id>)
    requires Distinct(s)
    ensures |Elements(s)| == |s|
  {
    if s != [] {
      var last := s[|s| - 1];
      DistinctSize(s[..|s| - 1]);
      assert s == s[..|s| - 1] + [last];
      assert Elements(s) == Elements(s[..|s| - 1]) + {last};
    }
  }
}
