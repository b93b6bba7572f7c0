/**
 The registry of the workbench's modules: registration, the dependency order, and the ordered Init, Start and
 Stop with their rollbacks.
 */
module ModuleRegistries {
  import opened Wrappers
  import opened ModuleOrder
  import opened ModuleLifecycle

  datatype RegistryError =
    | EmptyId
    | AlreadyRegistered(id: Id)
    | MissingDependency(id: Id, dependency: Id)
    | CircularDependency
    | InitFailed(id: Id)
    | StartFailed(id: Id)
    | StopFailed(id: Id)

  class ModuleRegistry {
    var modules: Modules

    ghost predicate Valid()
      reads this
    {
      forall id :: id in modules ==> id != "" && modules[id].id == id
    }

    constructor ()
      ensures Valid() && modules == map[]
    {
      modules := map[];
    }

    /** Rejects an empty or used identifier and otherwise adds exactly this module. */
    method Register(m: Module) returns (r: Result<(), RegistryError>)
      requires Valid()
      modifies this
      ensures Valid()
      ensures r == (if m.id == "" then Err(EmptyId)
                    else if m.id in old(modules) then Err(AlreadyRegistered(m.id)) else Ok(()))
      ensures modules == if r.Ok? then old(modules)[m.id := m] else old(modules)
    {
      if m.id == "" {
        return Err(EmptyId);
      }
      if m.id in modules {
        return Err(AlreadyRegistered(m.id));
      }
      modules := modules[m.id := m];
      return Ok(());
    }

    /** Kahn's algorithm; which module is taken first where several may be is left open, as the maps leave it. */
    method Order() returns (r: Result<seq<Id>, RegistryError>)
      ensures r.Ok? <==> Orderable(modules)
      ensures match r
              case Ok(order) => IsDependencyOrder(modules, order)
              case Err(MissingDependency(id, d)) => id in modules && d in modules[id].dependencies && d !in modules
              case Err(e) => e == CircularDependency && AllRegistered(modules)
    {
      var missing, indegree, dependents := CountDependencies(modules);
      if missing.Some? {
        return Err(MissingDependency(missing.value.0, missing.value.1));
      }
      var queue := Ready(modules, indegree);
      var order := [];
      OrderingStarts(modules, indegree, dependents, queue);
      while queue != []
        invariant Ordering(modules, indegree, order, queue)
        decreases modules.Keys - Elements(order)
      {
        OrderingStep(modules, indegree, order, queue);
        var id := queue[0];
        queue := queue[1..];
        ghost var placed := Elements(order);
        order := order + [id];
        indegree, queue := Settle(modules, id, dependents, indegree, queue, order, placed);
      }
      OrderingDone(modules, indegree, order);
      if |order| != |modules| {
        return Err(CircularDependency);
      }
      OrderedIsOrderable(modules, order);
      return Ok(order);
    }

    /** `broken` are the modules whose Init reports an error. */
    method InitAll(broken: set<Id>) returns (r: Result<(), RegistryError>, events: seq<Event>, ghost order: seq<Id>)
      ensures !Orderable(modules) ==> r.Err? && events == []
      ensures Orderable(modules) ==>
                && IsDependencyOrder(modules, order) && events == InitTrace(order, broken)
                && var k := FirstBroken(order, broken);
                   r == if k == |order| then Ok(()) else Err(InitFailed(order[k]))
    {
      events := [];
      var found := Order();
      if found.Err? {
        return Err(found.error), [], [];
      }
      order := found.value;
      var initialised: seq<Id> := [];
      for i := 0 to |found.value|
        invariant initialised == order[..i] && events == Inits(order[..i])
        invariant forall j :: 0 <= j < i ==> order[j] !in broken
      {
        var id := found.value[i];
        events := events + [Init(id)];
        if id in broken {
          var disposed := DisposeBack(initialised);
          InitFailsAt(order, broken, i);
          return Err(InitFailed(id)), events + [Dispose(id)] + disposed, order;
        }
        InitsSnoc(order, i);
        initialised := initialised + [id];
      }
      FirstBrokenIs(order, broken, |order|);
      assert order[..|order|] == order;
      r := Ok(());
    }

    method DisposeBack(ids: seq<Id>) returns (events: seq<Event>)
      ensures events == Disposals(ids)
    {
      events := [];
      var i := |ids| - 1;
      while i >= 0
        invariant -1 <= i < |ids| && events == Disposals(ids)[..|ids| - 1 - i]
      {
        events := events + [Dispose(ids[i])];
        i := i - 1;
      }
    }

    /** `broken` are the modules whose Start reports an error. */
    method StartAll(broken: set<Id>) returns (r: Result<(), RegistryError>, events: seq<Event>, ghost order: seq<Id>)
      ensures !Orderable(modules) ==> r.Err? && events == []
      ensures Orderable(modules) ==>
                && IsDependencyOrder(modules, order) && events == StartTrace(order, broken)
                && var k := FirstBroken(order, broken);
                   r == if k == |order| then Ok(()) else Err(StartFailed(order[k]))
    {
      events := [];
      var found := Order();
      if found.Err? {
        return Err(found.error), [], [];
      }
      order := found.value;
      var started: seq<Id> := [];
      for i := 0 to |found.value|
        invariant started == order[..i] && events == Starts(order[..i])
        invariant forall j :: 0 <= j < i ==> order[j] !in broken
      {
        var id := found.value[i];
        events := events + [Start(id)];
        assert order[..i + 1] == order[..i] + [id] && events == Starts(order[..i + 1]);
        if id in broken {
          var released := ReleaseBack(started);
          FirstBrokenIs(order, broken, i);
          events := events + released;
          return Err(StartFailed(id)), events, order;
        }
        started := started + [id];
      }
      FirstBrokenIs(order, broken, |order|);
      assert order[..|order|] == order;
      r := Ok(());
    }

    method ReleaseBack(ids: seq<Id>) returns (events: seq<Event>)
      ensures events == Releases(ids)
    {
      events := [];
      var i := |ids| - 1;
      while i >= 0
        invariant -1 <= i < |ids| && events == Releases(ids)[..2 * (|ids| - 1 - i)]
      {
        ReleasesAt(ids, i);
        events := events + [Stop(ids[i])] + [Dispose(ids[i])];
        i := i - 1;
      }
    }

    /** `broken` are the modules whose Stop reports an error; the first such error in call order is kept. */
    method StopAll(broken: set<Id>) returns (r: Result<(), RegistryError>, events: seq<Event>, ghost order: seq<Id>)
      ensures !Orderable(modules) ==> r.Err? && events == []
      ensures Orderable(modules) ==>
                && IsDependencyOrder(modules, order) && events == Stops(order)
                && (r.Ok? <==> modules.Keys !! broken)
                && (r.Err? ==> exists i :: FirstStopError(order, broken, i) && r == Err(StopFailed(order[i])))
    {
      events, r := [], Ok(());
      var found := Order();
      if found.Err? {
        return Err(found.error), [], [];
      }
      order := found.value;
      var i := |found.value| - 1;
      ghost var failed := -1;
      while i >= 0
        invariant -1 <= i < |order| && events == Stops(order)[..|order| - 1 - i]
        invariant r.Ok? ==> forall j :: i < j < |order| ==> order[j] !in broken
        invariant r.Err? ==> FirstStopError(order, broken, failed) && r == Err(StopFailed(order[failed]))
      {
        var id := found.value[i];
        events := events + [Stop(id)];
        if id in broken && r.Ok? {
          r := Err(StopFailed(id));
          failed := i;
        }
        i := i - 1;
      }
      if r.Ok? {
        NoneBroken(modules, order, broken);
      }
    }

    method DisposeAll() returns (events: seq<Event>, ghost order: seq<Id>)
      ensures !Orderable(modules) ==> events == []
      ensures Orderable(modules) ==> IsDependencyOrder(modules, order) && events == Disposals(order)
    {
      var found := Order();
      if found.Err? {
        return [], [];
      }
      order := found.value;
      events := DisposeBack(found.value);
    }
  }
}
