/**
 The calls that the registry makes on its modules when it initialises, starts, stops and disposes them, and what
 a failed run takes back.
 */
module ModuleLifecycle {
  import opened ModuleOrder
  import Pieces

  /** The calls that the registry makes on modules, in the order in which it makes them. */
  datatype Event = Init(id: Id) | Start(id: Id) | Stop(id: Id) | Dispose(id: Id)

  /** The first module in the order that reports an error, if any. */
  function FirstBroken(order: seq<Id>, broken: set<Id>): (k: nat)
    ensures k <= |order| && forall i :: 0 <= i < k ==> order[i] !in broken
    ensures k < |order| ==> order[k] in broken
  {
    if order == [] || order[0] in broken then 0 else 1 + FirstBroken(order[1..], broken)
  }

  function Inits(order: seq<Id>): seq<Event> {
    seq(|order|, i requires 0 <= i < |order| => Init(order[i]))
  }

  function Starts(order: seq<Id>): seq<Event> {
    seq(|order|, i requires 0 <= i < |order| => Start(order[i]))
  }

  /** Backwards, as every release is. */
  function Stops(order: seq<Id>): seq<Event> {
    seq(|order|, i requires 0 <= i < |order| => Stop(order[|order| - 1 - i]))
  }

  function Disposals(order: seq<Id>): seq<Event> {
    seq(|order|, i requires 0 <= i < |order| => Dispose(order[|order| - 1 - i]))
  }

  /** Backwards, each module stopped and then disposed. */
  function Releases(order: seq<Id>): seq<Event> {
    seq(2 * |order|, i requires 0 <= i < 2 * |order| =>
      var id := order[|order| - 1 - i / 2];
      if i % 2 == 0 then Stop(id) else Dispose(id))
  }

  /** Init in order; at a failure the failing module and all before it are disposed. */
  function InitTrace(order: seq<Id>, broken: set<Id>): seq<Event> {
    var k := FirstBroken(order, broken);
    if k == |order| then Inits(order) else Inits(order[..k + 1]) + Disposals(order[..k + 1])
  }

  /** Start in order; at a failure the modules before the failing one are stopped and disposed. */
  function StartTrace(order: seq<Id>, broken: set<Id>): seq<Event> {
    var k := FirstBroken(order, broken);
    if k == |order| then Starts(order) else Starts(order[..k + 1]) + Releases(order[..k])
  }

  /** No call is made twice. */
  predicate EachOnce(events: seq<Event>) {
    forall i, j :: 0 <= i < j < |events| ==> events[i] != events[j]
  }

  /** A module is initialised only when everything it depends on has been, without an error. */
  predicate InitsAfterDependencies(modules: Modules, broken: set<Id>, events: seq<Event>) {
    forall i :: 0 <= i < |events| && events[i].Init? ==>
      events[i].id in modules && forall d :: d in modules[events[i].id].dependencies ==>
        d !in broken && Init(d) in events[..i]
  }

  predicate StartsAfterDependencies(modules: Modules, broken: set<Id>, events: seq<Event>) {
    forall i :: 0 <= i < |events| && events[i].Start? ==>
      events[i].id in modules && forall d :: d in modules[events[i].id].dependencies ==>
        d !in broken && Start(d) in events[..i]
  }

  /** A module goes before what it depends on. */
  predicate DisposesDependentsFirst(modules: Modules, events: seq<Event>) {
    forall i, j ::
      (&& 0 <= i < |events| && 0 <= j < |events| && events[i].Dispose? && events[j].Dispose?
       && events[i].id in modules && events[j].id in modules[events[i].id].dependencies)
      ==> i < j
  }

  predicate StopsDependentsFirst(modules: Modules, events: seq<Event>) {
    forall i, j ::
      (&& 0 <= i < |events| && 0 <= j < |events| && events[i].Stop? && events[j].Stop?
       && events[i].id in modules && events[j].id in modules[events[i].id].dependencies)
      ==> i < j
  }

  lemma InitAt(order: seq<Id>, broken: set<Id>, i: nat)
    requires i < |InitTrace(order, broken)|
    ensures var k := FirstBroken(order, broken);
            InitTrace(order, broken)[i]
            == (if k == |order| || i <= k then Init(order[i]) else Dispose(order[2 * k + 1 - i]))
  {
    var k := FirstBroken(order, broken);
    if k < |order| {
      JoinedAt(Inits(order[..k + 1]), Disposals(order[..k + 1]), i);
    }
  }

  lemma JoinedAt<T>(a: seq<T>, b: seq<T>, i: nat)
    requires i < |a + b|
    ensures (a + b)[i] == if i < |a| then a[i] else b[i - |a|]
  {
  }

  lemma InitsOnceEach(modules: Modules, order: seq<Id>, broken: set<Id>)
    requires IsDependencyOrder(modules, order)
    ensures EachOnce(InitTrace(order, broken))
  {
    var events := InitTrace(order, broken);
    forall i, j | 0 <= i < j < |events|
      ensures events[i] != events[j]
    {
      InitAt(order, broken, i);
      InitAt(order, broken, j);
    }
  }

  lemma InitsInOrder(modules: Modules, order: seq<Id>, broken: set<Id>)
    requires IsDependencyOrder(modules, order)
    ensures InitsAfterDependencies(modules, broken, InitTrace(order, broken))
  {
    var events := InitTrace(order, broken);
    forall i | 0 <= i < |events| && events[i].Init?
      ensures events[i].id in modules
      ensures forall d :: d in modules[events[i].id].dependencies ==> d !in broken && Init(d) in events[..i]
    {
      InitAt(order, broken, i);
      forall d | d in modules[order[i]].dependencies
        ensures d !in broken && Init(d) in events[..i]
      {
        var j :| 0 <= j < i && order[..i][j] == d;
        InitAt(order, broken, j);
        assert events[..i][j] == Init(d);
      }
    }
  }

  lemma DisposeAt(order: seq<Id>, broken: set<Id>, i: nat)
    requires i < |InitTrace(order, broken)| && InitTrace(order, broken)[i].Dispose?
    ensures var k := FirstBroken(order, broken);
            k < |order| && k < i <= 2 * k + 1 && InitTrace(order, broken)[i] == Dispose(order[2 * k + 1 - i])
  {
    InitAt(order, broken, i);
  }

  /** The disposals among the events go backwards through the order, from its k-th module. */
  predicate MirrorsOrder(order: seq<Id>, k: nat, events: seq<Event>) {
    k < |order| && forall i :: 0 <= i < |events| && events[i].Dispose? ==>
      k < i <= 2 * k + 1 && events[i].id == order[2 * k + 1 - i]
  }

  lemma MirroredOrder(modules: Modules, order: seq<Id>, k: nat, events: seq<Event>)
    requires IsDependencyOrder(modules, order) && MirrorsOrder(order, k, events)
    ensures DisposesDependentsFirst(modules, events)
  {
    forall i, j | 0 <= i < |events| && 0 <= j < |events| && events[i].Dispose? && events[j].Dispose?
                  && events[i].id in modules && events[j].id in modules[events[i].id].dependencies
      ensures i < j
    {
      EarlierInOrder(modules, order, 2 * k + 1 - i, 2 * k + 1 - j);
    }
  }

  lemma InitTraceMirrors(order: seq<Id>, broken: set<Id>)
    requires FirstBroken(order, broken) < |order|
    ensures MirrorsOrder(order, FirstBroken(order, broken), InitTrace(order, broken))
  {
    var k, events := FirstBroken(order, broken), InitTrace(order, broken);
    forall i | 0 <= i < |events| && events[i].Dispose?
      ensures k < i <= 2 * k + 1 && events[i].id == order[2 * k + 1 - i]
    {
      DisposeAt(order, broken, i);
    }
  }

  lemma DisposesInOrder(modules: Modules, order: seq<Id>, broken: set<Id>)
    requires IsDependencyOrder(modules, order)
    ensures DisposesDependentsFirst(modules, InitTrace(order, broken))
  {
    if FirstBroken(order, broken) < |order| {
      InitTraceMirrors(order, broken);
      MirroredOrder(modules, order, FirstBroken(order, broken), InitTrace(order, broken));
    }
  }

  lemma InitsHold(order: seq<Id>, e: Event)
    ensures e in Inits(order) <==> e.Init? && e.id in order
  {
    if e.Init? && e.id in order {
      var i :| 0 <= i < |order| && order[i] == e.id;
      assert Inits(order)[i] == e;
    }
  }

  lemma DisposalsHold(order: seq<Id>, e: Event)
    ensures e in Disposals(order) <==> e.Dispose? && e.id in order
  {
    if e.Dispose? && e.id in order {
      var i :| 0 <= i < |order| && order[i] == e.id;
      assert Disposals(order)[|order| - 1 - i] == e;
    }
  }

  /** What a failed run initialised is what it disposes. */
  lemma InitedIffDisposed(order: seq<Id>, broken: set<Id>, id: Id)
    requires FirstBroken(order, broken) < |order|
    ensures Init(id) in InitTrace(order, broken) <==> id in order[..FirstBroken(order, broken) + 1]
    ensures Dispose(id) in InitTrace(order, broken) <==> id in order[..FirstBroken(order, broken) + 1]
  {
    var part := order[..FirstBroken(order, broken) + 1];
    InitsHold(part, Init(id));
    InitsHold(part, Dispose(id));
    DisposalsHold(part, Init(id));
    DisposalsHold(part, Dispose(id));
  }

  lemma BrokenIsFound(modules: Modules, order: seq<Id>, broken: set<Id>) returns (k: nat)
    requires IsDependencyOrder(modules, order) && !(modules.Keys !! broken)
    ensures k == FirstBroken(order, broken) && k < |order|
  {
    k := FirstBroken(order, broken);
    var b :| b in modules && b in broken;
    assert b in Elements(order);
  }


  /**
   A failed run of InitAll disposes exactly what it initialised, the one module that failed included, each
   once and dependents before their dependencies. Every module is initialised after its dependencies.
   */
  lemma InitRollsBack(modules: Modules, order: seq<Id>, broken: set<Id>) returns (b: Id)
    requires IsDependencyOrder(modules, order) && !(modules.Keys !! broken)
    ensures var events := InitTrace(order, broken);
            && EachOnce(events) && InitsAfterDependencies(modules, broken, events)
            && DisposesDependentsFirst(modules, events)
            && (forall id :: Init(id) in events <==> Dispose(id) in events)
            && (forall id :: Init(id) in events && id in broken <==> id == b)
  {
    InitsOnceEach(modules, order, broken);
    InitsInOrder(modules, order, broken);
    DisposesInOrder(modules, order, broken);
    var k := BrokenIsFound(modules, order, broken);
    b := order[k];
    assert order[..k + 1][k] == b;
    forall id
      ensures Init(id) in InitTrace(order, broken) <==> Dispose(id) in InitTrace(order, broken)
      ensures Init(id) in InitTrace(order, broken) && id in broken <==> id == b
    {
      InitedIffDisposed(order, broken, id);
    }
  }

  lemma FirstBrokenNone(modules: Modules, order: seq<Id>, broken: set<Id>)
    requires IsDependencyOrder(modules, order) && modules.Keys !! broken
    ensures FirstBroken(order, broken) == |order|
  {
    forall i | 0 <= i < |order|
      ensures order[i] !in broken
    {
      assert order[i] in Elements(order);
    }
  }

  /** Without a failure every module is initialised once, after its dependencies, and none is disposed. */
  lemma InitReachesAll(modules: Modules, order: seq<Id>, broken: set<Id>)
    requires IsDependencyOrder(modules, order) && modules.Keys !! broken
    ensures var events := InitTrace(order, broken);
            && EachOnce(events) && InitsAfterDependencies(modules, broken, events)
            && forall e :: e in events <==> e.Init? && e.id in modules
  {
    InitsOnceEach(modules, order, broken);
    InitsInOrder(modules, order, broken);
    FirstBrokenNone(modules, order, broken);
    forall e
      ensures e in Inits(order) <==> e.Init? && e.id in modules
    {
      InitsHold(order, e);
      assert e.id in Elements(order) <==> e.id in modules;
    }
  }

  lemma StartsHold(order: seq<Id>, e: Event)
    ensures e in Starts(order) <==> e.Start? && e.id in order
  {
    if e.Start? && e.id in order {
      var i :| 0 <= i < |order| && order[i] == e.id;
      assert Starts(order)[i] == e;
    }
  }

  lemma StopsHold(order: seq<Id>, e: Event)
    ensures e in Stops(order) <==> e.Stop? && e.id in order
  {
    if e.Stop? && e.id in order {
      var i :| 0 <= i < |order| && order[i] == e.id;
      assert Stops(order)[|order| - 1 - i] == e;
    }
  }

  lemma ReleasesAt(order: seq<Id>, i: nat)
    requires i < |order|
    ensures Releases(order)[2 * (|order| - 1 - i)] == Stop(order[i])
    ensures Releases(order)[2 * (|order| - 1 - i) + 1] == Dispose(order[i])
  {
  }

  lemma ReleasesHold(order: seq<Id>, e: Event)
    ensures e in Releases(order) <==> (e.Stop? || e.Dispose?) && e.id in order
  {
    if (e.Stop? || e.Dispose?) && e.id in order {
      var i :| 0 <= i < |order| && order[i] == e.id;
      ReleasesAt(order, i);
    }
  }

  /** Event j of the release of the first k modules. */
  function ReleaseEvent(order: seq<Id>, k: nat, j: nat): Event
    requires k <= |order| && j < 2 * k
  {
    var id := order[k - 1 - j / 2];
    if j % 2 == 0 then Stop(id) else Dispose(id)
  }

  lemma ReleaseAtIndex(order: seq<Id>, k: nat, j: nat)
    requires k <= |order| && j < 2 * k
    ensures Releases(order[..k])[j] == ReleaseEvent(order, k, j)
  {
  }

  /** Behind the start that failed, the trace consists of the releases. */
  lemma TraceTail(order: seq<Id>, broken: set<Id>, i: nat)
    requires var k := FirstBroken(order, broken); k < |order| && k < i < 3 * k + 1
    ensures var k := FirstBroken(order, broken);
            && |StartTrace(order, broken)| == 3 * k + 1 && i - k - 1 < 2 * |order[..k]|
            && StartTrace(order, broken)[i] == Releases(order[..k])[i - k - 1]
  {
  }

  lemma StartHead(order: seq<Id>, broken: set<Id>, i: nat)
    requires var k := FirstBroken(order, broken); i < |order| && i <= k
    ensures i < |StartTrace(order, broken)| && StartTrace(order, broken)[i] == Start(order[i])
  {
  }

  /** The events of a start that fails at k: the starts up to it, then the releases. */
  predicate HasEvent(order: seq<Id>, k: nat, i: nat) {
    k <= |order| && if k == |order| || i <= k then i < |order| else i - k - 1 < 2 * k
  }

  function EventAt(order: seq<Id>, k: nat, i: nat): Event
    requires HasEvent(order, k, i)
  {
    if k == |order| || i <= k then Start(order[i]) else ReleaseEvent(order, k, i - k - 1)
  }

  lemma StartAt(order: seq<Id>, broken: set<Id>, i: nat)
    requires i < |StartTrace(order, broken)|
    ensures HasEvent(order, FirstBroken(order, broken), i)
    ensures StartTrace(order, broken)[i] == EventAt(order, FirstBroken(order, broken), i)
  {
    var k := FirstBroken(order, broken);
    if k == |order| || i <= k {
      StartHead(order, broken, i);
    } else {
      TraceTail(order, broken, i);
      ReleaseAtIndex(order, k, i - k - 1);
    }
  }

  lemma StartTraceHolds(order: seq<Id>, broken: set<Id>, e: Event)
    ensures var k := FirstBroken(order, broken);
            e in StartTrace(order, broken) <==>
            if e.Start? then e.id in (if k == |order| then order else order[..k + 1])
            else (e.Stop? || e.Dispose?) && k < |order| && e.id in order[..k]
  {
    var k := FirstBroken(order, broken);
    if k == |order| {
      StartsHold(order, e);
    } else {
      StartsHold(order[..k + 1], e);
      ReleasesHold(order[..k], e);
    }
  }

  /** Where in the order the module of release event i stands. */
  function ReleasePosition(k: nat, i: nat): int {
    k - 1 - (i - k - 1) / 2
  }

  lemma ReleasesDiffer(order: seq<Id>, k: nat, i: nat, j: nat)
    requires Distinct(order) && k <= |order| && i < j < 2 * k
    ensures ReleaseEvent(order, k, i) != ReleaseEvent(order, k, j)
  {
    var p, q := k - 1 - i / 2, k - 1 - j / 2;
    assert q < p ==> order[q] != order[p];
  }

  lemma StartCallsDiffer(order: seq<Id>, broken: set<Id>, i: nat, j: nat)
    requires Distinct(order) && i < j < |StartTrace(order, broken)|
    ensures StartTrace(order, broken)[i] != StartTrace(order, broken)[j]
  {
    StartAt(order, broken, i);
    StartAt(order, broken, j);
    EventsDiffer(order, FirstBroken(order, broken), i, j);
  }

  lemma EventsDiffer(order: seq<Id>, k: nat, i: nat, j: nat)
    requires Distinct(order) && i < j && HasEvent(order, k, i) && HasEvent(order, k, j)
    ensures EventAt(order, k, i) != EventAt(order, k, j)
  {
    if k < |order| && k < i {
      ReleasesDiffer(order, k, i - k - 1, j - k - 1);
    }
  }

  lemma StartsOnceEach(modules: Modules, order: seq<Id>, broken: set<Id>)
    requires IsDependencyOrder(modules, order)
    ensures EachOnce(StartTrace(order, broken))
  {
    var events := StartTrace(order, broken);
    forall i, j | 0 <= i < j < |events|
      ensures events[i] != events[j]
    {
      StartCallsDiffer(order, broken, i, j);
    }
  }

  lemma StartsInOrder(modules: Modules, order: seq<Id>, broken: set<Id>)
    requires IsDependencyOrder(modules, order)
    ensures StartsAfterDependencies(modules, broken, StartTrace(order, broken))
  {
    var events := StartTrace(order, broken);
    forall i | 0 <= i < |events| && events[i].Start?
      ensures events[i].id in modules
      ensures forall d :: d in modules[events[i].id].dependencies ==> d !in broken && Start(d) in events[..i]
    {
      StartAt(order, broken, i);
      forall d | d in modules[order[i]].dependencies
        ensures d !in broken && Start(d) in events[..i]
      {
        var j :| 0 <= j < i && order[..i][j] == d;
        StartAt(order, broken, j);
        assert events[..i][j] == Start(d);
      }
    }
  }

  lemma TraceHead(order: seq<Id>, broken: set<Id>, i: nat)
    requires i < |StartTrace(order, broken)| && !StartTrace(order, broken)[i].Start?
    ensures var k := FirstBroken(order, broken); k < |order| && k < i < 3 * k + 1
  {
  }

  lemma StopAt(order: seq<Id>, broken: set<Id>, i: nat)
    requires i < |StartTrace(order, broken)| && StartTrace(order, broken)[i].Stop?
    ensures var k := FirstBroken(order, broken);
            && k < |order| && k < i < 3 * k + 1 && (i - k - 1) % 2 == 0 && 0 <= ReleasePosition(k, i) < k
            && StartTrace(order, broken)[i] == Stop(order[ReleasePosition(k, i)])
  {
    TraceHead(order, broken, i);
    TraceTail(order, broken, i);
    var k := FirstBroken(order, broken);
    ReleaseAtIndex(order, k, i - k - 1);
  }

  lemma ReleasesInOrder(modules: Modules, order: seq<Id>, broken: set<Id>)
    requires IsDependencyOrder(modules, order)
    ensures StopsDependentsFirst(modules, StartTrace(order, broken))
  {
    var events, k := StartTrace(order, broken), FirstBroken(order, broken);
    forall i, j | 0 <= i < |events| && 0 <= j < |events| && events[i].Stop? && events[j].Stop?
                  && events[i].id in modules && events[j].id in modules[events[i].id].dependencies
      ensures i < j
    {
      StopAt(order, broken, i);
      StopAt(order, broken, j);
      EarlierInOrder(modules, order, ReleasePosition(k, i), ReleasePosition(k, j));
      LaterRelease(k, i, j);
    }
  }

  lemma LaterRelease(k: nat, i: nat, j: nat)
    requires ReleasePosition(k, j) < ReleasePosition(k, i)
    ensures i < j
  {
  }

  lemma DisposedAfterStop(order: seq<Id>, broken: set<Id>, i: nat)
    requires i < |StartTrace(order, broken)| && StartTrace(order, broken)[i].Stop?
    ensures var events := StartTrace(order, broken);
            i + 1 < |events| && events[i + 1] == Dispose(events[i].id)
  {
    StopAt(order, broken, i);
    var k := FirstBroken(order, broken);
    ReleaseOffset(k, i);
    TraceTail(order, broken, i + 1);
    ReleaseAtIndex(order, k, i - k);
  }

  lemma ReleaseOffset(k: nat, i: nat)
    requires k < i < 3 * k + 1 && (i - k - 1) % 2 == 0
    ensures i + 1 < 3 * k + 1 && (i - k) % 2 == 1 && (i - k) / 2 == (i - k - 1) / 2
  {
  }

  /**
   A failed run of StartAll stops, and right after that disposes, exactly the modules that it started without an
   error, dependents before their dependencies. The module b that failed is neither stopped nor disposed, and
   neither are the modules behind it.
   */
  lemma StartRollsBack(modules: Modules, order: seq<Id>, broken: set<Id>) returns (b: Id)
    requires IsDependencyOrder(modules, order) && !(modules.Keys !! broken)
    ensures var events := StartTrace(order, broken);
            && EachOnce(events) && StartsAfterDependencies(modules, broken, events)
            && StopsDependentsFirst(modules, events)
            && (forall i :: 0 <= i < |events| && events[i].Stop? ==>
                  i + 1 < |events| && events[i + 1] == Dispose(events[i].id))
            && (forall id :: Stop(id) in events <==> Start(id) in events && id != b)
            && (forall id :: Dispose(id) in events <==> Start(id) in events && id != b)
            && (forall id :: Start(id) in events && id in broken <==> id == b)
  {
    StartsOnceEach(modules, order, broken);
    StartsInOrder(modules, order, broken);
    ReleasesInOrder(modules, order, broken);
    var events := StartTrace(order, broken);
    forall i | 0 <= i < |events| && events[i].Stop?
      ensures i + 1 < |events| && events[i + 1] == Dispose(events[i].id)
    {
      DisposedAfterStop(order, broken, i);
    }
    var k := BrokenIsFound(modules, order, broken);
    b := order[k];
    forall id
      ensures Stop(id) in events <==> Start(id) in events && id != b
      ensures Dispose(id) in events <==> Start(id) in events && id != b
      ensures Start(id) in events && id in broken <==> id == b
    {
      StartTraceHolds(order, broken, Start(id));
      StartTraceHolds(order, broken, Stop(id));
      StartTraceHolds(order, broken, Dispose(id));
      UpToFailing(order, broken, id);
    }
  }

  lemma UpToFailing(order: seq<Id>, broken: set<Id>, id: Id)
    requires Distinct(order) && FirstBroken(order, broken) < |order|
    ensures var k := FirstBroken(order, broken);
            && (id in order[..k] <==> id in order[..k + 1] && id != order[k])
            && (id in order[..k + 1] && id in broken <==> id == order[k])
  {
    var k := FirstBroken(order, broken);
    assert order[..k + 1] == order[..k] + [order[k]];
    assert order[..k + 1][k] == order[k];
  }

  /** Without a failure every module is started once, after its dependencies, and nothing else happens. */
  lemma StartReachesAll(modules: Modules, order: seq<Id>, broken: set<Id>)
    requires IsDependencyOrder(modules, order) && modules.Keys !! broken
    ensures var events := StartTrace(order, broken);
            && EachOnce(events) && StartsAfterDependencies(modules, broken, events)
            && forall e :: e in events <==> e.Start? && e.id in modules
  {
    StartsOnceEach(modules, order, broken);
    StartsInOrder(modules, order, broken);
    FirstBrokenNone(modules, order, broken);
    forall e
      ensures e in Starts(order) <==> e.Start? && e.id in modules
    {
      StartsHold(order, e);
      assert e.id in Elements(order) <==> e.id in modules;
    }
  }

  /** Stopping reaches every module once whatever fails, dependents before their dependencies. */
  lemma StopReachesAll(modules: Modules, order: seq<Id>)
    requires IsDependencyOrder(modules, order)
    ensures EachOnce(Stops(order)) && StopsDependentsFirst(modules, Stops(order))
    ensures forall e :: e in Stops(order) <==> e.Stop? && e.id in modules
  {
    var events := Stops(order);
    forall i, j | 0 <= i < |events| && 0 <= j < |events| && events[i].id in modules
                  && events[j].id in modules[events[i].id].dependencies
      ensures i < j
    {
      EarlierInOrder(modules, order, |order| - 1 - i, |order| - 1 - j);
    }
    forall e
      ensures e in events <==> e.Stop? && e.id in modules
    {
      StopsHold(order, e);
      assert e.id in Elements(order) <==> e.id in modules;
    }
  }

  lemma {:induction false} FirstBrokenIs(order: seq<Id>, broken: set<Id>, k: nat)
    requires k <= |order| && (forall j :: 0 <= j < k ==> order[j] !in broken) && (k < |order| ==> order[k] in broken)
    ensures FirstBroken(order, broken) == k
  {
    if k > 0 {
      FirstBrokenIs(order[1..], broken, k - 1);
    }
  }

  /** The calls of a run that fails at module i, in the pieces in which they are made. */
  lemma InitFailsAt(order: seq<Id>, broken: set<Id>, i: nat)
    requires i < |order| && order[i] in broken && forall j :: 0 <= j < i ==> order[j] !in broken
    ensures FirstBroken(order, broken) == i
    ensures InitTrace(order, broken)
            == Inits(order[..i]) + [Init(order[i])] + [Dispose(order[i])] + Disposals(order[..i])
  {
    FirstBrokenIs(order, broken, i);
    InitsSnoc(order, i);
    DisposalsCons(order, i);
    Pieces.AppendAssoc(Inits(order[..i]) + [Init(order[i])], [Dispose(order[i])], Disposals(order[..i]));
  }

  lemma DisposalsCons(order: seq<Id>, i: nat)
    requires i < |order|
    ensures Disposals(order[..i + 1]) == [Dispose(order[i])] + Disposals(order[..i])
  {
  }

  lemma InitsSnoc(order: seq<Id>, i: nat)
    requires i < |order|
    ensures Inits(order[..i + 1]) == Inits(order[..i]) + [Init(order[i])]
  {
  }

  /** Backwards, module i is the first that reports an error. */
  ghost predicate FirstStopError(order: seq<Id>, broken: set<Id>, i: int) {
    0 <= i < |order| && order[i] in broken && forall j :: i < j < |order| ==> order[j] !in broken
  }

  lemma NoneBroken(modules: Modules, order: seq<Id>, broken: set<Id>)
    requires IsDependencyOrder(modules, order) && forall j :: 0 <= j < |order| ==> order[j] !in broken
    ensures modules.Keys !! broken
  {
    forall id | id in modules
      ensures id !in broken
    {
      assert id in Elements(order);
    }
  }
}
