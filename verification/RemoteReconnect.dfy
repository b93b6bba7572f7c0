/**
 The reconnect protocol of a remote client node with reconnecting enabled, before the topology is
 stopped. Reader, writer and reconnect goroutines share the current connection, which is cleared
 by compare-and-clear, and a compare-and-swap guard, which the reconnect loop releases before it
 publishes the new connection. Every access to either is one atomic step here, and the steps of
 all goroutines interleave freely.
 */
module RemoteReconnect {
  import opened Wrappers

  type ConnId = nat

  /** Where a goroutine stands. The argument is the connection it works with. */
  datatype Pc =
    | Reading(c: ConnId)       // in the read loop
    | ReadFailed(c: ConnId)    // read returned an error, connection not yet cleared
    | Writing(c: ConnId)       // took the current connection, write in progress
    | WriteFailed(c: ConnId)   // write returned an error, connection not yet cleared
    | Spawning                 // a writer that cleared the connection, before it starts a reconnect
    | Detached                 // about to try for the reconnect guard
    | Waiting                  // holds the guard, waits and dials
    | Dialed(c: ConnId)        // holds the guard and a new connection
    | Publishing(c: ConnId)    // released the guard, new connection not yet visible
    | Published(c: ConnId)     // new connection visible, its reader not yet started
    | Finished

  datatype State = State(
    conn: Option<ConnId>,
    guard: bool,
    next: ConnId,
    threads: seq<Pc>,
    // What has happened so far.
    published: seq<ConnId>,
    detached: seq<ConnId>,
    refused: nat,              // reconnect attempts that found the guard taken
    overwritten: nat)          // publications that found a connection in place

  datatype Event =
    | StartWrite
    | WriteOk(i: nat)
    | Fail(i: nat)             // a read or a write returns an error
    | Clear(i: nat)            // compare-and-clear, then close
    | Spawn(i: nat)
    | TryGuard(i: nat)
    | DialFails(i: nat)
    | DialSucceeds(i: nat)
    | ReleaseGuard(i: nat)
    | Publish(i: nat)
    | StartReader(i: nat)

  function Goto(s: State, i: nat, pc: Pc): State
    requires i < |s.threads|
  {
    s.(threads := s.threads[i := pc])
  }

  /** The state after one step, or nothing when the step cannot be taken. */
  function Next(s: State, ev: Event): Option<State> {
    if ev.StartWrite? then
      // Without a connection the write fails at once and starts nothing.
      (match s.conn
       case None => None
       case Some(c) => Some(s.(threads := s.threads + [Writing(c)])))
    else if ev.i >= |s.threads| then None
    else
      match (ev, s.threads[ev.i])
      case (WriteOk(i), Writing(c)) => Some(Goto(s, i, Finished))
      case (Fail(i), Reading(c)) => Some(Goto(s, i, ReadFailed(c)))
      case (Fail(i), Writing(c)) => Some(Goto(s, i, WriteFailed(c)))
      case (Clear(i), ReadFailed(c)) =>
        if s.conn == Some(c) then Some(Goto(s, i, Detached).(conn := None, detached := s.detached + [c]))
        else Some(Goto(s, i, Finished))
      case (Clear(i), WriteFailed(c)) =>
        if s.conn == Some(c) then Some(Goto(s, i, Spawning).(conn := None, detached := s.detached + [c]))
        else Some(Goto(s, i, Finished))
      case (Spawn(i), Spawning) => Some(s.(threads := s.threads[i := Finished] + [Detached]))
      case (TryGuard(i), Detached) =>
        if s.guard then Some(Goto(s, i, Finished).(refused := s.refused + 1))
        else Some(Goto(s, i, Waiting).(guard := true))
      case (DialFails(i), Waiting) => Some(s)
      case (DialSucceeds(i), Waiting) => Some(Goto(s, i, Dialed(s.next)).(next := s.next + 1))
      case (ReleaseGuard(i), Dialed(c)) => Some(Goto(s, i, Publishing(c)).(guard := false))
      case (Publish(i), Publishing(c)) =>
        Some(Goto(s, i, Published(c)).(conn := Some(c), published := s.published + [c],
             overwritten := if s.conn.Some? then s.overwritten + 1 else s.overwritten))
      case (StartReader(i), Published(c)) => Some(s.(threads := s.threads[i := Finished] + [Reading(c)]))
      case _ => None
  }

  /** A node that connected when it was started. */
  const STARTED_CONNECTED := State(Some(0), false, 1, [Published(0)], [0], [], 0, 0)

  /** A node that was allowed to start disconnected. */
  const STARTED_DISCONNECTED := State(None, false, 0, [Detached], [], [], 0, 0)

  predicate IsStart(s: State) {
    s == STARTED_CONNECTED || s == STARTED_DISCONNECTED
  }

  /** The state after a whole run, or nothing when some step of it cannot be taken. */
  function Run(s: State, events: seq<Event>): Option<State> {
    if events == [] then Some(s)
    else
      match Run(s, events[..|events| - 1])
      case None => None
      case Some(t) => Next(t, events[|events| - 1])
  }

  // ---------------------------------------------------------------------------------------------
  // Token conservation
  // ---------------------------------------------------------------------------------------------

  /** A goroutine that owes the node a connection. */
  function Owes(pc: Pc): nat {
    if pc.Spawning? || pc.Detached? || pc.Waiting? || pc.Dialed? || pc.Publishing? then 1 else 0
  }

  function Guards(pc: Pc): nat {
    if pc.Waiting? || pc.Dialed? then 1 else 0
  }

  function Total(threads: seq<Pc>, w: Pc -> nat): nat {
    if threads == [] then 0 else Total(threads[..|threads| - 1], w) + w(threads[|threads| - 1])
  }

  lemma {:induction false} TotalUpdate(threads: seq<Pc>, w: Pc -> nat, i: nat, pc: Pc)
    requires i < |threads|
    ensures Total(threads[i := pc], w) + w(threads[i]) == Total(threads, w) + w(pc)
  {
    var last := |threads| - 1;
    if i == last {
      assert threads[i := pc][..last] == threads[..last];
    } else {
      assert threads[i := pc][..last] == threads[..last][i := pc];
      TotalUpdate(threads[..last], w, i, pc);
    }
  }

  lemma TotalAppend(threads: seq<Pc>, w: Pc -> nat, pc: Pc)
    ensures Total(threads + [pc], w) == Total(threads, w) + w(pc)
  {
    assert (threads + [pc])[..|threads|] == threads;
  }

  lemma {:induction false} TotalAtLeast(threads: seq<Pc>, w: Pc -> nat, i: nat)
    requires i < |threads|
    ensures w(threads[i]) <= Total(threads, w)
  {
    if i < |threads| - 1 {
      TotalAtLeast(threads[..|threads| - 1], w, i);
    }
  }

  lemma {:induction false} TotalPositive(threads: seq<Pc>, w: Pc -> nat) returns (i: nat)
    requires Total(threads, w) > 0
    ensures i < |threads| && w(threads[i]) > 0
  {
    if w(threads[|threads| - 1]) > 0 {
      i := |threads| - 1;
    } else {
      i := TotalPositive(threads[..|threads| - 1], w);
    }
  }

  function Connected(s: State): nat {
    if s.conn.Some? then 1 else 0
  }

  /** There is always exactly one of: a current connection, a goroutine that owes one. */
  predicate OneToken(s: State) {
    Connected(s) + Total(s.threads, Owes) == 1
  }

  function Held(guard: bool): nat {
    if guard then 1 else 0
  }

  predicate GuardIsHeld(s: State) {
    Total(s.threads, Guards) == Held(s.guard)
  }

  /** A reader of the current connection exists, or its starter does. */
  predicate Watches(pc: Pc, c: ConnId) {
    pc == Reading(c) || pc == ReadFailed(c) || pc == Published(c)
  }

  predicate IsWatched(s: State) {
    s.conn.Some? ==> exists i :: 0 <= i < |s.threads| && Watches(s.threads[i], s.conn.value)
  }

  /** Connections come and go in order, each one detached before the next is published. */
  predicate InOrder(s: State) {
    s.published == s.detached + (if s.conn.Some? then [s.conn.value] else [])
  }

  /** The connection that is dialed or about to be published is newer than all before it. */
  predicate PendingIsNewest(s: State) {
    forall i :: 0 <= i < |s.threads| && (s.threads[i].Dialed? || s.threads[i].Publishing?) ==>
                  s.threads[i].c < s.next && forall c :: c in s.published ==> c < s.threads[i].c
  }

  /** No connection is published twice, and numbers only grow. */
  predicate PublishedRising(s: State) {
    && (forall i, j :: 0 <= i < j < |s.published| ==> s.published[i] < s.published[j])
    && (forall c :: c in s.published ==> c < s.next)
  }

  predicate Invariant(s: State) {
    && OneToken(s) && GuardIsHeld(s) && IsWatched(s) && InOrder(s)
    && PublishedRising(s) && PendingIsNewest(s)
    && s.refused == 0 && s.overwritten == 0
  }

  lemma {:induction false} TotalPair(threads: seq<Pc>, w: Pc -> nat, i: nat, j: nat)
    requires i < j < |threads|
    ensures w(threads[i]) + w(threads[j]) <= Total(threads, w)
  {
    if j < |threads| - 1 {
      TotalPair(threads[..|threads| - 1], w, i, j);
    } else {
      TotalAtLeast(threads[..|threads| - 1], w, i);
    }
  }

  /** While some goroutine owes a connection none is current, and no other goroutine owes one. */
  lemma SoleDebtor(s: State, i: nat)
    requires OneToken(s) && i < |s.threads| && Owes(s.threads[i]) == 1
    ensures s.conn.None?
    ensures forall j :: 0 <= j < |s.threads| && j != i ==> Owes(s.threads[j]) == 0
  {
    TotalAtLeast(s.threads, Owes, i);
    forall j | 0 <= j < |s.threads| && j != i
      ensures Owes(s.threads[j]) == 0
    {
      TotalPair(s.threads, Owes, if i < j then i else j, if i < j then j else i);
    }
  }

  /** The guard is free whenever a goroutine comes to try it. */
  lemma GuardIsFree(s: State, i: nat)
    requires OneToken(s) && GuardIsHeld(s) && i < |s.threads| && s.threads[i].Detached?
    ensures !s.guard
  {
    if s.guard {
      SoleDebtor(s, i);
      var j := TotalPositive(s.threads, Guards);
      assert false;
    }
  }

  /** What a step other than a new write adds to the goroutines. */
  function Added(s: State, ev: Event): Option<Pc>
    requires Next(s, ev).Some? && !ev.StartWrite?
  {
    if ev.Spawn? then Some(Detached) else if ev.StartReader? then Some(Reading(s.threads[ev.i].c)) else None
  }

  function Weight(added: Option<Pc>, w: Pc -> nat): nat {
    if added.Some? then w(added.value) else 0
  }

  /** How a step moves a total: goroutine i changes, and at most one goroutine is added. */
  lemma StepTotal(s: State, ev: Event, w: Pc -> nat)
    requires Next(s, ev).Some? && !ev.StartWrite?
    ensures var t, i := Next(s, ev).value, ev.i;
            && i < |t.threads| && i < |s.threads|
            && Total(t.threads, w) + w(s.threads[i])
               == Total(s.threads, w) + w(t.threads[i]) + Weight(Added(s, ev), w)
  {
    var t, i, added := Next(s, ev).value, ev.i, Added(s, ev);
    TotalUpdate(s.threads, w, i, t.threads[i]);
    if added.Some? {
      assert t.threads == s.threads[i := t.threads[i]] + [added.value];
      TotalAppend(s.threads[i := t.threads[i]], w, added.value);
    } else {
      assert t.threads == s.threads[i := t.threads[i]];
    }
  }

  /** A publication replaces no connection, and no goroutine is turned away. */
  predicate FindsItsPlace(s: State, ev: Event) {
    (ev.Publish? ==> s.conn.None?) && (ev.TryGuard? ==> !s.guard)
  }

  lemma EveryStepFindsItsPlace(s: State, ev: Event)
    requires OneToken(s) && GuardIsHeld(s) && Next(s, ev).Some?
    ensures FindsItsPlace(s, ev)
  {
    if ev.Publish? {
      SoleDebtor(s, ev.i);
    } else if ev.TryGuard? {
      GuardIsFree(s, ev.i);
    }
  }

  lemma StepMovesToken(s: State, ev: Event)
    requires Next(s, ev).Some? && !ev.StartWrite? && FindsItsPlace(s, ev)
    ensures var t, i := Next(s, ev).value, ev.i;
            && i < |t.threads| && i < |s.threads|
            && Connected(t) + Owes(t.threads[i]) + Weight(Added(s, ev), Owes) == Connected(s) + Owes(s.threads[i])
  {
  }

  lemma StepMovesGuard(s: State, ev: Event)
    requires Next(s, ev).Some? && !ev.StartWrite? && FindsItsPlace(s, ev) && (ev.ReleaseGuard? ==> s.guard)
    ensures var t, i := Next(s, ev).value, ev.i;
            && i < |t.threads| && i < |s.threads|
            && Guards(t.threads[i]) + Weight(Added(s, ev), Guards) + Held(s.guard)
               == Held(t.guard) + Guards(s.threads[i])
  {
  }

  lemma WriteKeepsTotals(s: State, ev: Event)
    requires Next(s, ev).Some? && ev.StartWrite?
    ensures var t := Next(s, ev).value;
            && Total(t.threads, Owes) == Total(s.threads, Owes) && t.conn == s.conn
            && Total(t.threads, Guards) == Total(s.threads, Guards) && t.guard == s.guard
  {
    TotalAppend(s.threads, Owes, Writing(s.conn.value));
    TotalAppend(s.threads, Guards, Writing(s.conn.value));
  }

  lemma StepKeepsOneToken(s: State, ev: Event)
    requires OneToken(s) && GuardIsHeld(s) && Next(s, ev).Some?
    ensures OneToken(Next(s, ev).value)
  {
    if ev.StartWrite? {
      WriteKeepsTotals(s, ev);
    } else {
      EveryStepFindsItsPlace(s, ev);
      StepMovesToken(s, ev);
      StepTotal(s, ev, Owes);
    }
  }

  lemma ReleaserHoldsGuard(s: State, ev: Event)
    requires GuardIsHeld(s) && Next(s, ev).Some? && ev.ReleaseGuard?
    ensures s.guard
  {
    TotalAtLeast(s.threads, Guards, ev.i);
  }

  lemma StepKeepsGuard(s: State, ev: Event)
    requires OneToken(s) && GuardIsHeld(s) && Next(s, ev).Some?
    ensures GuardIsHeld(Next(s, ev).value)
  {
    if ev.StartWrite? {
      WriteKeepsTotals(s, ev);
    } else {
      EveryStepFindsItsPlace(s, ev);
      if ev.ReleaseGuard? {
        ReleaserHoldsGuard(s, ev);
      }
      StepMovesGuard(s, ev);
      StepTotal(s, ev, Guards);
    }
  }

  lemma StepRefusesNothing(s: State, ev: Event)
    requires OneToken(s) && GuardIsHeld(s) && Next(s, ev).Some?
    ensures var t := Next(s, ev).value;
            t.refused == s.refused && t.overwritten == s.overwritten
  {
    EveryStepFindsItsPlace(s, ev);
  }

  lemma StepKeepsWatch(s: State, ev: Event)
    requires Invariant(s) && Next(s, ev).Some?
    ensures IsWatched(Next(s, ev).value)
  {
    var t := Next(s, ev).value;
    if t.conn.Some? {
      if ev.Publish? {
        assert Watches(t.threads[ev.i], t.conn.value);
      } else {
        var k :| 0 <= k < |s.threads| && Watches(s.threads[k], s.conn.value);
        if ev.StartReader? && ev.i == k {
          assert Watches(t.threads[|s.threads|], t.conn.value);
        } else {
          assert Watches(t.threads[k], t.conn.value);
        }
      }
    }
  }

  lemma StepKeepsInOrder(s: State, ev: Event)
    requires OneToken(s) && InOrder(s) && Next(s, ev).Some?
    ensures InOrder(Next(s, ev).value)
  {
    if ev.Publish? {
      SoleDebtor(s, ev.i);
    }
  }

  lemma StepKeepsRising(s: State, ev: Event)
    requires PublishedRising(s) && PendingIsNewest(s) && Next(s, ev).Some?
    ensures PublishedRising(Next(s, ev).value)
  {
    if ev.Publish? {
      assert s.threads[ev.i].Publishing?;
      assert forall k :: 0 <= k < |s.published| ==> s.published[k] in s.published;
    }
  }

  lemma StepKeepsNewest(s: State, ev: Event)
    requires OneToken(s) && PublishedRising(s) && PendingIsNewest(s) && Next(s, ev).Some?
    ensures PendingIsNewest(Next(s, ev).value)
  {
    if ev.Publish? {
      SoleDebtor(s, ev.i);
      assert forall j :: 0 <= j < |s.threads| && j != ev.i ==> !s.threads[j].Dialed? && !s.threads[j].Publishing?;
    }
  }

  lemma StepKeepsInvariant(s: State, ev: Event)
    requires Invariant(s) && Next(s, ev).Some?
    ensures Invariant(Next(s, ev).value)
  {
    StepKeepsOneToken(s, ev);
    StepKeepsGuard(s, ev);
    StepRefusesNothing(s, ev);
    StepKeepsWatch(s, ev);
    StepKeepsInOrder(s, ev);
    StepKeepsRising(s, ev);
    StepKeepsNewest(s, ev);
  }

  lemma StartsSatisfyInvariant()
    ensures Invariant(STARTED_CONNECTED) && Invariant(STARTED_DISCONNECTED)
  {
    assert Watches(STARTED_CONNECTED.threads[0], 0);
    assert Total([], Owes) == 0 == Total([], Guards);
    TotalAppend([], Owes, Published(0));
    TotalAppend([], Owes, Detached);
    TotalAppend([], Guards, Published(0));
    TotalAppend([], Guards, Detached);
    assert [] + [Published(0)] == STARTED_CONNECTED.threads && [] + [Detached] == STARTED_DISCONNECTED.threads;
  }

  lemma {:induction false} RunKeepsInvariant(s: State, events: seq<Event>)
    requires Invariant(s) && Run(s, events).Some?
    ensures Invariant(Run(s, events).value)
  {
    if events != [] {
      RunKeepsInvariant(s, events[..|events| - 1]);
      StepKeepsInvariant(Run(s, events[..|events| - 1]).value, events[|events| - 1]);
    }
  }

  // ---------------------------------------------------------------------------------------------
  // Main results, for every interleaving
  // ---------------------------------------------------------------------------------------------

  /**
   At every moment exactly one thing holds: a connection is current and has a reader, or exactly one
   goroutine owes one. No reconnect was ever refused, so none is lost and no two run at once; no
   publication replaced a live connection; and every published connection but the current one was
   detached exactly once, in the order of publication.
   */
  lemma EveryInterleaving(start: State, events: seq<Event>)
    requires IsStart(start) && Run(start, events).Some?
    ensures var s := Run(start, events).value;
            && Connected(s) + Total(s.threads, Owes) == 1
            && (s.conn.Some? ==> exists i :: 0 <= i < |s.threads| && Watches(s.threads[i], s.conn.value))
            && s.refused == 0 && s.overwritten == 0
            && s.published == s.detached + (if s.conn.Some? then [s.conn.value] else [])
            && forall i, j :: 0 <= i < j < |s.published| ==> s.published[i] != s.published[j]
  {
    StartsSatisfyInvariant();
    RunKeepsInvariant(start, events);
  }

  /** A failure on a connection that is no longer current changes neither the connection nor the guard. */
  lemma OldFailureIsHarmless(start: State, events: seq<Event>, i: nat)
    requires IsStart(start) && Run(start, events).Some?
    requires var s := Run(start, events).value;
             i < |s.threads| && (s.threads[i].ReadFailed? || s.threads[i].WriteFailed?)
    requires var s := Run(start, events).value; s.threads[i].c in s.detached
    ensures var s := Run(start, events).value;
            && s.conn != Some(s.threads[i].c)
            && Next(s, Clear(i)) == Some(Goto(s, i, Finished))
  {
    EveryInterleaving(start, events);
    var s := Run(start, events).value;
    if s.conn.Some? {
      forall k | 0 <= k < |s.detached|
        ensures s.detached[k] != s.conn.value
      {
        assert s.published[k] == s.detached[k] && s.published[|s.detached|] == s.conn.value;
      }
    }
  }

  /** Steps still to be taken until a connection is published. */
  function Distance(pc: Pc): nat {
    match pc
    case Spawning => 5
    case Detached => 4
    case Waiting => 3
    case Dialed(_) => 2
    case Publishing(_) => 1
    case _ => 0
  }

  /** The step that the goroutine takes next, if the next dial succeeds. */
  function OwnStep(pc: Pc, i: nat): Event
    requires Owes(pc) == 1
  {
    match pc
    case Spawning => Spawn(i)
    case Detached => TryGuard(i)
    case Waiting => DialSucceeds(i)
    case Dialed(_) => ReleaseGuard(i)
    case Publishing(_) => Publish(i)
  }

  /** The goroutine that owes a connection can always take its next step. */
  lemma DebtorCanStep(s: State, i: nat)
    requires Invariant(s) && i < |s.threads| && Owes(s.threads[i]) == 1
    ensures Next(s, OwnStep(s.threads[i], i)).Some?
  {
  }

  /** No step of another goroutine moves the one that owes a connection, or connects the node. */
  lemma OthersLeaveDebtor(s: State, ev: Event, i: nat)
    requires Invariant(s) && i < |s.threads| && Owes(s.threads[i]) == 1
    requires Next(s, ev).Some? && (ev.StartWrite? || ev.i != i)
    ensures var t := Next(s, ev).value;
            t.conn.None? && i < |t.threads| && t.threads[i] == s.threads[i]
  {
    SoleDebtor(s, i);
  }

  /** Where the debt of goroutine i is after its own step. */
  function DebtorAfter(s: State, ev: Event, i: nat): nat {
    if ev.Spawn? then |s.threads| else i
  }

  /** Its own steps, but for a failing dial, bring it nearer by one, until the node is connected. */
  lemma OwnStepAdvances(s: State, ev: Event, i: nat)
    requires Invariant(s) && i < |s.threads| && Owes(s.threads[i]) == 1
    requires Next(s, ev).Some? && !ev.StartWrite? && ev.i == i
    ensures var t, k := Next(s, ev).value, DebtorAfter(s, ev, i);
            if ev.DialFails? then t == s
            else if Distance(s.threads[i]) == 1 then t.conn.Some?
            else t.conn.None? && k < |t.threads| && Owes(t.threads[k]) == 1
                 && Distance(t.threads[k]) == Distance(s.threads[i]) - 1
  {
    SoleDebtor(s, i);
    if ev.TryGuard? {
      GuardIsFree(s, i);
    }
  }

  /** The node is never stuck: from every moment, if the next dial succeeds, some at most five steps reconnect it. */
  lemma {:induction false} ReconnectIsNeverLost(s: State, i: nat) returns (events: seq<Event>)
    requires Invariant(s) && s.conn.None? && i < |s.threads| && Owes(s.threads[i]) == 1
    ensures |events| <= Distance(s.threads[i])
    ensures Run(s, events).Some? && Run(s, events).value.conn.Some?
    decreases Distance(s.threads[i])
  {
    var ev := OwnStep(s.threads[i], i);
    DebtorCanStep(s, i);
    OwnStepAdvances(s, ev, i);
    StepKeepsInvariant(s, ev);
    assert Run(s, []) == Some(s);
    assert [ev][..0] == [];
    if ev.Publish? {
      events := [ev];
    } else {
      var rest := ReconnectIsNeverLost(Next(s, ev).value, DebtorAfter(s, ev, i));
      events := [ev] + rest;
      RunFirst(s, ev, rest);
    }
  }

  /** The steps that only a goroutine that owes a connection can take, but for a failing dial. */
  predicate Advances(ev: Event) {
    ev.Spawn? || ev.TryGuard? || ev.DialSucceeds? || ev.ReleaseGuard? || ev.Publish?
  }

  function Advancing(events: seq<Event>): nat {
    if events == [] then 0
    else
      var before, last := Advancing(events[..|events| - 1]), events[|events| - 1];
      if Advances(last) then before + 1 else before
  }

  ghost predicate DisconnectedAfter(s: State, events: seq<Event>) {
    Run(s, events).Some? && Run(s, events).value.conn.None?
  }

  ghost predicate StaysDisconnected(s: State, events: seq<Event>) {
    forall k :: 0 <= k <= |events| ==> DisconnectedAfter(s, events[..k])
  }

  lemma StepMovesDistance(s: State, ev: Event)
    requires Next(s, ev).Some? && s.conn.None? && FindsItsPlace(s, ev)
    ensures var t, i := Next(s, ev).value, ev.i;
            && i < |t.threads| && i < |s.threads|
            && Distance(t.threads[i]) + Weight(Added(s, ev), Distance) + (if Advances(ev) then 1 else 0)
               == Distance(s.threads[i])
  {
  }

  lemma StepRemaining(s: State, ev: Event)
    requires Invariant(s) && s.conn.None? && Next(s, ev).Some?
    ensures var t := Next(s, ev).value;
            Total(t.threads, Distance) + (if Advances(ev) then 1 else 0) == Total(s.threads, Distance)
  {
    EveryStepFindsItsPlace(s, ev);
    StepMovesDistance(s, ev);
    StepTotal(s, ev, Distance);
  }

  /** While the node stays disconnected the steps taken and the steps still to be taken make up the same number. */
  lemma {:induction false} RemainingCounts(s: State, events: seq<Event>)
    requires Invariant(s) && StaysDisconnected(s, events)
    ensures DisconnectedAfter(s, events)
    ensures Total(Run(s, events).value.threads, Distance) + Advancing(events) == Total(s.threads, Distance)
  {
    assert events[..|events|] == events;
    assert DisconnectedAfter(s, events[..|events|]);
    if events != [] {
      var before, last := events[..|events| - 1], events[|events| - 1];
      forall k | 0 <= k <= |before|
        ensures DisconnectedAfter(s, before[..k])
      {
        assert before[..k] == events[..k];
      }
      RemainingCounts(s, before);
      RunKeepsInvariant(s, before);
      StepRemaining(Run(s, before).value, last);
    }
  }

  lemma {:induction false} TotalOfOne(threads: seq<Pc>, w: Pc -> nat, i: nat)
    requires i < |threads| && forall j :: 0 <= j < |threads| && j != i ==> w(threads[j]) == 0
    ensures Total(threads, w) == w(threads[i])
  {
    var before := threads[..|threads| - 1];
    if i < |before| {
      TotalOfOne(before, w, i);
    } else {
      TotalOfNone(before, w);
    }
  }

  lemma {:induction false} TotalOfNone(threads: seq<Pc>, w: Pc -> nat)
    requires forall j :: 0 <= j < |threads| ==> w(threads[j]) == 0
    ensures Total(threads, w) == 0
  {
    if threads != [] {
      TotalOfNone(threads[..|threads| - 1], w);
    }
  }

  /** What a disconnected node still needs is the distance of its one debtor. */
  lemma RemainingIsDistance(s: State) returns (i: nat)
    requires Invariant(s) && s.conn.None?
    ensures i < |s.threads| && Owes(s.threads[i]) == 1
    ensures Total(s.threads, Distance) == Distance(s.threads[i])
  {
    i := TotalPositive(s.threads, Owes);
    SoleDebtor(s, i);
    TotalOfOne(s.threads, Distance, i);
  }

  lemma {:induction false} RunFirst(s: State, ev: Event, rest: seq<Event>)
    requires Next(s, ev).Some?
    ensures Run(s, [ev] + rest) == Run(Next(s, ev).value, rest)
  {
    if rest == [] {
      assert [ev] + rest == [ev] && [ev][..0] == [];
      assert Run(s, []) == Some(s);
    } else {
      RunFirst(s, ev, rest[..|rest| - 1]);
      assert ([ev] + rest)[..|rest|] == [ev] + rest[..|rest| - 1];
    }
  }

  /**
   Every schedule reconnects: from a disconnected moment of any run, in whatever order the goroutines take their
   steps and however often a dial fails, the node is connected at some moment of a run on from there in which the
   goroutine that owes the connection takes five steps other than failing dials.
   */
  lemma EveryScheduleReconnects(start: State, events: seq<Event>, more: seq<Event>) returns (k: nat)
    requires IsStart(start) && DisconnectedAfter(start, events)
    requires Run(Run(start, events).value, more).Some? && Advancing(more) >= 5
    ensures k <= |more|
    ensures var s := Run(start, events).value;
            Run(s, more[..k]).Some? && Run(s, more[..k]).value.conn.Some?
  {
    StartsSatisfyInvariant();
    RunKeepsInvariant(start, events);
    var s := Run(start, events).value;
    if StaysDisconnected(s, more) {
      RemainingCounts(s, more);
      RunKeepsInvariant(s, more);
      var i := RemainingIsDistance(s);
      var j := RemainingIsDistance(Run(s, more).value);
      assert false;
    }
    k :| 0 <= k <= |more| && !DisconnectedAfter(s, more[..k]);
    RunOfPrefix(s, more, k);
  }

  lemma {:induction false} RunOfPrefix(s: State, events: seq<Event>, k: nat)
    requires Run(s, events).Some? && k <= |events|
    ensures Run(s, events[..k]).Some?
  {
    if k == |events| {
      assert events[..k] == events;
    } else {
      var before := events[..|events| - 1];
      assert events[..k] == before[..k];
      RunOfPrefix(s, before, k);
    }
  }

  /** A disconnected node has its one debtor, so it can always be reconnected. */
  lemma DisconnectedCanReconnect(start: State, events: seq<Event>) returns (more: seq<Event>)
    requires IsStart(start) && Run(start, events).Some? && Run(start, events).value.conn.None?
    ensures |more| <= 5
    ensures var s := Run(start, events).value;
            Run(s, more).Some? && Run(s, more).value.conn.Some?
  {
    StartsSatisfyInvariant();
    RunKeepsInvariant(start, events);
    var s := Run(start, events).value;
    var i := RemainingIsDistance(s);
    more := ReconnectIsNeverLost(s, i);
  }
}
