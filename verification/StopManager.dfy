/** Shutdown: what all runs of the steps guarantee to listeners, callback and those who wait. */
module StopManager {
  import opened Bytes
  import opened Runs
  import opened StopSteps

  // ----- those who wait -----

  /**
   * Unless a listener came in after the count had been brought to zero: the count stays zero,
   * somebody is still to wake the waiters or has done so, until then every waiter is on the
   * list, and after it every parked waiter has been woken.
   */
  ghost predicate Waits(s: State) {
    !s.late ==>
      && (s.zeroed ==> s.count == 0)
      && (s.zeroed && !s.drained ==> exists i :: WorkerAt(s, i, Draining))
      && (forall i :: WorkerAt(s, i, Draining) ==> s.zeroed)
      && (s.drained ==> s.zeroed)
      && (!s.drained ==> forall w :: w in s.waiters && !s.waiters[w].Away? ==> w in s.parkThreads)
      && (s.drained ==> forall w :: w in s.waiters && s.waiters[w].Parked? ==> w in s.tokens)
  }

  lemma StepKeepsWaits(s: State, e: Event)
    requires Waits(s) && Enabled(s, e) && (e.Subtract? ==> s.count > 0)
    ensures Waits(After(s, e))
  {
    hide Waits, AfterStop, AfterStopOf, AfterRegister, AfterRemove, AfterSubtract, AfterUnpark, AfterCall, AfterWaiter;
    match e
    case Register(name) => RegisterKeepsWaits(s, name);
    case RemoveListener(i) =>
      RemoveFlags(s, i);
      WaitsDepends(s, AfterRemove(s, i), i);
    case Stop => StopKeepsWaits(s);
    case Subtract(i) => SubtractKeepsWaits(s, i);
    case UnparkAll(i) => UnparkKeepsWaits(s, i);
    case StopOf(i) => StopOfKeepsWaits(s, i);
    case CallOf(i) => CallKeepsWaits(s, i);
    case _ => WaiterKeepsWaits(s, e);
  }

  lemma StopKeepsWaits(s: State)
    requires Waits(s)
    ensures Waits(AfterStop(s))
  {
    hide Waits, RanAll;
    WaitsSame(s, AfterStop(s));
  }

  lemma StopOfKeepsWaits(s: State, i: nat)
    requires Waits(s) && WorkerAt(s, i, Stopping)
    ensures Waits(AfterStopOf(s, i))
  {
    hide Waits, RanAll;
    WaitsDepends(s, AfterStopOf(s, i), i);
  }

  lemma CallKeepsWaits(s: State, i: nat)
    requires Waits(s) && WorkerAt(s, i, Calling)
    ensures Waits(AfterCall(s, i))
  {
    hide Waits;
    WaitsDepends(s, AfterCall(s, i), i);
  }

  lemma WaitsSame(s: State, t: State)
    requires Waits(s)
    requires t == s.(stopped := t.stopped, listeners := t.listeners, ran := t.ran)
    ensures Waits(t)
  {
    assert forall i :: WorkerAt(t, i, Draining) <==> WorkerAt(s, i, Draining);
  }

  lemma WaitsDepends(s: State, t: State, i: nat)
    requires Waits(s) && i < |s.workers| && |t.workers| == |s.workers| && t.workers == s.workers[i := t.workers[i]]
    requires s.workers[i].pc != Draining && t.workers[i].pc != Draining
    requires t.count == s.count && t.zeroed == s.zeroed && t.drained == s.drained && t.late == s.late
    requires t.waiters == s.waiters && t.tokens == s.tokens && t.parkThreads == s.parkThreads
    ensures Waits(t)
  {
    assert forall j :: WorkerAt(t, j, Draining) <==> WorkerAt(s, j, Draining);
  }

  lemma RegisterKeepsWaits(s: State, name: string)
    requires Waits(s)
    ensures Waits(AfterRegister(s, name))
  {
    hide FindName;
    var t := AfterRegister(s, name);
    assert forall j :: WorkerAt(t, j, Draining) <==> WorkerAt(s, j, Draining);
  }

  lemma SubtractKeepsWaits(s: State, i: nat)
    requires Waits(s) && WorkerAt(s, i, Removed) && s.count > 0
    ensures Waits(AfterSubtract(s, i))
  {
    var t := AfterSubtract(s, i);
    if s.count == 1 {
      assert WorkerAt(t, i, Draining);
    } else {
      assert forall j :: WorkerAt(t, j, Draining) <==> WorkerAt(s, j, Draining);
    }
  }

  lemma UnparkKeepsWaits(s: State, i: nat)
    requires Waits(s) && WorkerAt(s, i, Draining)
    ensures Waits(AfterUnpark(s, i))
  {}

  lemma WaiterKeepsWaits(s: State, e: Event)
    requires Waits(s) && Enabled(s, e) && (e.Arrive? || e.Look? || e.Wake? || e.TimeOut?)
    ensures Waits(AfterWaiter(s, e))
  {
    var t := AfterWaiter(s, e);
    assert forall j :: WorkerAt(t, j, Draining) <==> WorkerAt(s, j, Draining);
  }

  ghost predicate Inv(s: State) {
    Registered(s) && RanOnce(s) && CalledOnce(s) && Counts(s) && Waits(s)
  }

  lemma StepKeepsInv(s: State, e: Event)
    requires Inv(s) && Enabled(s, e)
    ensures Inv(After(s, e))
  {
    hide Registered, RanOnce, CalledOnce, Counts, Waits, After;
    StepKeepsListeners(s, e);
    StepKeepsCallback(s, e);
    StepKeepsCount(s, e);
    StepKeepsWaits(s, e);
  }

  lemma SubtractIsPositive(s: State, i: nat)
    requires Inv(s) && WorkerAt(s, i, Removed)
    ensures s.count > 0
  {
    StepKeepsCount(s, Subtract(i));
  }

  lemma {:induction false} EveryStateHasInv(states: seq<State>, events: seq<Event>, k: nat)
    requires Run(states, events) && k <= |events|
    ensures Inv(states[k])
    decreases k
  {
    hide Inv, After, Enabled;
    if k == 0 {
      InitialHasInv();
    } else {
      EveryStateHasInv(states, events, k - 1);
      assert states[k - 1 + 1] == After(states[k - 1], events[k - 1]);
      StepKeepsInv(states[k - 1], events[k - 1]);
    }
  }

  lemma InitialHasInv()
    ensures Inv(INITIAL)
  {}

  // ----- what every run guarantees -----

  /** Each listener runs at most once, and exactly once as soon as its worker is released or the manager stopped. */
  lemma EachListenerRunsExactlyOnce(states: seq<State>, events: seq<Event>, k: nat, i: nat)
    requires Run(states, events) && k <= |events| && i < |states[k].workers|
    ensures |states[k].ran| == |states[k].workers| && states[k].ran[i] <= 1
    ensures states[k].ran[i] == 1 <==> states[k].stopped || !states[k].workers[i].pc.Live?
  {
    EveryStateHasInv(states, events, k);
    var s := states[k];
    if Pending(s, i) {
      var l :| 0 <= l < |s.listeners| && s.listeners[l] == (s.workers[i].name, i);
    }
  }

  /** Before the stop, registered names are unique and each is the name of its own live worker. */
  lemma NamesAreUniqueAndLive(states: seq<State>, events: seq<Event>, k: nat)
    requires Run(states, events) && k <= |events|
    ensures var s := states[k];
            && UniqueNames(s.listeners)
            && (forall x :: x in s.listeners ==> x.1 < |s.workers| && s.workers[x.1] == Worker(x.0, Live))
            && (!s.stopped ==> forall i :: 0 <= i < |s.workers| && s.workers[i].pc.Live? ==> (s.workers[i].name, i) in s.listeners)
  {
    EveryStateHasInv(states, events, k);
  }

  /** What a step can do to the stop flag, the number of workers and the history flags. */
  lemma StepFlags(s: State, e: Event)
    requires Enabled(s, e)
    ensures var t := After(s, e);
            && (s.stopped ==> t.stopped)
            && (s.stopped ==> |t.workers| == |s.workers|)
            && (t.late ==> s.late || (s.zeroed && !s.stopped))
            && (s.zeroed ==> t.zeroed)
  {
    hide FindName, RanAll, AfterRegister, AfterRemove, MovedTo;
    match e
    case Register(name) => RegisterFlags(s, name);
    case RemoveListener(i) =>
      RemoveFlags(s, i);
      MovedKeepsLength(s, i, Removed);
    case Subtract(i) => MovedKeepsLength(s, i, if s.count == 1 then Draining else Gone);
    case UnparkAll(i) => MovedKeepsLength(s, i, Stopping);
    case StopOf(i) => MovedKeepsLength(AfterStop(s), i, Calling);
    case CallOf(i) => MovedKeepsLength(s, i, Gone);
    case _ =>
  }

  lemma MovedKeepsLength(s: State, i: nat, pc: Pc)
    requires i < |s.workers|
    ensures var t := MovedTo(s, i, pc);
            |t.workers| == |s.workers| && t.stopped == s.stopped && t.late == s.late && t.zeroed == s.zeroed
  {}

  /** After the stop nothing registers, ever. */
  lemma {:induction false} NothingRegistersAfterStop(states: seq<State>, events: seq<Event>, j: nat, k: nat)
    requires Run(states, events) && j <= k <= |events| && states[j].stopped
    ensures states[k].stopped && |states[k].workers| == |states[j].workers| && states[k].listeners == []
    decreases k
  {
    hide After, Enabled;
    EveryStateHasInv(states, events, k);
    if j < k {
      NothingRegistersAfterStop(states, events, j, k - 1);
      assert states[k - 1 + 1] == After(states[k - 1], events[k - 1]);
      StepFlags(states[k - 1], events[k - 1]);
    }
  }

  /** The callback runs at most once, and when it has, all listeners have run. */
  lemma CallbackRunsOnceAfterAllListeners(states: seq<State>, events: seq<Event>, k: nat)
    requires Run(states, events) && k <= |events|
    ensures var s := states[k];
            && s.calls <= 1
            && (s.calls == 1 ==> s.stopped && s.listeners == [] && |s.ran| == |s.workers|
                                 && forall i :: 0 <= i < |s.workers| ==> s.ran[i] == 1)
  {
    EveryStateHasInv(states, events, k);
  }

  /** If the manager is stopped before the count is brought to zero, nothing comes late. */
  lemma {:induction false} StopFirstMeansNoneLate(states: seq<State>, events: seq<Event>, j: nat, k: nat)
    requires Run(states, events) && j <= k <= |events| && states[j].stopped && !states[j].zeroed
    ensures !states[k].late
    decreases k
  {
    hide After, Enabled;
    if j == k {
      NotLateBeforeZero(states, events, j);
    } else {
      StopFirstMeansNoneLate(states, events, j, k - 1);
      NothingRegistersAfterStop(states, events, j, k - 1);
      assert states[k - 1 + 1] == After(states[k - 1], events[k - 1]);
      StepFlags(states[k - 1], events[k - 1]);
    }
  }

  lemma {:induction false} NotLateBeforeZero(states: seq<State>, events: seq<Event>, k: nat)
    requires Run(states, events) && k <= |events| && !states[k].zeroed
    ensures !states[k].late
    decreases k
  {
    hide After, Enabled;
    if k > 0 {
      assert states[k - 1 + 1] == After(states[k - 1], events[k - 1]);
      StepFlags(states[k - 1], events[k - 1]);
      NotLateBeforeZero(states, events, k - 1);
    }
  }

  /** Those who wait go on the list and look; a look lets go exactly at a count of zero, and parks otherwise. */
  lemma WaiterLooks(s: State, w: nat)
    ensures Enabled(s, Arrive(w)) ==> WaiterPc(After(s, Arrive(w)), w).Looking? && w in After(s, Arrive(w)).parkThreads
    ensures Enabled(s, Look(w)) ==> WaiterPc(After(s, Look(w)), w) == if s.count == 0 then Away else Parked
  {}

  /** Whoever has been woken can look again, and so may anybody without reason; a timeout leads away. */
  lemma WaiterWakes(s: State, w: nat, spurious: bool)
    requires WaiterPc(s, w).Parked?
    ensures Enabled(s, Wake(w, spurious)) <==> spurious || w in s.tokens
    ensures Enabled(s, Wake(w, spurious)) ==> WaiterPc(After(s, Wake(w, spurious)), w).Looking?
    ensures Enabled(s, TimeOut(w)) && WaiterPc(After(s, TimeOut(w)), w).Away?
  {}

  /** A waiter that can never go on: parked, and nobody has woken it. */
  predicate Stuck(s: State, w: nat) {
    WaiterPc(s, w).Parked? && w !in s.tokens
  }

  predicate AllGone(s: State) {
    forall i :: 0 <= i < |s.workers| ==> s.workers[i].pc == Gone
  }

  lemma GoneMeansNobodyStuck(s: State, w: nat)
    requires Inv(s) && !s.late && |s.workers| > 0 && AllGone(s)
    ensures s.count == 0 && !Stuck(s, w)
  {
    assert Counted(s) == {};
  }

  /** A worker between bringing the count to zero and running the callback. */
  predicate Closing(s: State, i: nat) {
    WorkerAt(s, i, Draining) || WorkerAt(s, i, Stopping) || WorkerAt(s, i, Calling)
  }

  /** Once the count has been zero, the callback has run or somebody is on the way to it. */
  ghost predicate CallbackDue(s: State) {
    s.zeroed ==> s.calls == 1 || exists i :: Closing(s, i)
  }

  lemma StepKeepsCallbackDue(s: State, e: Event)
    requires CalledOnce(s) && CallbackDue(s) && Enabled(s, e)
    ensures CallbackDue(After(s, e))
  {
    hide CalledOnce, After, AfterRemove, AfterRegister, RanAll, FindName, AfterWaiter;
    var t := After(s, e);
    CallsDone(s, e);
    if e.Subtract? && s.count == 1 {
      assert Closing(t, e.i);
    } else if s.zeroed && s.calls != 1 {
      var i :| Closing(s, i);
      ClosingGoesOn(s, e, i);
    }
  }

  /** The callback stays run, and is run by whoever gets to it; only the last worker brings the count to zero. */
  lemma CallsDone(s: State, e: Event)
    requires CalledOnce(s) && Enabled(s, e)
    ensures var t := After(s, e);
            && (s.calls == 1 || e.CallOf? ==> t.calls == 1)
            && (t.zeroed ==> s.zeroed || (e.Subtract? && s.count == 1))
            && (e.Subtract? && s.count == 1 ==> WorkerAt(t, e.i, Draining))
  {
    hide RanAll, FindName;
    match e
    case RemoveListener(i) => RemoveFlags(s, i);
    case _ =>
  }

  lemma ClosingGoesOn(s: State, e: Event, i: nat)
    requires Enabled(s, e) && Closing(s, i)
    ensures Closing(After(s, e), i) || e == CallOf(i)
  {
    hide RanAll, FindName, AfterRegister, AfterRemove, AfterSubtract, AfterWaiter;
    match e
    case Register(name) => RegisterKeepsOthers(s, name, i);
    case RemoveListener(j) => RemoveKeepsOthers(s, j, i);
    case Subtract(j) => SubtractKeepsOthers(s, j, i);
    case UnparkAll(_) =>
    case StopOf(_) =>
    case CallOf(_) =>
    case Stop =>
    case _ => WaiterKeepsWorkers(s, e);
  }

  lemma RegisterKeepsOthers(s: State, name: string, i: nat)
    requires Closing(s, i)
    ensures Closing(AfterRegister(s, name), i)
  {
    hide FindName;
  }

  lemma SubtractKeepsOthers(s: State, j: nat, i: nat)
    requires WorkerAt(s, j, Removed) && Closing(s, i)
    ensures Closing(AfterSubtract(s, j), i)
  {}

  lemma WaiterKeepsWorkers(s: State, e: Event)
    ensures AfterWaiter(s, e).workers == s.workers
  {}

  lemma RemoveKeepsOthers(s: State, j: nat, i: nat)
    requires WorkerAt(s, j, Live) && Closing(s, i)
    ensures Closing(AfterRemove(s, j), i)
  {
    hide FindName;
  }

  lemma {:induction false} CallbackIsDue(states: seq<State>, events: seq<Event>, k: nat)
    requires Run(states, events) && k <= |events|
    ensures CallbackDue(states[k])
    decreases k
  {
    hide CallbackDue, After, Enabled, Inv;
    if k == 0 {
      NothingDueYet();
    } else {
      CallbackIsDue(states, events, k - 1);
      EveryStateHasInv(states, events, k - 1);
      InvHasCalledOnce(states[k - 1]);
      assert states[k - 1 + 1] == After(states[k - 1], events[k - 1]);
      StepKeepsCallbackDue(states[k - 1], events[k - 1]);
    }
  }

  lemma NothingDueYet()
    ensures CallbackDue(INITIAL)
  {}

  lemma InvHasCalledOnce(s: State)
    requires Inv(s)
    ensures CalledOnce(s)
  {}

  /** And it does run: once all workers are gone, the callback and every listener have run exactly once. */
  lemma CallbackHasRunInTheEnd(states: seq<State>, events: seq<Event>, k: nat)
    requires Run(states, events) && k <= |events| && |states[k].workers| > 0 && AllGone(states[k])
    ensures states[k].calls == 1 && states[k].count == 0
    ensures |states[k].ran| == |states[k].workers| && forall i :: 0 <= i < |states[k].ran| ==> states[k].ran[i] == 1
  {
    hide Inv;
    EveryStateHasInv(states, events, k);
    CallbackIsDue(states, events, k);
    CountedOut(states[k]);
    CallbackRunsOnceAfterAllListeners(states, events, k);
  }

  lemma CountedOut(s: State)
    requires Inv(s) && |s.workers| > 0 && AllGone(s)
    ensures s.count == 0 && s.zeroed
  {
    assert Counted(s) == {};
  }

  /**
   * If no listener comes in after the count was brought to zero - in particular if the stop
   * comes first - then once all workers are gone, nobody who waits is stuck, and whoever looks
   * again returns.
   */
  lemma NobodyStaysParked(states: seq<State>, events: seq<Event>, k: nat, w: nat)
    requires Run(states, events) && k <= |events| && |states[k].workers| > 0 && AllGone(states[k])
    requires !states[k].late || exists j :: 0 <= j <= k && states[j].stopped && !states[j].zeroed
    ensures !Stuck(states[k], w)
    ensures WaiterPc(states[k], w).Looking? ==> WaiterPc(After(states[k], Look(w)), w).Away?
  {
    hide Inv;
    EveryStateHasInv(states, events, k);
    if states[k].late {
      var j :| 0 <= j <= k && states[j].stopped && !states[j].zeroed;
      StopFirstMeansNoneLate(states, events, j, k);
    }
    GoneMeansNobodyStuck(states[k], w);
  }

  lemma StepOn(s: State, e: Event, u: State, events: seq<Event>, t: State)
    requires Enabled(s, e) && After(s, e) == u && Leads(Next, u, events, t)
    ensures Leads(Next, s, [e] + events, t)
  {
    hide Enabled, After;
    LeadsOn(Next, s, e, u, events, t);
  }

  lemma StatesAreRun(states: seq<State>, events: seq<Event>)
    requires |states| == |events| + 1 && states[0] == INITIAL
    requires forall k :: 0 <= k < |events| ==> Next(states[k], events[k]) == Some(states[k + 1])
    ensures Run(states, events)
  {
    hide Enabled, After;
    forall k | 0 <= k < |events| ensures Enabled(states[k], events[k]) && states[k + 1] == After(states[k], events[k]) {
      assert Next(states[k], events[k]) == Some(states[k + 1]);
    }
  }
}
