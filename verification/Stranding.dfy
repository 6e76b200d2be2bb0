/** Exactly when somebody who waits for the end can still be left parked for ever. */
module Stranding {
  import opened Bytes
  import opened Runs
  import opened StopSteps
  import opened StopManager

  /** Some continuation takes `s` to `t`. */
  ghost predicate Reach(s: State, t: State) {
    exists events :: Leads(Next, s, events, t)
  }

  lemma ReachByStep(s: State, e: Event, t: State)
    requires Enabled(s, e) && After(s, e) == t && Inv(s)
    ensures Reach(s, t) && Inv(t)
  {
    hide Enabled, After, Inv;
    StepKeepsInv(s, e);
    LeadsNowhere(Next, t);
    StepOn(s, e, t, [], t);
  }

  lemma ReachThrough(s: State, u: State, t: State)
    requires Reach(s, u) && Reach(u, t)
    ensures Reach(s, t)
  {
    var first :| Leads(Next, s, first, u);
    var second :| Leads(Next, u, second, t);
    LeadsThrough(Next, s, first, u, second, t);
  }

  lemma ReachByNothing(s: State)
    ensures Reach(s, s)
  {
    LeadsNowhere(Next, s);
  }

  lemma {:induction false} LeadsKeepsInv(s: State, events: seq<Event>, t: State)
    requires Inv(s) && Leads(Next, s, events, t)
    ensures Inv(t)
    ensures s.stopped ==> t.stopped && |t.workers| == |s.workers| && (t.late ==> s.late)
    decreases |events|
  {
    hide Inv, Enabled, After;
    if |events| > 0 {
      StepKeepsInv(s, events[0]);
      StepFlags(s, events[0]);
      LeadsKeepsInv(After(s, events[0]), events[1..], t);
    }
  }

  /** Nothing has happened to anybody who waits. */
  predicate SameWaiting(s: State, t: State) {
    t.waiters == s.waiters && t.tokens == s.tokens && t.parkThreads == s.parkThreads
  }

  predicate StillCounts(s: State, i: nat) {
    WorkerAt(s, i, Live) || WorkerAt(s, i, Removed)
  }

  /** One worker is dropped up to the decrement. */
  lemma RetireOne(s: State, i: nat) returns (t: State)
    requires Inv(s) && StillCounts(s, i)
    ensures Reach(s, t) && Inv(t) && SameWaiting(s, t) && t.stopped == s.stopped
    ensures s.count > 0 && t.count == s.count - 1 && (t.count == 0 ==> WorkerAt(t, i, Draining))
  {
    hide Inv, FindName, AfterRemove;
    var u := s;
    ReachByNothing(s);
    if WorkerAt(s, i, Live) {
      u := After(s, RemoveListener(i));
      RemoveFlags(s, i);
      ReachByStep(s, RemoveListener(i), u);
    }
    SubtractIsPositive(u, i);
    t := After(u, Subtract(i));
    ReachByStep(u, Subtract(i), t);
    ReachThrough(s, u, t);
  }

  /** All are, and the last one is about to wake those who wait. */
  lemma {:induction false} RetireAll(s: State) returns (t: State, d: nat)
    requires Inv(s) && s.count > 0
    ensures Reach(s, t) && Inv(t) && SameWaiting(s, t) && t.stopped == s.stopped
    ensures t.count == 0 && WorkerAt(t, d, Draining)
    decreases s.count
  {
    hide Inv, Reach;
    var i := SomeCounts(s);
    t := RetireOne(s, i);
    d := i;
    if t.count > 0 {
      var u := t;
      t, d := RetireAll(u);
      ReachThrough(s, u, t);
    }
  }

  lemma SomeCounts(s: State) returns (i: nat)
    requires Inv(s) && s.count > 0
    ensures StillCounts(s, i)
  {
    assert Counted(s) != {};
    i :| i in Counted(s);
  }

  lemma NoneCounts(s: State, i: nat)
    requires Inv(s) && s.count == 0
    ensures !StillCounts(s, i)
  {
    assert i in Counted(s) ==> Counted(s) != {};
  }

  /** The step a worker past its decrement takes next. */
  function NextOf(s: State, i: nat): Event
    requires i < |s.workers|
  {
    match s.workers[i].pc
    case Draining => UnparkAll(i)
    case Stopping => StopOf(i)
    case _ => CallOf(i)
  }

  function StepsLeft(s: State, i: nat): nat
    requires i < |s.workers|
  {
    match s.workers[i].pc
    case Draining => 3
    case Stopping => 2
    case Calling => 1
    case _ => 0
  }

  /** What that step changes. */
  predicate OneStepNearer(s: State, t: State, i: nat)
    requires i < |s.workers|
  {
    && SameWaiting(s, t) && |t.workers| == |s.workers| && t.workers == s.workers[i := t.workers[i]]
    && t.workers[i].name == s.workers[i].name && !StillCounts(t, i) && StepsLeft(t, i) < StepsLeft(s, i)
  }

  lemma OneStepOn(s: State, i: nat)
    requires i < |s.workers| && !StillCounts(s, i) && s.workers[i].pc != Gone && s.parkThreads == []
    ensures Enabled(s, NextOf(s, i)) && OneStepNearer(s, After(s, NextOf(s, i)), i)
  {
    hide AfterUnpark, AfterStopOf, AfterCall, OneStepNearer;
    match s.workers[i].pc
    case Draining => UnparkIsNearer(s, i);
    case Stopping => StopOfIsNearer(s, i);
    case Calling => CallIsNearer(s, i);
  }

  lemma UnparkIsNearer(s: State, i: nat)
    requires WorkerAt(s, i, Draining) && s.parkThreads == []
    ensures OneStepNearer(s, AfterUnpark(s, i), i)
  {}

  lemma StopOfIsNearer(s: State, i: nat)
    requires WorkerAt(s, i, Stopping)
    ensures OneStepNearer(s, AfterStopOf(s, i), i)
  {
    hide RanAll;
  }

  lemma CallIsNearer(s: State, i: nat)
    requires WorkerAt(s, i, Calling)
    ensures OneStepNearer(s, AfterCall(s, i), i)
  {}

  /** It goes all the rest of its way; with nobody on the list it wakes nobody. */
  lemma {:induction false} FinishOne(s: State, i: nat) returns (t: State)
    requires Inv(s) && i < |s.workers| && !StillCounts(s, i) && s.parkThreads == []
    ensures Reach(s, t) && Inv(t) && SameWaiting(s, t)
    ensures t.workers == s.workers[i := Worker(s.workers[i].name, Gone)]
    decreases StepsLeft(s, i)
  {
    hide Inv, Reach, Enabled, After, StillCounts, StepsLeft, NextOf;
    if s.workers[i].pc == Gone {
      ReachByNothing(s);
      t := s;
      assert s.workers[i := s.workers[i]] == s.workers;
    } else {
      OneStepOn(s, i);
      var u := After(s, NextOf(s, i));
      ReachByStep(s, NextOf(s, i), u);
      t := FinishOne(u, i);
      ReachThrough(s, u, t);
    }
  }

  lemma {:induction false} FinishFrom(s: State, j: nat) returns (t: State)
    requires Inv(s) && j <= |s.workers| && s.parkThreads == []
    requires forall i :: 0 <= i < |s.workers| ==> !StillCounts(s, i)
    requires forall i :: 0 <= i < j ==> s.workers[i].pc == Gone
    ensures Reach(s, t) && SameWaiting(s, t) && AllGone(t) && |t.workers| == |s.workers|
    decreases |s.workers| - j
  {
    hide Inv, Reach;
    if j == |s.workers| {
      ReachByNothing(s);
      t := s;
    } else {
      var u := FinishOne(s, j);
      forall i | 0 <= i < |u.workers| ensures !StillCounts(u, i) {
        assert !StillCounts(s, i);
      }
      t := FinishFrom(u, j + 1);
      ReachThrough(s, u, t);
    }
  }

  // ----- fresh names and threads -----

  function LongestName(listeners: seq<(string, nat)>): (n: nat)
    ensures forall x :: x in listeners ==> |x.0| <= n
  {
    if |listeners| == 0 then 0
    else
      var rest, last := listeners[..|listeners| - 1], listeners[|listeners| - 1];
      assert listeners == rest + [last];
      if LongestName(rest) < |last.0| then |last.0| else LongestName(rest)
  }

  /** A name that `add_listener` accepts before the stop. */
  lemma FreshName(s: State) returns (name: string)
    requires !s.stopped
    ensures Accepts(s, name)
  {
    name := seq(LongestName(s.listeners) + 1, _ => 'x');
    assert |name| > 0;
    forall k | 0 <= k < |s.listeners| ensures s.listeners[k].0 != name {
      assert s.listeners[k] in s.listeners;
    }
  }

  lemma {:induction false} FreshThread(used: set<nat>) returns (w: nat)
    ensures forall x :: x in used ==> x < w
    decreases |used|
  {
    if used == {} {
      w := 0;
    } else {
      var x :| x in used;
      var v := FreshThread(used - {x});
      w := if x < v then v else x + 1;
      forall y | y in used ensures y < w {
        assert y == x || y in used - {x};
      }
    }
  }

  // ----- both halves -----

  /** Before the stop a new thread can come, park, and be woken when the last worker goes, the list being empty then. */
  lemma ComesAndIsWoken(s: State) returns (t: State, w: nat)
    requires Inv(s) && !s.stopped
    ensures Reach(s, t) && Inv(t) && !t.stopped
    ensures WaiterPc(t, w).Parked? && w in t.tokens && t.parkThreads == [] && t.count == 0
  {
    hide Inv, Reach, Accepts, AfterRegister;
    w := FreshThread(s.waiters.Keys + s.tokens);
    var name := FreshName(s);
    var s1 := After(s, Register(name));
    RegisterCounts(s, name);
    ReachByStep(s, Register(name), s1);
    var s2 := After(s1, Arrive(w));
    ReachByStep(s1, Arrive(w), s2);
    var s3 := After(s2, Look(w));
    ReachByStep(s2, Look(w), s3);
    var s4, d := RetireAll(s3);
    t := After(s4, UnparkAll(d));
    ReachByStep(s4, UnparkAll(d), t);
    ReachThrough(s, s1, s2);
    ReachThrough(s, s2, s3);
    ReachThrough(s, s3, s4);
    ReachThrough(s, s4, t);
    assert w in s3.parkThreads;
  }

  /** If a listener is added before that thread looks again, it parks for good. */
  lemma LooksTooLate(s: State, w: nat) returns (t: State)
    requires Inv(s) && !s.stopped
    requires WaiterPc(s, w).Parked? && w in s.tokens && s.parkThreads == [] && s.count == 0
    ensures Reach(s, t) && AllGone(t) && Stuck(t, w) && |t.workers| > 0
  {
    hide Inv, Reach, Accepts, AfterRegister;
    var name := FreshName(s);
    var s1 := After(s, Register(name));
    RegisterCounts(s, name);
    ReachByStep(s, Register(name), s1);
    var s2 := After(s1, Wake(w, false));
    ReachByStep(s1, Wake(w, false), s2);
    var s3 := After(s2, Look(w));
    ReachByStep(s2, Look(w), s3);
    var s4, d := RetireAll(s3);
    assert d < |s4.workers|;
    forall i | 0 <= i < |s4.workers| ensures !StillCounts(s4, i) {
      NoneCounts(s4, i);
    }
    t := FinishFrom(s4, 0);
    ReachThrough(s, s1, s2);
    ReachThrough(s, s2, s3);
    ReachThrough(s, s3, s4);
    ReachThrough(s, s4, t);
  }

  lemma RegisterCounts(s: State, name: string)
    requires Accepts(s, name)
    ensures var t := AfterRegister(s, name);
            t.count == s.count + 1 && t.stopped == s.stopped && SameWaiting(s, t) && |t.workers| > 0
  {}

  /**
   * In every reachable state in which no listener has come late: some continuation ends with every
   * worker gone and somebody parked for ever, exactly if the manager is not stopped.
   */
  lemma StrandingIsPossibleExactlyBeforeStop(states: seq<State>, events: seq<Event>, k: nat)
    requires Run(states, events) && k <= |events| && !states[k].late && |states[k].workers| > 0
    ensures (exists t, w :: Reach(states[k], t) && AllGone(t) && Stuck(t, w)) <==> !states[k].stopped
  {
    hide Inv, Stuck, AllGone;
    EveryStateHasInv(states, events, k);
    var s := states[k];
    if s.stopped {
      forall t, w | Reach(s, t) && AllGone(t) ensures !Stuck(t, w) {
        var more :| Leads(Next, s, more, t);
        LeadsKeepsInv(s, more, t);
        GoneMeansNobodyStuck(t, w);
      }
    } else {
      var u, w := ComesAndIsWoken(s);
      var t := LooksTooLate(u, w);
      ReachThrough(s, u, t);
    }
  }

  /**
   * A whole run of that kind: a waiter that was woken for the zero, but looks again only after a
   * new listener has come in, parks without being on the list and stays parked.
   */
  lemma LateListenerStrandsWaiter() returns (states: seq<State>, events: seq<Event>, w: nat)
    ensures Run(states, events)
    ensures var t := states[|events|]; AllGone(t) && Stuck(t, w) && t.late && t.count == 0 && |t.workers| > 0
  {
    hide Inv, Reach, Enabled, After;
    InitialHasInv();
    var s, t;
    s, w := ComesAndIsWoken(INITIAL);
    t := LooksTooLate(s, w);
    ReachThrough(INITIAL, s, t);
    events := EventsOf(INITIAL, t);
    LeadsKeepsInv(INITIAL, events, t);
    CountsNobody(t);
    if !t.late {
      GoneMeansNobodyStuck(t, w);
    }
    states := LeadsIsRun(Next, INITIAL, events, t);
    StatesAreRun(states, events);
  }

  lemma EventsOf(s: State, t: State) returns (events: seq<Event>)
    requires Reach(s, t)
    ensures Leads(Next, s, events, t)
  {
    events :| Leads(Next, s, events, t);
  }

  lemma CountsNobody(s: State)
    requires Inv(s) && AllGone(s)
    ensures s.count == 0
  {
    assert Counted(s) == {};
  }
}
