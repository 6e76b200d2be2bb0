/**
 * Shutdown. Parts of the client register a listener and hold a worker; stopping runs the
 * listeners, dropping the last worker wakes everybody who waits and runs one callback.
 * Every critical section and every atomic access is one step; any interleaving is a run.
 * Here are the steps, and what each of them keeps of listeners, callback and count.
 */
module StopSteps {
  import opened Bytes

  /** Where a worker stands: in use, or how far its `release0` has got. */
  datatype Pc = Live | Removed | Draining | Stopping | Calling | Gone

  datatype Worker = Worker(name: string, pc: Pc)

  /** Where a thread stands that calls `wait` or `wait_timeout`. */
  datatype WaitPc = Away | Looking | Parked

  datatype State = State(
    stopped: bool,
    listeners: seq<(string, nat)>,
    count: nat,
    parkThreads: seq<nat>,
    callback: bool,
    workers: seq<Worker>,
    waiters: map<nat, WaitPc>,
    tokens: set<nat>,
    // history: how often each listener and the callback have run, whether the count has been
    // brought to zero, whether the waiters were woken for it, whether a listener came after it
    ran: seq<nat>,
    calls: nat,
    zeroed: bool,
    drained: bool,
    late: bool)

  const INITIAL := State(false, [], 0, [], true, [], map[], {}, [], 0, false, false, false)

  datatype Event =
    | Register(name: string)
    | Stop
    | RemoveListener(i: nat)
    | Subtract(i: nat)
    | UnparkAll(i: nat)
    | StopOf(i: nat)
    | CallOf(i: nat)
    | Arrive(w: nat)
    | Look(w: nat)
    | Wake(w: nat, spurious: bool)
    | TimeOut(w: nat)

  function FindName(listeners: seq<(string, nat)>, name: string, from: nat): (r: Option<nat>)
    requires from <= |listeners|
    ensures r.Some? ==> from <= r.value < |listeners| && listeners[r.value].0 == name
    ensures r.None? ==> forall k :: from <= k < |listeners| ==> listeners[k].0 != name
    decreases |listeners| - from
  {
    if from == |listeners| then None
    else if listeners[from].0 == name then Some(from)
    else FindName(listeners, name, from + 1)
  }

  function WaiterPc(s: State, w: nat): WaitPc {
    if w in s.waiters then s.waiters[w] else Away
  }

  predicate WorkerAt(s: State, i: nat, pc: Pc) {
    i < |s.workers| && s.workers[i].pc == pc
  }

  /** `add_listener` succeeds exactly for a new name before the stop. */
  predicate Accepts(s: State, name: string) {
    name != "" && !s.stopped && FindName(s.listeners, name, 0).None?
  }

  predicate Enabled(s: State, e: Event) {
    match e
    case Register(_) => true
    case Stop => true
    case RemoveListener(i) => WorkerAt(s, i, Live)
    case Subtract(i) => WorkerAt(s, i, Removed)
    case UnparkAll(i) => WorkerAt(s, i, Draining)
    case StopOf(i) => WorkerAt(s, i, Stopping)
    case CallOf(i) => WorkerAt(s, i, Calling)
    case Arrive(w) => WaiterPc(s, w).Away?
    case Look(w) => WaiterPc(s, w).Looking?
    case Wake(w, spurious) => WaiterPc(s, w).Parked? && (spurious || w in s.tokens)
    case TimeOut(w) => WaiterPc(s, w).Parked?
  }

  function MovedTo(s: State, i: nat, pc: Pc): State
    requires i < |s.workers|
  {
    s.(workers := s.workers[i := s.workers[i].(pc := pc)])
  }

  /** How often `i` stands in a list of listeners: what running the list adds to its count. */
  function Times(listeners: seq<(string, nat)>, i: nat): nat {
    if |listeners| == 0 then 0
    else Times(listeners[..|listeners| - 1], i) + if listeners[|listeners| - 1].1 == i then 1 else 0
  }

  function RanAll(ran: seq<nat>, listeners: seq<(string, nat)>): (r: seq<nat>)
    ensures |r| == |ran|
  {
    seq(|ran|, i requires 0 <= i < |ran| => ran[i] + Times(listeners, i))
  }

  function AfterStop(s: State): State {
    s.(stopped := true, listeners := [], ran := RanAll(s.ran, s.listeners))
  }

  function AfterRemove(s: State, i: nat): State
    requires i < |s.workers|
  {
    var pos := FindName(s.listeners, s.workers[i].name, 0);
    if pos.None? then MovedTo(s, i, Removed)
    else
      var id := s.listeners[pos.value].1;
      MovedTo(s, i, Removed).(
        listeners := s.listeners[..pos.value] + s.listeners[pos.value + 1..],
        ran := if id < |s.ran| then s.ran[id := s.ran[id] + 1] else s.ran)
  }

  function AfterRegister(s: State, name: string): State {
    if !Accepts(s, name) then s
    else s.(listeners := s.listeners + [(name, |s.workers|)],
            workers := s.workers + [Worker(name, Live)],
            ran := s.ran + [0],
            count := s.count + 1,
            late := s.late || s.zeroed)
  }

  function AfterSubtract(s: State, i: nat): State
    requires i < |s.workers|
  {
    if s.count == 1 then MovedTo(s, i, Draining).(count := 0, zeroed := true)
    else MovedTo(s, i, Gone).(count := if s.count == 0 then 0 else s.count - 1)
  }

  function AfterUnpark(s: State, i: nat): State
    requires i < |s.workers|
  {
    MovedTo(s, i, Stopping).(parkThreads := [], tokens := s.tokens + (set w | w in s.parkThreads), drained := true)
  }

  function AfterCall(s: State, i: nat): State
    requires i < |s.workers|
  {
    MovedTo(s, i, Gone).(callback := false, calls := if s.callback then s.calls + 1 else s.calls)
  }

  function AfterStopOf(s: State, i: nat): State
    requires i < |s.workers|
  {
    MovedTo(AfterStop(s), i, Calling)
  }

  /** The steps of those who wait. */
  function AfterWaiter(s: State, e: Event): State {
    match e
    case Arrive(w) => s.(parkThreads := s.parkThreads + [w], waiters := s.waiters[w := Looking])
    case Look(w) => s.(waiters := s.waiters[w := if s.count == 0 then Away else Parked])
    case Wake(w, spurious) =>
      s.(waiters := s.waiters[w := Looking], tokens := if spurious then s.tokens else s.tokens - {w})
    case TimeOut(w) => s.(waiters := s.waiters[w := Away])
    case _ => s
  }

  function After(s: State, e: Event): State
    requires Enabled(s, e)
  {
    match e
    case Register(name) => AfterRegister(s, name)
    case Stop => AfterStop(s)
    case RemoveListener(i) => AfterRemove(s, i)
    case Subtract(i) => AfterSubtract(s, i)
    case UnparkAll(i) => AfterUnpark(s, i)
    case StopOf(i) => AfterStopOf(s, i)
    case CallOf(i) => AfterCall(s, i)
    case _ => AfterWaiter(s, e)
  }

  function Next(s: State, e: Event): Option<State> {
    if Enabled(s, e) then Some(After(s, e)) else None
  }

  ghost predicate Run(states: seq<State>, events: seq<Event>) {
    && |states| == |events| + 1
    && states[0] == INITIAL
    && forall k :: 0 <= k < |events| ==> Enabled(states[k], events[k]) && states[k + 1] == After(states[k], events[k])
  }

  // ----- listeners -----

  predicate Pending(s: State, i: nat) {
    i < |s.workers| && (s.workers[i].name, i) in s.listeners
  }

  ghost predicate UniqueNames(listeners: seq<(string, nat)>) {
    forall k, l :: 0 <= k < l < |listeners| ==> listeners[k].0 != listeners[l].0
  }

  /**
   * Every registered listener belongs to the live worker of that number and name, names are
   * unique, every live worker has its listener until the stop, and after it there is none.
   */
  ghost predicate Registered(s: State) {
    && (forall x :: x in s.listeners ==> x.1 < |s.workers| && s.workers[x.1] == Worker(x.0, Live))
    && UniqueNames(s.listeners)
    && (!s.stopped ==> forall i :: 0 <= i < |s.workers| && s.workers[i].pc == Live ==> Pending(s, i))
    && (s.stopped ==> s.listeners == [])
  }

  /** A listener has run once if it is no longer registered, and not at all while it is. */
  ghost predicate RanOnce(s: State) {
    && |s.ran| == |s.workers|
    && forall i :: 0 <= i < |s.workers| ==> s.ran[i] == if Pending(s, i) then 0 else 1
  }

  /** The callback is there until it has run, and it runs only after a stop. */
  ghost predicate CalledOnce(s: State) {
    && s.calls == (if s.callback then 0 else 1)
    && (s.calls == 1 ==> s.stopped)
    && (forall i :: 0 <= i < |s.workers| && s.workers[i].pc == Calling ==> s.stopped)
  }

  /** The workers that still count. */
  ghost function Counted(s: State): set<nat> {
    set i | 0 <= i < |s.workers| && (s.workers[i].pc == Live || s.workers[i].pc == Removed)
  }

  ghost predicate Counts(s: State) {
    && s.count == |Counted(s)|
    && (|s.workers| > 0 && s.count == 0 ==> s.zeroed)
  }

  lemma {:induction false} TimesOfDistinct(listeners: seq<(string, nat)>, i: nat)
    requires forall k, l :: 0 <= k < l < |listeners| ==> listeners[k].1 != listeners[l].1
    ensures Times(listeners, i) == if exists k :: 0 <= k < |listeners| && listeners[k].1 == i then 1 else 0
  {
    if |listeners| > 0 {
      var rest := listeners[..|listeners| - 1];
      TimesOfDistinct(rest, i);
      if k :| 0 <= k < |listeners| && listeners[k].1 == i {
        assert k < |rest| ==> rest[k].1 == i;
      }
      assert forall k :: 0 <= k < |rest| ==> rest[k] == listeners[k];
    }
  }

  /** Running all that is registered brings every count to one. */
  lemma StopRunsTheRest(s: State)
    requires Registered(s) && RanOnce(s)
    ensures Registered(AfterStop(s)) && RanOnce(AfterStop(s))
  {
    forall k, l | 0 <= k < l < |s.listeners| ensures s.listeners[k].1 != s.listeners[l].1 {
      assert s.listeners[k] in s.listeners && s.listeners[l] in s.listeners;
    }
    forall i | 0 <= i < |s.workers| ensures AfterStop(s).ran[i] == 1 {
      TimesOfDistinct(s.listeners, i);
      if Pending(s, i) {
        var k :| 0 <= k < |s.listeners| && s.listeners[k] == (s.workers[i].name, i);
      } else {
        forall k | 0 <= k < |s.listeners| ensures s.listeners[k].1 != i {
          assert s.listeners[k] in s.listeners;
        }
      }
    }
  }

  /** A release finds the listener of its own worker, unless the stop ran it. */
  lemma ReleaseFindsItsOwn(s: State, i: nat)
    requires Registered(s) && WorkerAt(s, i, Live)
    ensures var pos := FindName(s.listeners, s.workers[i].name, 0);
            && (pos.Some? <==> Pending(s, i))
            && (pos.Some? ==> s.listeners[pos.value] == (s.workers[i].name, i))
            && (pos.None? ==> s.stopped)
  {}

  lemma ReleaseRunsItsOwn(s: State, i: nat)
    requires Registered(s) && RanOnce(s) && WorkerAt(s, i, Live)
    ensures Registered(AfterRemove(s, i)) && RanOnce(AfterRemove(s, i))
  {
    hide FindName, Registered, UniqueNames;
    ReleaseFindsItsOwn(s, i);
    var pos := FindName(s.listeners, s.workers[i].name, 0);
    if pos.Some? {
      RemovedIsRegistered(s, i, pos.value);
    } else {
      MoveStoppedKeeps(s, i);
    }
  }

  lemma RemovedIsRegistered(s: State, i: nat, k: nat)
    requires Registered(s) && RanOnce(s) && WorkerAt(s, i, Live)
    requires k < |s.listeners| && s.listeners[k] == (s.workers[i].name, i)
    ensures var t := MovedTo(s, i, Removed).(
                       listeners := s.listeners[..k] + s.listeners[k + 1..], ran := s.ran[i := s.ran[i] + 1]);
            Registered(t) && RanOnce(t)
  {
    hide UniqueNames;
    var l := s.listeners[..k] + s.listeners[k + 1..];
    var t := MovedTo(s, i, Removed).(listeners := l, ran := s.ran[i := s.ran[i] + 1]);
    OthersStay(s.listeners, k);
    forall x | x in l ensures x.1 < |t.workers| && t.workers[x.1] == Worker(x.0, Live) {
      assert x in s.listeners;
    }
    forall j | 0 <= j < |s.workers| ensures Pending(t, j) <==> Pending(s, j) && j != i {
      assert t.workers[j].name == s.workers[j].name;
    }
  }

  lemma MoveStoppedKeeps(s: State, i: nat)
    requires Registered(s) && RanOnce(s) && i < |s.workers| && s.stopped
    ensures Registered(MovedTo(s, i, Removed)) && RanOnce(MovedTo(s, i, Removed))
  {}

  lemma OthersStay(listeners: seq<(string, nat)>, k: nat)
    requires k < |listeners| && UniqueNames(listeners)
    ensures UniqueNames(listeners[..k] + listeners[k + 1..])
    ensures forall x :: x in listeners[..k] + listeners[k + 1..] <==> x in listeners && x != listeners[k]
  {}

  lemma RegisterKeeps(s: State, name: string)
    requires Registered(s) && RanOnce(s)
    ensures Registered(AfterRegister(s, name)) && RanOnce(AfterRegister(s, name))
  {
    if Accepts(s, name) {
      var t := AfterRegister(s, name);
      var n := |s.workers|;
      assert t.listeners[|s.listeners|] == (name, n);
      forall i | 0 <= i < n ensures Pending(t, i) <==> Pending(s, i) {
        assert t.workers[i] == s.workers[i];
      }
      assert Pending(t, n);
    }
  }

  lemma StepKeepsListeners(s: State, e: Event)
    requires Registered(s) && RanOnce(s) && Enabled(s, e)
    ensures Registered(After(s, e)) && RanOnce(After(s, e))
  {
    hide Registered, RanOnce, AfterStop, AfterStopOf, AfterRegister, AfterRemove, AfterSubtract, AfterUnpark, AfterCall, AfterWaiter;
    match e
    case Register(name) => RegisterKeeps(s, name);
    case Stop => StopRunsTheRest(s);
    case RemoveListener(i) => ReleaseRunsItsOwn(s, i);
    case Subtract(i) => SubtractKeepsListeners(s, i);
    case UnparkAll(i) => UnparkKeepsListeners(s, i);
    case StopOf(i) => StopOfKeepsListeners(s, i);
    case CallOf(i) => CallKeepsListeners(s, i);
    case _ => WaiterKeepsListeners(s, e);
  }

  lemma SubtractKeepsListeners(s: State, i: nat)
    requires Registered(s) && RanOnce(s) && WorkerAt(s, i, Removed)
    ensures Registered(AfterSubtract(s, i)) && RanOnce(AfterSubtract(s, i))
  {
    hide Registered, RanOnce;
    PastRemovalKeeps(s, AfterSubtract(s, i), i, if s.count == 1 then Draining else Gone);
  }

  lemma UnparkKeepsListeners(s: State, i: nat)
    requires Registered(s) && RanOnce(s) && WorkerAt(s, i, Draining)
    ensures Registered(AfterUnpark(s, i)) && RanOnce(AfterUnpark(s, i))
  {
    hide Registered, RanOnce;
    PastRemovalKeeps(s, AfterUnpark(s, i), i, Stopping);
  }

  lemma StopOfKeepsListeners(s: State, i: nat)
    requires Registered(s) && RanOnce(s) && WorkerAt(s, i, Stopping)
    ensures Registered(AfterStopOf(s, i)) && RanOnce(AfterStopOf(s, i))
  {
    hide Registered, RanOnce, RanAll;
    StopRunsTheRest(s);
    PastRemovalKeeps(AfterStop(s), AfterStopOf(s, i), i, Calling);
  }

  lemma CallKeepsListeners(s: State, i: nat)
    requires Registered(s) && RanOnce(s) && WorkerAt(s, i, Calling)
    ensures Registered(AfterCall(s, i)) && RanOnce(AfterCall(s, i))
  {
    hide Registered, RanOnce;
    PastRemovalKeeps(s, AfterCall(s, i), i, Gone);
  }

  lemma WaiterKeepsListeners(s: State, e: Event)
    requires Registered(s) && RanOnce(s)
    ensures Registered(AfterWaiter(s, e)) && RanOnce(AfterWaiter(s, e))
  {
    hide Registered, RanOnce;
    SameListeners(s, AfterWaiter(s, e));
  }

  lemma PastRemovalKeeps(s: State, t: State, i: nat, pc: Pc)
    requires Registered(s) && RanOnce(s) && i < |s.workers| && !s.workers[i].pc.Live? && !pc.Live?
    requires t.workers == MovedTo(s, i, pc).workers
    requires t.listeners == s.listeners && t.ran == s.ran && t.stopped == s.stopped
    ensures Registered(t) && RanOnce(t)
  {}

  lemma SameListeners(s: State, t: State)
    requires Registered(s) && RanOnce(s)
    requires t.listeners == s.listeners && t.workers == s.workers && t.ran == s.ran && t.stopped == s.stopped
    ensures Registered(t) && RanOnce(t)
  {}

  lemma StepKeepsCallback(s: State, e: Event)
    requires CalledOnce(s) && Enabled(s, e)
    ensures CalledOnce(After(s, e))
  {
    hide CalledOnce, AfterStop, AfterStopOf, AfterRegister, AfterRemove, AfterSubtract, AfterUnpark, AfterCall, AfterWaiter;
    match e
    case Register(name) =>
      RegisterFlags(s, name);
      CallbackKept(s, AfterRegister(s, name));
    case RemoveListener(i) =>
      RemoveFlags(s, i);
      CallbackMoved(s, AfterRemove(s, i), i);
    case Stop => StopKeepsCallback(s);
    case Subtract(i) => SubtractKeepsCallback(s, i);
    case UnparkAll(i) => UnparkKeepsCallback(s, i);
    case StopOf(i) => StopOfKeepsCallback(s, i);
    case CallOf(i) => CallKeepsCallback(s, i);
    case _ => WaiterKeepsCallback(s, e);
  }

  lemma CallbackMoved(s: State, t: State, i: nat)
    requires CalledOnce(s) && t.stopped == s.stopped && t.callback == s.callback && t.calls == s.calls
    requires i < |s.workers| == |t.workers| && t.workers == s.workers[i := t.workers[i]] && t.workers[i].pc != Calling
    ensures CalledOnce(t)
  {}

  lemma StopKeepsCallback(s: State)
    requires CalledOnce(s)
    ensures CalledOnce(AfterStop(s))
  {
    hide RanAll;
  }

  lemma SubtractKeepsCallback(s: State, i: nat)
    requires CalledOnce(s) && WorkerAt(s, i, Removed)
    ensures CalledOnce(AfterSubtract(s, i))
  {
    hide CalledOnce;
    CallbackMoved(s, AfterSubtract(s, i), i);
  }

  lemma UnparkKeepsCallback(s: State, i: nat)
    requires CalledOnce(s) && WorkerAt(s, i, Draining)
    ensures CalledOnce(AfterUnpark(s, i))
  {
    hide CalledOnce;
    CallbackMoved(s, AfterUnpark(s, i), i);
  }

  lemma StopOfKeepsCallback(s: State, i: nat)
    requires CalledOnce(s) && WorkerAt(s, i, Stopping)
    ensures CalledOnce(AfterStopOf(s, i))
  {
    hide RanAll;
  }

  lemma CallKeepsCallback(s: State, i: nat)
    requires CalledOnce(s) && WorkerAt(s, i, Calling)
    ensures CalledOnce(AfterCall(s, i))
  {}

  lemma WaiterKeepsCallback(s: State, e: Event)
    requires CalledOnce(s)
    ensures CalledOnce(AfterWaiter(s, e))
  {}

  lemma CallbackKept(s: State, t: State)
    requires CalledOnce(s)
    requires t.stopped == s.stopped && t.callback == s.callback && t.calls == s.calls
    requires |s.workers| <= |t.workers| <= |s.workers| + 1 && t.workers[..|s.workers|] == s.workers
    requires |t.workers| > |s.workers| ==> t.workers[|s.workers|].pc == Live
    ensures CalledOnce(t)
  {}

  /** What registering leaves as it is. */
  lemma RegisterFlags(s: State, name: string)
    ensures var t := AfterRegister(s, name);
            && t.stopped == s.stopped && t.callback == s.callback && t.calls == s.calls
            && t.zeroed == s.zeroed && t.drained == s.drained && (t.late ==> s.late || (s.zeroed && !s.stopped))
            && t.waiters == s.waiters && t.tokens == s.tokens && t.parkThreads == s.parkThreads
            && |s.workers| <= |t.workers| <= |s.workers| + 1
            && t.workers[..|s.workers|] == s.workers
            && (|t.workers| > |s.workers| ==> t.workers[|s.workers|].pc == Live && t.count == s.count + 1 && !s.stopped
                                              && (s.zeroed ==> t.late))
            && (|t.workers| == |s.workers| ==> t == s)
            && (s.late ==> t.late)
  {}

  lemma RemoveFlags(s: State, i: nat)
    requires i < |s.workers|
    ensures var t := AfterRemove(s, i);
            && t.workers == MovedTo(s, i, Removed).workers && t.stopped == s.stopped && t.count == s.count
            && t.callback == s.callback && t.calls == s.calls
            && t.zeroed == s.zeroed && t.drained == s.drained && t.late == s.late
            && t.waiters == s.waiters && t.tokens == s.tokens && t.parkThreads == s.parkThreads
            && (s.listeners == [] ==> t.listeners == [])
  {}

  lemma StepKeepsCount(s: State, e: Event)
    requires Counts(s) && Enabled(s, e)
    ensures Counts(After(s, e))
    ensures e.Subtract? ==> s.count > 0
  {
    hide Counts, AfterStop, AfterStopOf, AfterRegister, AfterRemove, AfterSubtract, AfterUnpark, AfterCall, AfterWaiter;
    match e
    case Register(name) =>
      RegisterFlags(s, name);
      RegisterKeepsCount(s, AfterRegister(s, name));
    case RemoveListener(i) =>
      RemoveFlags(s, i);
      CountSame(s, AfterRemove(s, i), i);
    case Stop => StopKeepsCount(s);
    case Subtract(i) => SubtractKeepsCount(s, i);
    case UnparkAll(i) => UnparkKeepsCount(s, i);
    case StopOf(i) => StopOfKeepsCount(s, i);
    case CallOf(i) => CallKeepsCount(s, i);
    case _ => WaiterKeepsCount(s, e);
  }

  lemma StopKeepsCount(s: State)
    requires Counts(s)
    ensures Counts(AfterStop(s))
  {
    hide Counts, RanAll;
    CountDepends(s, AfterStop(s));
  }

  lemma UnparkKeepsCount(s: State, i: nat)
    requires Counts(s) && WorkerAt(s, i, Draining)
    ensures Counts(AfterUnpark(s, i))
  {
    hide Counts;
    CountSame(s, AfterUnpark(s, i), i);
  }

  lemma StopOfKeepsCount(s: State, i: nat)
    requires Counts(s) && WorkerAt(s, i, Stopping)
    ensures Counts(AfterStopOf(s, i))
  {
    hide Counts, RanAll;
    CountSame(s, AfterStopOf(s, i), i);
  }

  lemma CallKeepsCount(s: State, i: nat)
    requires Counts(s) && WorkerAt(s, i, Calling)
    ensures Counts(AfterCall(s, i))
  {
    hide Counts;
    CountSame(s, AfterCall(s, i), i);
  }

  lemma WaiterKeepsCount(s: State, e: Event)
    requires Counts(s)
    ensures Counts(AfterWaiter(s, e))
  {
    hide Counts;
    CountDepends(s, AfterWaiter(s, e));
  }

  lemma CountDepends(s: State, t: State)
    requires Counts(s) && t.workers == s.workers && t.count == s.count && t.zeroed == s.zeroed
    ensures Counts(t)
  {}

  lemma CountSame(s: State, t: State, i: nat)
    requires Counts(s) && t.count == s.count && (s.zeroed ==> t.zeroed)
    requires i < |s.workers| && |t.workers| == |s.workers| && t.workers == s.workers[i := t.workers[i]]
    requires (s.workers[i].pc in {Live, Removed}) == (t.workers[i].pc in {Live, Removed})
    ensures Counts(t)
  {
    assert Counted(t) == Counted(s);
  }

  lemma RegisterKeepsCount(s: State, t: State)
    requires Counts(s) && |s.workers| <= |t.workers| <= |s.workers| + 1 && t.workers[..|s.workers|] == s.workers
    requires |t.workers| > |s.workers| ==> t.workers[|s.workers|].pc == Live && t.count == s.count + 1
    requires |t.workers| == |s.workers| ==> t == s
    ensures Counts(t)
  {
    if |t.workers| > |s.workers| {
      CountedOneMore(s, t);
    }
  }

  lemma SubtractKeepsCount(s: State, i: nat)
    requires Counts(s) && WorkerAt(s, i, Removed)
    ensures s.count > 0 && Counts(AfterSubtract(s, i))
  {
    CountedOneLess(s, AfterSubtract(s, i), i);
  }

  lemma CountedOneMore(s: State, t: State)
    requires |t.workers| == |s.workers| + 1 && t.workers[..|s.workers|] == s.workers && t.workers[|s.workers|].pc == Live
    ensures |Counted(t)| == |Counted(s)| + 1
  {
    var n := |s.workers|;
    forall i | 0 <= i < n ensures t.workers[i] == s.workers[i] {
      assert t.workers[..n][i] == t.workers[i];
    }
    assert Counted(t) == Counted(s) + {n};
  }

  lemma CountedOneLess(s: State, t: State, i: nat)
    requires i < |s.workers| && s.workers[i].pc == Removed
    requires |t.workers| == |s.workers| && t.workers == s.workers[i := t.workers[i]] && t.workers[i].pc !in {Live, Removed}
    ensures |Counted(t)| == |Counted(s)| - 1
  {
    assert i in Counted(s);
    assert Counted(t) == Counted(s) - {i};
  }
}
