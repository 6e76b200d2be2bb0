/**
 * The timer thread: a bounded channel of tasks, a heap ordered by deadline, a shutdown flag.
 * Tasks may schedule tasks, other threads may schedule or shut down at any moment.
 */
module Scheduler {
  import opened Bytes
  import opened Runs

  const CHANNEL_BOUND := 32

  datatype Task = Task(id: nat, deadline: nat)

  datatype Op = Do(task: Task) | Stop

  /** A task that was started, when, and what else was in the heap at that moment. */
  datatype Start = Start(task: Task, at: nat, others: multiset<Task>)

  /**
   * Where `run` stands: at the top of its inner loop, past the look at the shutdown flag with
   * the least task in hand, in the timed wait, in a task, emptying the channel, in the
   * untimed wait, or returned.
   */
  datatype Pc = Top | Passed(t: Task) | Waiting(until: nat) | Running | Emptying | Blocked | Returned

  datatype State = State(
    clock: nat,
    channel: seq<Op>,
    heap: multiset<Task>,
    shutdown: bool,
    pc: Pc,
    // tasks of callers of `timeout` that have seen the scheduler running and not yet sent
    offered: multiset<Task>,
    // history
    accepted: multiset<Task>,
    started: seq<Start>,
    observed: bool)

  function Initial(clock: nat): State {
    State(clock, [], multiset{}, false, Top, multiset{}, multiset{}, [], false)
  }

  datatype Event =
    | Tick(d: nat)
    | Offer(id: nat, delay: nat)
    | TrySend(t: Task)
    | ShutdownFlag
    | SendStop
    | Peek(t: Task)
    | ReadClock
    | Finish
    | Receive
    | TimedOut

  /** A task that no task of the heap comes before. */
  predicate Least(heap: multiset<Task>, t: Task) {
    t in heap && forall u :: u in heap ==> t.deadline <= u.deadline
  }

  predicate Enabled(s: State, e: Event) {
    match e
    case Tick(_) => true
    case Offer(_, _) => true
    case TrySend(t) => t in s.offered
    case ShutdownFlag => true
    case SendStop => |s.channel| < CHANNEL_BOUND
    case Peek(t) => s.pc.Top? && (s.heap != multiset{} ==> Least(s.heap, t))
    case ReadClock => s.pc.Passed?
    case Finish => s.pc.Running?
    case Receive => ((s.pc.Waiting? || s.pc.Blocked?) && |s.channel| > 0) || s.pc.Emptying?
    case TimedOut => s.pc.Waiting? && s.clock >= s.pc.until
  }

  /** `timeout` in its first half: the flag is read, then the clock. */
  function AfterOffer(s: State, id: nat, delay: nat): State {
    if s.shutdown then s else s.(offered := s.offered + multiset{Task(id, s.clock + delay)})
  }

  function AfterSend(s: State, t: Task): State
    requires t in s.offered
  {
    var u := s.(offered := s.offered - multiset{t});
    if s.pc.Returned? || |s.channel| >= CHANNEL_BOUND then u
    else u.(channel := s.channel + [Do(t)], accepted := s.accepted + multiset{t})
  }

  /** `add_task`, and where the loop goes on from. */
  function AfterReceive(s: State): State
    requires |s.channel| > 0
  {
    match s.channel[0]
    case Do(t) =>
      s.(channel := s.channel[1..], heap := s.heap + multiset{t}, pc := if s.pc.Emptying? then Emptying else Top)
    case Stop => s.(channel := s.channel[1..], pc := Returned)
  }

  /** Wait for the deadline, or pop and start. */
  function AfterReadClock(s: State): State
    requires s.pc.Passed?
  {
    if s.clock < s.pc.t.deadline then s.(pc := Waiting(s.pc.t.deadline))
    else
      var rest := s.heap - multiset{s.pc.t};
      s.(heap := rest, pc := Running, started := s.started + [Start(s.pc.t, s.clock, rest)])
  }

  function After(s: State, e: Event): State
    requires Enabled(s, e)
  {
    match e
    case Tick(d) => s.(clock := s.clock + d)
    case Offer(id, delay) => AfterOffer(s, id, delay)
    case TrySend(t) => AfterSend(s, t)
    case ShutdownFlag => s.(shutdown := true)
    case SendStop => if s.pc.Returned? then s else s.(channel := s.channel + [Stop])
    case Peek(t) =>
      if s.heap == multiset{} then s.(pc := Emptying)
      else if s.shutdown then s.(pc := Returned, observed := true)
      else s.(pc := Passed(t))
    case ReadClock => AfterReadClock(s)
    case Finish => s.(pc := Top)
    case Receive =>
      if |s.channel| > 0 then AfterReceive(s)
      else s.(pc := if s.heap == multiset{} then Blocked else Top)
    case TimedOut => s.(pc := Top)
  }

  function Next(s: State, e: Event): Option<State> {
    if Enabled(s, e) then Some(After(s, e)) else None
  }

  ghost predicate Run(states: seq<State>, events: seq<Event>, clock: nat) {
    && |states| == |events| + 1
    && states[0] == Initial(clock)
    && forall k :: 0 <= k < |events| ==> Enabled(states[k], events[k]) && states[k + 1] == After(states[k], events[k])
  }

  // ----- what every run keeps -----

  function TasksOf(channel: seq<Op>): multiset<Task> {
    if |channel| == 0 then multiset{}
    else TasksOf(channel[..|channel| - 1])
         + (if channel[|channel| - 1].Do? then multiset{channel[|channel| - 1].task} else multiset{})
  }

  function StartedTasks(started: seq<Start>): multiset<Task> {
    if |started| == 0 then multiset{}
    else StartedTasks(started[..|started| - 1]) + multiset{started[|started| - 1].task}
  }

  lemma TasksOfOneMore(channel: seq<Op>, op: Op)
    ensures TasksOf(channel + [op]) == TasksOf(channel) + if op.Do? then multiset{op.task} else multiset{}
  {}

  lemma {:induction false} TasksOfTail(channel: seq<Op>)
    requires |channel| > 0
    ensures TasksOf(channel) == TasksOf(channel[1..]) + if channel[0].Do? then multiset{channel[0].task} else multiset{}
  {
    if |channel| > 1 {
      var n := |channel| - 1;
      TasksOfTail(channel[..n]);
      assert channel[..n][1..] == channel[1..][..n - 1];
    }
  }

  lemma StartedOneMore(started: seq<Start>, x: Start)
    ensures StartedTasks(started + [x]) == StartedTasks(started) + multiset{x.task}
  {}

  /** Every accepted task is started, in the heap or in the channel, and in exactly one of them. */
  ghost predicate Conserved(s: State) {
    s.accepted == StartedTasks(s.started) + s.heap + TasksOf(s.channel)
  }

  ghost predicate StartedRight(x: Start) {
    x.at >= x.task.deadline && forall u :: u in x.others ==> x.task.deadline <= u.deadline
  }

  ghost predicate InOrder(s: State) {
    && (forall i :: 0 <= i < |s.started| ==> StartedRight(s.started[i]))
    && (s.pc.Passed? ==> Least(s.heap, s.pc.t))
    && (s.observed ==> s.shutdown && s.pc.Returned?)
    && (s.pc.Blocked? ==> s.heap == multiset{})
    && |s.channel| <= CHANNEL_BOUND
  }

  lemma StepKeepsConserved(s: State, e: Event)
    requires Conserved(s) && InOrder(s) && Enabled(s, e)
    ensures Conserved(After(s, e))
  {
    hide TasksOf, StartedTasks, Least, StartedRight, AfterSend, AfterReadClock, AfterReceive;
    match e
    case TrySend(t) => SendConserves(s, t);
    case SendStop => TasksOfOneMore(s.channel, Stop);
    case ReadClock => StartConserves(s);
    case Receive => if |s.channel| > 0 { ReceiveConserves(s); }
    case _ =>
  }

  lemma SendConserves(s: State, t: Task)
    requires Conserved(s) && t in s.offered
    ensures Conserved(AfterSend(s, t))
  {}

  lemma StartConserves(s: State)
    requires Conserved(s) && s.pc.Passed? && Least(s.heap, s.pc.t)
    ensures Conserved(AfterReadClock(s))
  {
    hide TasksOf, StartedTasks;
    if s.clock >= s.pc.t.deadline {
      var t, rest := s.pc.t, s.heap - multiset{s.pc.t};
      StartedOneMore(s.started, Start(t, s.clock, rest));
      assert s.heap == multiset{t} + rest;
      assert StartedTasks(s.started) + (multiset{t} + rest) == (StartedTasks(s.started) + multiset{t}) + rest;
    }
  }

  lemma ReceiveConserves(s: State)
    requires Conserved(s) && |s.channel| > 0
    ensures Conserved(AfterReceive(s))
  {
    hide TasksOf, StartedTasks;
    TasksOfTail(s.channel);
  }

  lemma LeastIsThere(heap: multiset<Task>, t: Task)
    requires Least(heap, t)
    ensures heap == heap - multiset{t} + multiset{t}
    ensures forall u :: u in heap - multiset{t} ==> t.deadline <= u.deadline
  {}

  lemma StepKeepsInOrder(s: State, e: Event)
    requires InOrder(s) && Enabled(s, e)
    ensures InOrder(After(s, e))
  {
    hide AfterReadClock, AfterReceive, AfterSend, StartedRight, Least;
    match e
    case TrySend(t) => SendKeepsInOrder(s, t);
    case ReadClock => StartIsRight(s);
    case Receive => if |s.channel| > 0 { ReceiveKeepsInOrder(s); }
    case _ =>
  }

  lemma SendKeepsInOrder(s: State, t: Task)
    requires InOrder(s) && t in s.offered
    ensures InOrder(AfterSend(s, t))
  {
    hide StartedRight, Least;
  }

  lemma ReceiveKeepsInOrder(s: State)
    requires InOrder(s) && |s.channel| > 0 && !s.pc.Passed? && !s.observed
    ensures InOrder(AfterReceive(s))
  {
    hide StartedRight, Least;
  }

  lemma StartIsRight(s: State)
    requires InOrder(s) && s.pc.Passed?
    ensures InOrder(AfterReadClock(s))
  {}

  lemma {:induction false} EveryStateIsRight(states: seq<State>, events: seq<Event>, clock: nat, k: nat)
    requires Run(states, events, clock) && k <= |events|
    ensures Conserved(states[k]) && InOrder(states[k])
    decreases k
  {
    hide Conserved, InOrder, After, Enabled;
    if k == 0 {
      InitialIsRight(clock);
    } else {
      EveryStateIsRight(states, events, clock, k - 1);
      assert states[k - 1 + 1] == After(states[k - 1], events[k - 1]);
      StepKeepsConserved(states[k - 1], events[k - 1]);
      StepKeepsInOrder(states[k - 1], events[k - 1]);
    }
  }

  lemma InitialIsRight(clock: nat)
    ensures Conserved(Initial(clock)) && InOrder(Initial(clock))
  {}

  /** No task starts before its deadline, and none while one with an earlier deadline is in the heap. */
  lemma StartsAreDueAndLeast(states: seq<State>, events: seq<Event>, clock: nat, k: nat, i: nat)
    requires Run(states, events, clock) && k <= |events| && i < |states[k].started|
    ensures var x := states[k].started[i];
            x.at >= x.task.deadline && forall u :: u in x.others ==> x.task.deadline <= u.deadline
  {
    EveryStateIsRight(states, events, clock, k);
    assert StartedRight(states[k].started[i]);
  }

  /** A task is accepted as often as it is started, waiting in the heap, or waiting in the channel. */
  lemma NothingIsLostOrDoubled(states: seq<State>, events: seq<Event>, clock: nat, k: nat, t: Task)
    requires Run(states, events, clock) && k <= |events|
    ensures var s := states[k];
            s.accepted[t] == StartedTasks(s.started)[t] + s.heap[t] + TasksOf(s.channel)[t]
  {
    EveryStateIsRight(states, events, clock, k);
  }

  /** What one step can do to the starts and the flag. */
  lemma StepStarts(s: State, e: Event)
    requires Enabled(s, e)
    ensures var t := After(s, e);
            && (s.shutdown ==> t.shutdown)
            && (s.pc.Returned? ==> t.pc.Returned? && t.started == s.started && t.heap == s.heap)
            && (s.started == t.started || (s.pc.Passed? && !t.pc.Passed? && |t.started| == |s.started| + 1))
            && (s.shutdown && !s.pc.Passed? ==> !t.pc.Passed?)
  {
    hide Least;
    match e
    case ReadClock =>
    case Receive =>
    case _ =>
  }

  /** Once the loop has observed the shutdown, or has returned for a stop message, nothing starts. */
  lemma {:induction false} NothingStartsAfterReturn(
    states: seq<State>, events: seq<Event>, clock: nat, j: nat, k: nat)
    requires Run(states, events, clock) && j <= k <= |events|
    requires states[j].pc.Returned? || states[j].observed
    ensures states[k].started == states[j].started && states[k].heap == states[j].heap && states[k].pc.Returned?
    decreases k
  {
    hide After, Enabled;
    EveryStateIsRight(states, events, clock, j);
    if j < k {
      NothingStartsAfterReturn(states, events, clock, j, k - 1);
      assert states[k - 1 + 1] == After(states[k - 1], events[k - 1]);
      StepStarts(states[k - 1], events[k - 1]);
    }
  }

  function InHand(s: State): nat {
    if s.pc.Passed? then 1 else 0
  }

  /** Already from the moment the flag is set at most one more task starts: one the loop had in hand. */
  lemma {:induction false} AtMostOneStartAfterShutdown(
    states: seq<State>, events: seq<Event>, clock: nat, j: nat, k: nat)
    requires Run(states, events, clock) && j <= k <= |events| && states[j].shutdown
    ensures states[k].shutdown
    ensures |states[k].started| + InHand(states[k]) <= |states[j].started| + InHand(states[j])
    ensures |states[k].started| <= |states[j].started| + 1
    decreases k
  {
    hide After, Enabled;
    if j < k {
      AtMostOneStartAfterShutdown(states, events, clock, j, k - 1);
      assert states[k - 1 + 1] == After(states[k - 1], events[k - 1]);
      StepStarts(states[k - 1], events[k - 1]);
    }
  }

  // ----- and that tasks do start -----

  /** With a least task in hand and the clock at its deadline, the next look at the clock starts that task; before, the loop waits. */
  lemma DueTaskStarts(s: State, t: Task)
    requires s.pc == Passed(t) && Least(s.heap, t)
    ensures var u := After(s, ReadClock);
            if s.clock >= t.deadline
            then u.started == s.started + [Start(t, s.clock, s.heap - multiset{t})] && u.heap == s.heap - multiset{t} && u.pc == Running
            else u == s.(pc := Waiting(t.deadline))
  {}

  /** Until the shutdown flag is set, whoever asks has a task with the deadline he wants to send; it is accepted unless the channel is full. */
  lemma OffersAreAccepted(s: State, id: nat, delay: nat, t: Task)
    requires t in s.offered && !s.pc.Returned?
    ensures !s.shutdown ==> Task(id, s.clock + delay) in After(s, Offer(id, delay)).offered
    ensures s.shutdown ==> After(s, Offer(id, delay)) == s
    ensures |s.channel| < 32 ==> After(s, SendStop).channel == s.channel + [Stop] && After(s, ShutdownFlag).shutdown
    ensures var u := After(s, TrySend(t));
            if |s.channel| < 32 then u.channel == s.channel + [Do(t)] && u.accepted == s.accepted + multiset{t}
            else u.channel == s.channel && u.accepted == s.accepted
  {}

  /** A stop message ends the loop, whatever is left; a task that is received goes into the heap. */
  lemma ReceivedIsObeyed(s: State)
    requires Enabled(s, Receive) && |s.channel| > 0
    ensures s.channel[0].Stop? ==> After(s, Receive).pc.Returned?
    ensures s.channel[0].Do? ==> !After(s, Receive).pc.Returned? && After(s, Receive).heap == s.heap + multiset{s.channel[0].task}
  {}

  /** The flag is not set, no stop message is under way, and the loop has not returned. */
  ghost predicate Healthy(s: State) {
    && Conserved(s) && InOrder(s)
    && !s.shutdown && !s.pc.Returned? && forall op :: op in s.channel ==> op.Do?
  }

  /** The thread and its clock can go on from `s` to `t` with nobody else acting. */
  ghost predicate GoesOn(s: State, t: State) {
    && (exists events :: Leads(Next, s, events, t))
    && Healthy(t) && t.accepted == s.accepted && s.started <= t.started
    && TasksOf(t.channel) <= TasksOf(s.channel)
  }

  lemma GoesNowhere(s: State)
    requires Healthy(s)
    ensures GoesOn(s, s)
  {
    LeadsNowhere(Next, s);
  }

  lemma GoesThrough(s: State, t: State, u: State)
    requires GoesOn(s, t) && GoesOn(t, u)
    ensures GoesOn(s, u)
  {
    hide Healthy, TasksOf;
    var first :| Leads(Next, s, first, t);
    var second :| Leads(Next, t, second, u);
    LeadsThrough(Next, s, first, t, second, u);
  }

  predicate OfTheThread(e: Event) {
    e.Tick? || e.Peek? || e.ReadClock? || e.Finish? || e.Receive? || e.TimedOut?
  }

  lemma GoesByStep(s: State, e: Event)
    requires Healthy(s) && Enabled(s, e) && OfTheThread(e)
    ensures GoesOn(s, After(s, e)) && Healthy(After(s, e))
  {
    hide Conserved, InOrder, Leads, After, Enabled, TasksOf;
    var t := After(s, e);
    StepKeepsConserved(s, e);
    StepKeepsInOrder(s, e);
    StepOfTheThread(s, e);
    LeadsNowhere(Next, t);
    assert Next(s, e) == Some(t);
    LeadsOn(Next, s, e, t, [], t);
  }

  lemma StepOfTheThread(s: State, e: Event)
    requires Healthy(s) && Enabled(s, e) && OfTheThread(e)
    ensures var t := After(s, e);
            && !t.shutdown && !t.pc.Returned? && (forall op :: op in t.channel ==> op.Do?)
            && t.accepted == s.accepted && s.started <= t.started && TasksOf(t.channel) <= TasksOf(s.channel)
  {
    hide Conserved, InOrder, TasksOf, Least;
    if e.Receive? && |s.channel| > 0 {
      TasksOfTail(s.channel);
      assert s.channel[0] in s.channel;
    }
  }

  /** From wherever it stands, the loop can get to its top, or has nothing in the heap. */
  lemma ReachesTop(s: State) returns (t: State)
    requires Healthy(s)
    ensures GoesOn(s, t) && Healthy(t) && (t.pc.Top? || t.heap == multiset{})
    decreases |s.channel|, if s.pc.Passed? then 1 else 0
  {
    hide GoesOn, Conserved, TasksOf;
    match s.pc
    case Top => GoesNowhere(s); t := s;
    case Blocked => GoesNowhere(s); t := s;
    case Passed(_) => t := ThenReachesTop(s, ReadClock);
    case Waiting(until) =>
      GoesByStep(s, Tick(until));
      var u := After(s, Tick(until));
      GoesByStep(u, TimedOut);
      t := After(u, TimedOut);
      GoesThrough(s, u, t);
    case Running =>
      GoesByStep(s, Finish);
      t := After(s, Finish);
    case Emptying =>
      if |s.channel| > 0 {
        assert s.channel[0] in s.channel;
        t := ThenReachesTop(s, Receive);
      } else {
        GoesByStep(s, Receive);
        t := After(s, Receive);
      }
    case Returned =>
  }

  lemma ThenReachesTop(s: State, e: Event) returns (t: State)
    requires Healthy(s) && Enabled(s, e) && OfTheThread(e)
    requires |After(s, e).channel| < |s.channel| || (|After(s, e).channel| == |s.channel| && s.pc.Passed? && !After(s, e).pc.Passed?)
    ensures GoesOn(s, t) && Healthy(t) && (t.pc.Top? || t.heap == multiset{})
    decreases |s.channel|, if s.pc.Passed? then 1 else 0, 0
  {
    hide Conserved, InOrder, TasksOf, After, Enabled;
    GoesByStep(s, e);
    t := ReachesTop(After(s, e));
    GoesThrough(s, After(s, e), t);
  }

  lemma {:induction false} EmptiesHeap(s: State) returns (t: State)
    requires Healthy(s) && s.pc.Top?
    ensures GoesOn(s, t) && Healthy(t) && t.heap == multiset{}
    decreases |s.heap|
  {
    if s.heap == multiset{} {
      GoesNowhere(s);
      t := s;
    } else {
      var least := LeastOf(s.heap);
      var u := StartsOne(s, least);
      t := EmptiesHeap(u);
      GoesThrough(s, u, t);
    }
  }

  /** One turn of the inner loop, once the deadline has come. */
  lemma StartsOne(s: State, t: Task) returns (u: State)
    requires Healthy(s) && s.pc.Top? && Least(s.heap, t)
    ensures GoesOn(s, u) && Healthy(u) && u.pc.Top? && u.heap == s.heap - multiset{t} && |u.heap| < |s.heap|
  {
    hide GoesOn, Healthy, TasksOf, After, Enabled, Least;
    TurnOf(s, t);
    var s1 := After(s, Peek(t));
    GoesByStep(s, Peek(t));
    var s2 := After(s1, Tick(t.deadline));
    GoesByStep(s1, Tick(t.deadline));
    var s3 := After(s2, ReadClock);
    GoesByStep(s2, ReadClock);
    u := After(s3, Finish);
    GoesByStep(s3, Finish);
    GoesThrough(s, s1, s2);
    GoesThrough(s, s2, s3);
    GoesThrough(s, s3, u);
    LeastIsThere(s.heap, t);
  }

  lemma TurnOf(s: State, t: Task)
    requires Healthy(s) && s.pc.Top? && Least(s.heap, t)
    ensures Enabled(s, Peek(t))
    ensures var s1 := After(s, Peek(t));
            Enabled(s1, Tick(t.deadline))
            && var s2 := After(s1, Tick(t.deadline));
               Enabled(s2, ReadClock)
               && var s3 := After(s2, ReadClock);
                  Enabled(s3, Finish) && After(s3, Finish).pc.Top? && After(s3, Finish).heap == s.heap - multiset{t}
  {
    hide Conserved, InOrder;
  }

  lemma {:induction false} LeastOf(heap: multiset<Task>) returns (t: Task)
    requires heap != multiset{}
    ensures Least(heap, t)
    decreases |heap|
  {
    var u :| u in heap;
    var rest := heap - multiset{u};
    if rest == multiset{} {
      t := u;
    } else {
      var v := LeastOf(rest);
      t := if u.deadline <= v.deadline then u else v;
    }
    assert forall x :: x in heap ==> x == u || x in rest;
  }

  /**
   * From every state reached in which nobody has shut down, and no stop message is under way, the
   * thread can go on, with no help from others, until every task of the heap has been started.
   */
  lemma EveryTaskCanStart(states: seq<State>, events: seq<Event>, clock: nat, k: nat)
    requires Run(states, events, clock) && k <= |events|
    requires var s := states[k]; !s.shutdown && !s.pc.Returned? && forall op :: op in s.channel ==> op.Do?
    ensures var s := states[k];
            exists more, t ::
              && Leads(Next, s, more, t) && t.heap == multiset{} && s.started <= t.started
              && StartedTasks(s.started) + s.heap <= StartedTasks(t.started)
  {
    hide StartedTasks, TasksOf, Leads;
    EveryStateIsRight(states, events, clock, k);
    var s := states[k];
    var u := ReachesTop(s);
    var t := u;
    if u.heap != multiset{} {
      t := EmptiesHeap(u);
      GoesThrough(s, u, t);
    }
    var more :| Leads(Next, s, more, t);
    assert StartedTasks(t.started) + TasksOf(t.channel) == StartedTasks(s.started) + s.heap + TasksOf(s.channel);
    SmallerRest(StartedTasks(t.started), TasksOf(t.channel), StartedTasks(s.started) + s.heap, TasksOf(s.channel));
  }

  lemma SmallerRest(a: multiset<Task>, b: multiset<Task>, c: multiset<Task>, d: multiset<Task>)
    requires a + b == c + d && b <= d
    ensures c <= a
  {
    forall x | x in c ensures c[x] <= a[x] {
      assert (a + b)[x] == (c + d)[x];
    }
  }
}
