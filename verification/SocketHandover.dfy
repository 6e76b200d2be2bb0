/**
 * The hand-over of UDP sockets from the connection context, which swaps its own list under a
 * write lock, to the listener thread, which is told through a bounded queue, a flag and a waker.
 */
module SocketHandover {
  import opened Bytes
  import opened Runs

  const QUEUE_BOUND := 64

  /** `None` is "back to the cone form", `Some` a list of newly bound sockets. */
  type Message = Option<seq<nat>>

  function SocketsOf(m: Message): seq<nat> {
    if m.None? then [] else m.value
  }

  /** The listener's list once all queued messages are taken in. */
  function Applied(list: seq<nat>, queue: seq<Message>): seq<nat> {
    if |queue| == 0 then list else SocketsOf(queue[|queue| - 1])
  }

  /** Whoever holds the write lock, and how far it is: before the send, after it, after the flag, after the waker. */
  datatype Producer = Free | Holding(m: Message) | Queued(m: Message) | Flagged(m: Message) | Woken(m: Message)

  /** Where the listener thread is: in `poll`, woken, past its look at the stop flag, taking messages, or gone. */
  datatype Listener = Polling | Checking | Passed | Draining | Exited

  /** What is asked of the context. Sockets are numbered in the order they are bound. */
  datatype Request = Symmetric(sockets: seq<nat>) | Cone | Reset(sockets: seq<nat>)

  datatype State = State(
    sub: seq<nat>,
    list: seq<nat>,
    queue: seq<Message>,
    addBit: bool,
    stopBit: bool,
    wakePending: bool,
    producer: Producer,
    listener: Listener,
    bound: nat,
    // history: the last message that was queued came with a failing waker
    dirty: bool)

  const INITIAL := State([], [], [], false, false, false, Free, Polling, 0, false)

  datatype Event =
    | Begin(r: Request)
    | GiveUp
    | TrySend
    | SetAddBit
    | Wake(ok: bool)
    | Assign
    | StopStore
    | Poll(spurious: bool)
    | CheckStop
    | CheckAdd
    | Receive
    | ReceiveNothing
    | Break

  /** The message a request leads to, unless the list already has the form asked for. */
  function MessageFor(sub: seq<nat>, r: Request): Option<Message> {
    match r
    case Symmetric(sockets) => if sub != [] then None else Some(Some(sockets))
    case Cone => if sub == [] then None else Some(None)
    case Reset(sockets) => Some(Some(sockets))
  }

  /** Sockets just bound are at least one, and none of them was there before. */
  predicate FreshSockets(bound: nat, sockets: seq<nat>) {
    |sockets| > 0 && forall x :: x in sockets ==> x >= bound
  }

  function Highest(sockets: seq<nat>, least: nat): (h: nat)
    ensures h >= least && forall x :: x in sockets ==> x < h
  {
    if |sockets| == 0 then least
    else
      var h := Highest(sockets[..|sockets| - 1], least);
      assert sockets == sockets[..|sockets| - 1] + [sockets[|sockets| - 1]];
      if sockets[|sockets| - 1] < h then h else sockets[|sockets| - 1] + 1
  }

  predicate Enabled(s: State, e: Event) {
    match e
    case Begin(r) => s.producer.Free? && (!r.Cone? ==> FreshSockets(s.bound, r.sockets))
    case GiveUp => s.producer.Holding?
    case TrySend => s.producer.Holding?
    case SetAddBit => s.producer.Queued?
    case Wake(_) => s.producer.Flagged?
    case Assign => s.producer.Woken?
    case StopStore => true
    case Poll(spurious) => s.listener.Polling? && (spurious || s.wakePending)
    case CheckStop => s.listener.Checking?
    case CheckAdd => s.listener.Passed?
    case Receive => s.listener.Draining? && |s.queue| > 0
    case ReceiveNothing => s.listener.Draining? && |s.queue| == 0
    case Break => !s.listener.Exited?
  }

  function After(s: State, e: Event): State
    requires Enabled(s, e)
  {
    match e
    case Begin(r) =>
      var m := MessageFor(s.sub, r);
      if m.None? then s
      else s.(producer := Holding(m.value), bound := if r.Cone? then s.bound else Highest(r.sockets, s.bound))
    case GiveUp => s.(producer := Free)
    case TrySend =>
      if s.listener.Exited? || |s.queue| >= QUEUE_BOUND then s.(producer := Free)
      else s.(queue := s.queue + [s.producer.m], producer := Queued(s.producer.m))
    case SetAddBit => s.(addBit := true, producer := Flagged(s.producer.m))
    case Wake(ok) =>
      if ok then s.(wakePending := true, producer := Woken(s.producer.m))
      else s.(producer := Free, dirty := true)
    case Assign => s.(sub := SocketsOf(s.producer.m), producer := Free, dirty := false)
    case StopStore => s.(stopBit := true, addBit := false, wakePending := true)
    case Poll(spurious) => s.(listener := Checking, wakePending := false)
    case CheckStop => s.(listener := if s.stopBit then Exited else Passed)
    case CheckAdd => s.(listener := if s.addBit then Draining else Polling, addBit := false)
    case Receive => s.(list := SocketsOf(s.queue[0]), queue := s.queue[1..])
    case ReceiveNothing => s.(listener := Polling)
    case Break => s.(listener := Exited)
  }

  function Next(s: State, e: Event): Option<State> {
    if Enabled(s, e) then Some(After(s, e)) else None
  }

  ghost predicate Run(states: seq<State>, events: seq<Event>) {
    && |states| == |events| + 1
    && states[0] == INITIAL
    && forall k :: 0 <= k < |events| ==> Enabled(states[k], events[k]) && states[k + 1] == After(states[k], events[k])
  }

  // ----- what every interleaving keeps -----

  /** The message under way, once it is in the queue. */
  predicate MidSend(p: Producer) {
    p.Queued? || p.Flagged? || p.Woken?
  }

  ghost predicate Below(sockets: seq<nat>, bound: nat) {
    forall x :: x in sockets ==> x < bound
  }

  /** Queue and list together say what the context's list says, or what the lock holder will make it say. */
  ghost predicate Agreement(s: State) {
    && (MidSend(s.producer) ==> Applied(s.list, s.queue) == SocketsOf(s.producer.m))
    && (!MidSend(s.producer) ==> (Applied(s.list, s.queue) == s.sub <==> !s.dirty))
  }

  /** The lock holder's message is not what the context's list says, and all sockets were bound before. */
  ghost predicate Novel(s: State) {
    && Below(s.sub, s.bound)
    && (!s.producer.Free? ==> Below(SocketsOf(s.producer.m), s.bound) && SocketsOf(s.producer.m) != s.sub)
  }

  /** A queued message nobody is about to flag, and nobody is taking out, is flagged; a flag nobody is about to wake for has its wake-up. */
  ghost predicate Signalled(s: State) {
    !s.stopBit && !s.listener.Exited? ==>
      && (|s.queue| > 0 && !s.producer.Queued? && !s.listener.Draining? ==> s.addBit)
      && (s.addBit && !s.producer.Flagged? && !s.listener.Checking? && !s.listener.Passed? ==> s.wakePending || (s.dirty && !s.producer.Woken?))
  }

  ghost predicate Inv(s: State) {
    (!s.listener.Exited? ==> Agreement(s)) && Novel(s) && Signalled(s)
  }

  lemma StepKeepsAgreement(s: State, e: Event)
    requires Inv(s) && Enabled(s, e) && !After(s, e).listener.Exited?
    ensures Agreement(After(s, e))
  {
    hide Signalled, Highest, FreshSockets, Applied, SocketsOf, MessageFor;
    match e
    case TrySend => AppliedPushed(s.list, s.queue, s.producer.m);
    case Receive => AppliedPopped(s.list, s.queue);
    case _ =>
  }

  lemma AppliedPushed(list: seq<nat>, queue: seq<Message>, m: Message)
    ensures Applied(list, queue + [m]) == SocketsOf(m)
  {}

  lemma AppliedPopped(list: seq<nat>, queue: seq<Message>)
    requires |queue| > 0
    ensures Applied(SocketsOf(queue[0]), queue[1..]) == Applied(list, queue)
  {}

  lemma StepKeepsNovel(s: State, e: Event)
    requires Novel(s) && Enabled(s, e)
    ensures Novel(After(s, e))
  {
    if e.Begin? && !e.r.Cone? {
      assert e.r.sockets[0] in e.r.sockets;
      assert s.sub != [] ==> s.sub[0] in s.sub;
    }
  }

  lemma StepKeepsSignalled(s: State, e: Event)
    requires Signalled(s) && Enabled(s, e)
    ensures Signalled(After(s, e))
  {}

  lemma StepKeepsInv(s: State, e: Event)
    requires Inv(s) && Enabled(s, e)
    ensures Inv(After(s, e))
  {
    hide Agreement, Novel, Signalled;
    StepKeepsNovel(s, e);
    StepKeepsSignalled(s, e);
    if !After(s, e).listener.Exited? {
      StepKeepsAgreement(s, e);
    }
  }

  lemma {:induction false} EveryStateHasInv(states: seq<State>, events: seq<Event>, k: nat)
    requires Run(states, events) && k <= |events|
    ensures Inv(states[k])
    decreases k
  {
    hide Inv, After, Enabled;
    if k == 0 {
      InitialHasInv();
    } else {
      EveryStateHasInv(states, events, k - 1);
      assert states[k - 1 + 1] == After(states[k - 1], events[k - 1]);
      StepKeepsInv(states[k - 1], events[k - 1]);
    }
  }

  lemma InitialHasInv()
    ensures Inv(INITIAL)
  {}

  /**
   * Outside the lock, the queued messages applied to the listener's list give the context's
   * list, exactly unless the waker failed for the last message that got into the queue.
   */
  lemma ListsAgreeUpToQueue(states: seq<State>, events: seq<Event>, k: nat)
    requires Run(states, events) && k <= |events|
    requires !MidSend(states[k].producer) && !states[k].listener.Exited?
    ensures Applied(states[k].list, states[k].queue) == states[k].sub <==> !states[k].dirty
  {
    EveryStateHasInv(states, events, k);
  }

  /** A message in the queue, with no producer in mid-send and the listener idle, has its flag set. */
  lemma NoMessageIsForgotten(states: seq<State>, events: seq<Event>, k: nat)
    requires Run(states, events) && k <= |events|
    requires var s := states[k]; |s.queue| > 0 && !s.stopBit && s.listener.Polling? && !s.producer.Queued?
    ensures states[k].addBit
    ensures !states[k].producer.Flagged? ==> states[k].wakePending || states[k].dirty
  {
    EveryStateHasInv(states, events, k);
  }

  /** Everybody at rest: no producer, the listener asleep with nothing to wake it. */
  predicate AtRest(s: State) {
    s.producer.Free? && s.listener.Polling? && !s.wakePending && !s.stopBit
  }

  /** Then nothing is left in the queue and both sides hold the same sockets, element for element. */
  lemma AtRestListsAreEqual(states: seq<State>, events: seq<Event>, k: nat)
    requires Run(states, events) && k <= |events| && AtRest(states[k]) && !states[k].dirty
    ensures states[k].queue == [] && states[k].list == states[k].sub
  {
    EveryStateHasInv(states, events, k);
  }

  function AllReceived(s: State): State {
    s.(list := Applied(s.list, s.queue), queue := [])
  }

  /** The listener at its loop: one message a time, until there is none. */
  function Receiving(n: nat): (events: seq<Event>)
    ensures |events| == n + 1
  {
    if n == 0 then [ReceiveNothing] else [Receive] + Receiving(n - 1)
  }

  lemma StepOn(s: State, e: Event, u: State, events: seq<Event>, t: State)
    requires Enabled(s, e) && After(s, e) == u && Leads(Next, u, events, t)
    ensures Leads(Next, s, [e] + events, t)
  {
    hide Enabled, After;
    LeadsOn(Next, s, e, u, events, t);
  }

  lemma {:induction false} ReceivingEmptiesQueue(s: State)
    requires s.listener.Draining?
    ensures Leads(Next, s, Receiving(|s.queue|), AllReceived(s).(listener := Polling))
    decreases |s.queue|
  {
    var t := AllReceived(s).(listener := Polling);
    if |s.queue| > 0 {
      var u := After(s, Receive);
      ReceivingEmptiesQueue(u);
      AppliedPopped(s.list, s.queue);
      assert AllReceived(u).(listener := Polling) == t;
      StepOn(s, Receive, u, Receiving(|u.queue|), t);
    } else {
      LeadsNowhere(Next, t);
      StepOn(s, ReceiveNothing, t, [], t);
      assert [ReceiveNothing] + [] == Receiving(0);
    }
  }

  /** One undisturbed turn of the listener brings both lists together. */
  lemma OneTurnSettles(s: State)
    requires Inv(s) && s.producer.Free? && s.listener.Checking? && !s.stopBit && !s.dirty && s.addBit
    ensures exists t :: Leads(Next, s, [CheckStop] + ([CheckAdd] + Receiving(|s.queue|)), t)
                        && t.listener.Polling? && t.queue == [] && t.list == t.sub == s.sub
  {
    var u := After(s, CheckStop);
    var d := After(u, CheckAdd);
    var t := AllReceived(d).(listener := Polling);
    ReceivingEmptiesQueue(d);
    StepOn(u, CheckAdd, d, Receiving(|d.queue|), t);
    StepOn(s, CheckStop, u, [CheckAdd] + Receiving(|d.queue|), t);
  }

  /**
   * What a request does when nothing fails: nothing if the list has the form asked for, else the list is
   * replaced, and the listener is told, flagged and woken.
   */
  lemma RequestSettles(s: State, r: Request)
    requires s.producer.Free? && Enabled(s, Begin(r)) && !s.listener.Exited? && |s.queue| < 64
    ensures (r.Symmetric? && s.sub != []) || (r.Cone? && s.sub == []) ==> After(s, Begin(r)) == s
    ensures !(r.Symmetric? && s.sub != []) && !(r.Cone? && s.sub == []) ==>
              exists t :: Leads(Next, s, [Begin(r), TrySend, SetAddBit, Wake(true), Assign], t)
                          && t.sub == (if r.Cone? then [] else r.sockets)
                          && t.queue == s.queue + [if r.Cone? then None else Some(r.sockets)]
                          && t.list == s.list && t.addBit && t.wakePending && t.producer.Free? && !t.dirty
  {
    if !(r.Symmetric? && s.sub != []) && !(r.Cone? && s.sub == []) {
      hide Highest, Leads;
      var s1 := After(s, Begin(r));
      var t := MessageSettles(s1);
      StepOn(s, Begin(r), s1, [TrySend, SetAddBit, Wake(true), Assign], t);
      assert [Begin(r)] + [TrySend, SetAddBit, Wake(true), Assign] == [Begin(r), TrySend, SetAddBit, Wake(true), Assign];
    }
  }

  lemma MessageSettles(s: State) returns (t: State)
    requires s.producer.Holding? && !s.listener.Exited? && |s.queue| < 64
    ensures Leads(Next, s, [TrySend, SetAddBit, Wake(true), Assign], t)
    ensures t.sub == SocketsOf(s.producer.m) && t.queue == s.queue + [s.producer.m] && t.list == s.list
    ensures t.addBit && t.wakePending && t.producer.Free? && !t.dirty
  {
    hide Highest, Leads, MessageFor, FreshSockets;
    var s2 := After(s, TrySend);
    var s3 := After(s2, SetAddBit);
    var s4 := After(s3, Wake(true));
    t := After(s4, Assign);
    LeadsNowhere(Next, t);
    StepOn(s4, Assign, t, [], t);
    assert [Assign] + [] == [Assign];
    StepOn(s3, Wake(true), s4, [Assign], t);
    assert [Wake(true)] + [Assign] == [Wake(true), Assign];
    StepOn(s2, SetAddBit, s3, [Wake(true), Assign], t);
    assert [SetAddBit] + [Wake(true), Assign] == [SetAddBit, Wake(true), Assign];
    StepOn(s, TrySend, s2, [SetAddBit, Wake(true), Assign], t);
    assert [TrySend] + [SetAddBit, Wake(true), Assign] == [TrySend, SetAddBit, Wake(true), Assign];
  }

  /** A full queue, or a listener that is gone, refuses a message, and the list stays. */
  lemma RefusedMessageChangesNothing(s: State)
    requires s.producer.Holding?
    ensures s.listener.Exited? || |s.queue| >= 64 ==> After(s, TrySend) == s.(producer := Free)
  {}

  /** So the queue never holds more than it has room for. */
  lemma {:induction false} QueueIsBounded(states: seq<State>, events: seq<Event>, k: nat)
    requires Run(states, events) && k <= |events|
    ensures |states[k].queue| <= 64
    decreases k
  {
    hide After, Enabled;
    if k > 0 {
      QueueIsBounded(states, events, k - 1);
      assert states[k - 1 + 1] == After(states[k - 1], events[k - 1]);
      StepKeepsBound(states[k - 1], events[k - 1]);
    }
  }

  lemma StepKeepsBound(s: State, e: Event)
    requires Enabled(s, e) && |s.queue| <= 64
    ensures |After(s, e).queue| <= 64
  {
    hide Highest, MessageFor;
  }

  /** The stop flag wakes the listener, which leaves at its next look and takes nothing in any more. */
  lemma StopEndsListener(s: State)
    requires s.listener.Polling?
    ensures var t := After(s, StopStore);
            t.stopBit && Enabled(t, Poll(false)) && After(After(t, Poll(false)), CheckStop).listener.Exited?
    ensures s.stopBit ==> After(s.(listener := Checking), CheckStop).listener.Exited?
  {}

  /** Where agreement is lost: the waker fails behind a message that is already in the queue. */
  lemma FailingWakerSplitsLists() returns (states: seq<State>, events: seq<Event>)
    ensures Run(states, events) && !MidSend(states[|events|].producer)
    ensures Applied(states[|events|].list, states[|events|].queue) == [0] && states[|events|].sub == []
  {
    events := [Begin(Reset([0])), TrySend, SetAddBit, Wake(false)];
    var s1 := After(INITIAL, events[0]);
    var s2 := After(s1, TrySend);
    var s3 := After(s2, SetAddBit);
    states := [INITIAL, s1, s2, s3, After(s3, Wake(false))];
  }
}
