/** `run` as it is written: two nested loops over a heap, a channel and a flag. */
module SchedulerClass {
  import opened Bytes
  import opened Scheduler

  /** What others do before the loop looks next, and what its clock shows then. */
  datatype Meanwhile = Meanwhile(now: nat, sends: seq<Op>, shutdown: bool)

  /** How many of `m` messages fit behind `n` in the channel. */
  function Fit(n: nat, m: nat): (k: nat)
    ensures k <= m
  {
    if n >= CHANNEL_BOUND then 0 else if n + m <= CHANNEL_BOUND then m else CHANNEL_BOUND - n
  }

  /** From look `from` on nobody else acts, and the clock has passed `due`. */
  ghost predicate Quiet(script: seq<Meanwhile>, from: nat, due: nat) {
    forall k :: from <= k < |script| ==> script[k].sends == [] && !script[k].shutdown && script[k].now >= due
  }

  /** All tasks of the heap and the channel have their deadline by then, and no stop message is under way. */
  ghost predicate DueBy(heap: multiset<Task>, channel: seq<Op>, due: nat) {
    && (forall t :: t in heap ==> t.deadline <= due)
    && forall op :: op in channel ==> op.Do? && op.task.deadline <= due
  }

  ghost predicate HasDue(heap: multiset<Task>, now: nat) {
    exists t :: t in heap && t.deadline <= now
  }

  /** The channel when others have sent. */
  function Sent(channel: seq<Op>, m: Meanwhile): seq<Op> {
    channel + m.sends[..Fit(|channel|, |m.sends|)]
  }

  /** One task of the heap is started at `now`, one with the least deadline. */
  ghost predicate StartsDue(heap: multiset<Task>, rest: multiset<Task>, before: seq<Start>, after: seq<Start>, now: nat) {
    && |after| == |before| + 1 && before <= after
    && var x := after[|before|];
       Least(heap, x.task) && x.at == now && rest == heap - multiset{x.task}
  }

  /** Nothing is started; the first message is taken, if there is one, and its task goes into the heap. */
  ghost predicate Waits(before: seq<Op>, after: seq<Op>, heap: multiset<Task>, more: multiset<Task>, go: bool) {
    && (go <==> before == [] || before[0].Do?)
    && after == (if before == [] then [] else before[1..])
    && more == if before != [] && go then heap + multiset{before[0].task} else heap
  }

  /** The first start beyond `before` is of a least task of `heap`, at `now`. */
  ghost predicate StartsWith(heap: multiset<Task>, before: seq<Start>, after: seq<Start>, now: nat) {
    |after| > |before| && Least(heap, after[|before|].task) && after[|before|].at == now
  }

  /** Each of `looks` looks has started one task of the heap. */
  ghost predicate StartsEach(heap: multiset<Task>, rest: multiset<Task>, before: seq<Start>, after: seq<Start>, looks: nat) {
    rest <= heap && |rest| + looks == |heap| && |after| == |before| + looks
  }

  lemma StartsNone(heap: multiset<Task>, started: seq<Start>)
    ensures StartsEach(heap, heap, started, started, 0)
  {}

  lemma StartsOneMore(
    heap: multiset<Task>, h: multiset<Task>, rest: multiset<Task>, s0: seq<Start>, s1: seq<Start>, s2: seq<Start>, now: nat,
    looks: nat)
    ensures StartsDue(h, rest, s1, s2, now) && StartsEach(heap, h, s0, s1, looks) ==> StartsEach(heap, rest, s0, s2, looks + 1)
  {
    if StartsDue(h, rest, s1, s2, now) {
      LeastIsThere(h, s2[|s1|].task);
    }
  }

  lemma StartsOnward(
    heap: multiset<Task>, s0: seq<Start>, h: multiset<Task>, s1: seq<Start>, rest: multiset<Task>, s2: seq<Start>,
    now: nat, first: nat)
    ensures (s1 == s2 || StartsDue(h, rest, s1, s2, now)) && StartsWith(heap, s0, s1, first) ==> StartsWith(heap, s0, s2, first)
    ensures StartsDue(h, rest, s1, s2, now) ==> s1 <= s2
    ensures StartsDue(h, rest, s1, s2, now) && h == heap && s1 == s0 && now == first ==> StartsWith(heap, s0, s2, first)
  {}

  lemma QuietSends(channel: seq<Op>, script: seq<Meanwhile>, from: nat, due: nat)
    ensures Quiet(script, from, due) ==> forall k :: from <= k < |script| ==> Sent(channel, script[k]) == channel
  {}

  lemma QuietLook(
    script: seq<Meanwhile>, from: nat, k: nat, due: nat, heap: multiset<Task>, channel: seq<Op>, h: multiset<Task>,
    s0: seq<Start>, s1: seq<Start>)
    requires from <= k < |script| && h != multiset{}
    ensures Quiet(script, from, due) ==> script[k].sends == [] && !script[k].shutdown
    ensures Quiet(script, from, due) && DueBy(heap, channel, due) && StartsEach(heap, h, s0, s1, k - from) ==>
              HasDue(h, script[k].now)
  {
    var t :| t in h;
  }

  /** Nobody shuts down or sends any more, every task is due, and there are as many looks left as tasks. */
  ghost predicate Unhindered(
    shutdown: bool, script: seq<Meanwhile>, from: nat, due: nat, heap: multiset<Task>, channel: seq<Op>)
  {
    !shutdown && Quiet(script, from, due) && DueBy(heap, channel, due) && |heap| + |channel| + from <= |script|
  }

  class TimerThread {
    var heap: multiset<Task>
    var channel: seq<Op>
    var shutdown: bool
    var started: seq<Start>
    ghost var accepted: multiset<Task>

    ghost predicate Valid()
      reads this
    {
      && accepted == StartedTasks(started) + heap + TasksOf(channel)
      && |channel| <= CHANNEL_BOUND
      && forall i :: 0 <= i < |started| ==> StartedRight(started[i])
    }

    constructor ()
      ensures Valid() && started == [] && heap == multiset{} && channel == [] && !shutdown
    {
      heap, channel, shutdown, started := multiset{}, [], false, [];
      accepted := multiset{};
    }

    /** `try_send`, which fails on a full channel. */
    method TrySend(op: Op) returns (ok: bool)
      requires Valid()
      modifies this`channel, this`accepted
      ensures Valid() && (ok <==> |old(channel)| < CHANNEL_BOUND)
      ensures channel == if ok then old(channel) + [op] else old(channel)
      ensures accepted == if ok && op.Do? then old(accepted) + multiset{op.task} else old(accepted)
    {
      hide TasksOf, StartedTasks, StartedRight;
      ok := |channel| < CHANNEL_BOUND;
      if ok {
        TasksOfOneMore(channel, op);
        channel := channel + [op];
        if op.Do? {
          accepted := accepted + multiset{op.task};
        }
      }
    }

    /** Everything that others, or the task just run, do before the loop looks again. */
    method Others(m: Meanwhile)
      requires Valid()
      modifies this`channel, this`shutdown, this`accepted
      ensures Valid() && shutdown == (old(shutdown) || m.shutdown)
      ensures channel == Sent(old(channel), m)
      ensures m.sends == [] ==> accepted == old(accepted)
    {
      SendAll(m.sends);
      SetFlag(shutdown || m.shutdown);
    }

    method SetFlag(on: bool)
      requires Valid()
      modifies this`shutdown
      ensures Valid() && shutdown == on
    {
      hide TasksOf, StartedTasks, StartedRight;
      shutdown := on;
    }

    method SendAll(sends: seq<Op>)
      requires Valid()
      modifies this`channel, this`accepted
      ensures Valid() && channel == old(channel) + sends[..Fit(|old(channel)|, |sends|)]
      ensures sends == [] ==> accepted == old(accepted)
    {
      hide Valid;
      var i := 0;
      BoundOf();
      while i < |sends|
        invariant 0 <= i <= |sends| && Valid() && |old(channel)| <= CHANNEL_BOUND
        invariant channel == old(channel) + sends[..Fit(|old(channel)|, i)]
        invariant sends == [] ==> accepted == old(accepted)
      {
        var ok := TrySend(sends[i]);
        if ok {
          assert sends[..i + 1] == sends[..i] + [sends[i]];
        }
        i := i + 1;
      }
    }

    lemma BoundOf()
      requires Valid()
      ensures |channel| <= CHANNEL_BOUND
    {}

    /** The next message of the channel, given to `add_task`: whether the loop goes on. */
    method TakeOne() returns (go: bool)
      requires Valid() && |channel| > 0
      modifies this`channel, this`heap
      ensures Valid() && channel == old(channel)[1..]
      ensures go <==> old(channel)[0].Do?
      ensures heap == if go then old(heap) + multiset{old(channel)[0].task} else old(heap)
    {
      TasksOfTail(channel);
      var op := channel[0];
      channel := channel[1..];
      go := op.Do?;
      if go {
        heap := heap + multiset{op.task};
      }
    }

    /** `peek` of the heap, whose order is by reversed deadline. */
    method Peek() returns (t: Task)
      requires heap != multiset{}
      ensures Least(heap, t)
    {
      t :| t in heap;
      var rest := heap - multiset{t};
      while rest != multiset{}
        invariant rest <= heap && t in heap
        invariant forall u :: u in heap && u !in rest ==> t.deadline <= u.deadline
        decreases |rest|
      {
        var u :| u in rest;
        if u.deadline < t.deadline {
          t := u;
        }
        rest := rest - multiset{u};
      }
    }

    method PopAndStart(t: Task, now: nat)
      requires Valid() && Least(heap, t) && t.deadline <= now
      modifies this`heap, this`started
      ensures Valid() && heap == old(heap) - multiset{t}
      ensures started == old(started) + [Start(t, now, heap)]
    {
      hide TasksOf, StartedTasks;
      LeastIsThere(heap, t);
      ghost var all := started + [Start(t, now, heap - multiset{t})];
      assert StartedRight(all[|started|]);
      assert forall i :: 0 <= i < |started| ==> all[i] == started[i];
      var rest := heap - multiset{t};
      StartedOneMore(started, Start(t, now, rest));
      heap, started := rest, started + [Start(t, now, rest)];
    }

    /**
     * One look of the inner loop, with the heap not empty: the flag, the clock, and then either the task
     * with the least deadline is started, or the loop waits for one message or the deadline.
     */
    method Look(m: Meanwhile) returns (go: bool)
      requires Valid() && heap != multiset{}
      modifies this
      ensures Valid() && shutdown == (old(shutdown) || m.shutdown)
      ensures m.sends == [] ==> accepted == old(accepted)
      ensures shutdown ==> !go && started == old(started) && heap == old(heap) && channel == Sent(old(channel), m)
      ensures !shutdown && HasDue(old(heap), m.now) ==>
                go && channel == Sent(old(channel), m) && StartsDue(old(heap), heap, old(started), started, m.now)
      ensures !shutdown && !HasDue(old(heap), m.now) ==>
                started == old(started) && Waits(Sent(old(channel), m), channel, old(heap), heap, go)
    {
      hide Valid, HasDue, Least, Sent;
      Others(m);
      if shutdown {
        return false;
      }
      var t := Peek();
      DueIsLeast(heap, t, m.now);
      if m.now < t.deadline {
        go := true;
        if |channel| > 0 {
          go := TakeOne();
        }
      } else {
        PopAndStart(t, m.now);
        go := true;
      }
    }

    /**
     * The first inner loop: waits for and starts tasks until the heap is empty or it must return. `due`
     * is any time; if others are quiet from here on and all tasks are due by then, each look starts one.
     */
    method RunDue(script: seq<Meanwhile>, from: nat, ghost due: nat) returns (r: nat, returned: bool)
      requires Valid() && from <= |script|
      modifies this
      ensures Valid() && from <= r <= |script|
      ensures returned || heap == multiset{} || r == |script|
      ensures old(heap) != multiset{} && from < |script| ==> r > from
      ensures old(started) <= started
      ensures shutdown && heap != multiset{} && r > from ==> returned
      ensures old(shutdown) ==> shutdown && started == old(started)
      ensures old(heap) != multiset{} && from < |script| && (old(shutdown) || script[from].shutdown) ==>
                returned && started == old(started) && heap == old(heap)
      ensures from < |script| && !old(shutdown) && !script[from].shutdown && HasDue(old(heap), script[from].now) ==>
                StartsWith(old(heap), old(started), started, script[from].now)
      ensures !old(shutdown) && Quiet(script, from, due) && DueBy(old(heap), old(channel), due) ==>
                && !returned && !shutdown && channel == old(channel) && accepted == old(accepted)
                && StartsEach(old(heap), heap, old(started), started, r - from)
    {
      hide Valid, Least, StartsWith, StartsDue, StartsEach, Waits, Quiet, DueBy, Sent;
      QuietSends(old(channel), script, from, due);
      StartsNone(heap, started);
      r, returned := from, false;
      while heap != multiset{} && r < |script|
        invariant from <= r <= |script| && Valid() && old(started) <= started
        invariant shutdown ==> r == from
        invariant r == from ==> shutdown == old(shutdown)
        invariant r == from ==> heap == old(heap) && started == old(started) && channel == old(channel) && accepted == old(accepted)
        invariant r > from ==> !old(shutdown) && !script[from].shutdown
        invariant r > from && HasDue(old(heap), script[from].now) ==>
                    StartsWith(old(heap), old(started), started, script[from].now)
        invariant !old(shutdown) && Quiet(script, from, due) && DueBy(old(heap), old(channel), due) ==>
                    && channel == old(channel) && accepted == old(accepted)
                    && StartsEach(old(heap), heap, old(started), started, r - from)
        decreases |script| - r
      {
        ghost var h, began := heap, started;
        var go := Look(script[r]);
        r := r + 1;
        StartsOnward(old(heap), old(started), h, began, heap, started, script[r - 1].now, script[from].now);
        QuietLook(script, from, r - 1, due, old(heap), old(channel), h, old(started), began);
        StartsOneMore(old(heap), h, heap, old(started), began, started, script[r - 1].now, r - 1 - from);
        if !go {
          return r, true;
        }
      }
    }

    /** The second: takes all that is in the channel. */
    method TakeAll() returns (go: bool)
      requires Valid()
      modifies this`channel, this`heap
      ensures Valid()
      ensures go ==> channel == [] && heap == old(heap) + TasksOf(old(channel))
      ensures go <==> forall op :: op in old(channel) ==> op.Do?
    {
      hide TasksOf, StartedTasks, StartedRight;
      ghost var n := 0;
      NoTasks(old(channel)[..0]);
      while |channel| > 0
        invariant Valid() && 0 <= n <= |old(channel)| && channel == old(channel)[n..]
        invariant heap == old(heap) + TasksOf(old(channel)[..n])
        invariant forall op :: op in old(channel)[..n] ==> op.Do?
        decreases |channel|
      {
        assert channel[0] == old(channel)[n];
        TasksOfOneMore(old(channel)[..n], old(channel)[n]);
        assert old(channel)[..n] + [old(channel)[n]] == old(channel)[..n + 1];
        go := TakeOne();
        n := n + 1;
        if !go {
          return false;
        }
      }
      assert old(channel)[..n] == old(channel);
      go := true;
    }

    /** One turn of the outer loop of `run`, from look `from` on. */
    method Turn(script: seq<Meanwhile>, from: nat, ghost due: nat) returns (r: nat, returned: bool)
      requires Valid() && from < |script|
      modifies this
      ensures Valid() && from <= r <= |script| && old(started) <= started
      ensures returned || r > from || (old(heap) == multiset{} && heap != multiset{})
      ensures old(shutdown) ==> shutdown && started == old(started)
      ensures !old(shutdown) && !script[from].shutdown && HasDue(old(heap), script[from].now) ==>
                StartsWith(old(heap), old(started), started, script[from].now)
      ensures Unhindered(old(shutdown), script, from, due, old(heap), old(channel)) ==>
                !returned && accepted == old(accepted) && Unhindered(shutdown, script, r, due, heap, channel)
    {
      hide Valid, TasksOf, StartsWith, StartsEach, Quiet, DueBy, Unhindered, Waits;
      UnhinderedIs(shutdown, script, from, due, heap, channel);
      r, returned := RunDue(script, from, due);
      if returned {
        return;
      }
      var go := TakeAll();
      if !go {
        return r, true;
      }
      StillUnhindered(old(shutdown), script, from, r, due, old(heap), old(channel), old(started), started, shutdown, heap);
      if r < |script| && heap == multiset{} {
        WaitUnhindered(shutdown, script, r, due);
        go := WaitForOne(script[r]);
        r := r + 1;
        returned := !go;
      }
    }

    /** The untimed wait. */
    method WaitForOne(m: Meanwhile) returns (go: bool)
      requires Valid() && heap == multiset{} && channel == []
      modifies this
      ensures Valid() && shutdown == (old(shutdown) || m.shutdown) && started == old(started)
      ensures var sent := Sent([], m);
              && (go <==> sent == [] || sent[0].Do?)
              && channel == (if sent == [] then [] else sent[1..])
              && heap == if sent != [] && go then multiset{sent[0].task} else multiset{}
      ensures m.sends == [] ==> accepted == old(accepted)
    {
      hide Valid;
      Others(m);
      go := true;
      if |channel| > 0 {
        go := TakeOne();
      }
    }

    /**
     * `run`, for as long as the script of what others do goes on. If others are quiet, all tasks are due
     * and there are as many looks as tasks, then at its end everything that was accepted has been started.
     */
    method RunLoop(script: seq<Meanwhile>, ghost due: nat) returns (returned: bool)
      requires Valid()
      modifies this
      ensures Valid() && old(started) <= started
      ensures old(shutdown) ==> started == old(started)
      ensures |script| > 0 && !old(shutdown) && !script[0].shutdown && HasDue(old(heap), script[0].now) ==>
                StartsWith(old(heap), old(started), started, script[0].now)
      ensures Unhindered(old(shutdown), script, 0, due, old(heap), old(channel)) ==>
                !returned && accepted == old(accepted) && StartedTasks(started) == accepted && heap == multiset{} && channel == []
    {
      hide Valid, StartsWith, Unhindered;
      var r := 0;
      ghost var begun := false;
      while r < |script|
        invariant 0 <= r <= |script| && Valid() && old(started) <= started
        invariant old(shutdown) ==> shutdown && started == old(started)
        invariant !begun ==> r == 0 && heap == old(heap) && started == old(started) && shutdown == old(shutdown)
        invariant begun && |script| > 0 && !old(shutdown) && !script[0].shutdown && HasDue(old(heap), script[0].now) ==>
                    StartsWith(old(heap), old(started), started, script[0].now)
        invariant Unhindered(old(shutdown), script, 0, due, old(heap), old(channel)) ==>
                    accepted == old(accepted) && Unhindered(shutdown, script, r, due, heap, channel)
        decreases |script| - r, if heap == multiset{} then 1 else 0
      {
        ghost var before := started;
        r, returned := Turn(script, r, due);
        begun := true;
        StartsOnAndOn(old(heap), old(started), before, started, script[0].now);
        if returned {
          return;
        }
      }
      returned := false;
      AllStarted();
      NothingLeft(shutdown, script, due, heap, channel);
    }

    lemma AllStarted()
      requires Valid()
      ensures heap == multiset{} && channel == [] ==> StartedTasks(started) == accepted
    {}
  }

  lemma DueIsLeast(heap: multiset<Task>, t: Task, now: nat)
    requires Least(heap, t)
    ensures HasDue(heap, now) <==> t.deadline <= now
    ensures t in heap
  {}

  lemma NoTasks(channel: seq<Op>)
    requires |channel| == 0
    ensures TasksOf(channel) == multiset{}
  {}

  lemma QuietFrom(script: seq<Meanwhile>, from: nat, k: nat, due: nat)
    requires from <= k
    ensures Quiet(script, from, due) ==> Quiet(script, k, due)
  {}

  lemma UnhinderedIs(
    shutdown: bool, script: seq<Meanwhile>, from: nat, due: nat, heap: multiset<Task>, channel: seq<Op>)
    ensures Unhindered(shutdown, script, from, due, heap, channel) ==>
              !shutdown && Quiet(script, from, due) && DueBy(heap, channel, due) && forall op :: op in channel ==> op.Do?
  {}

  lemma StillUnhindered(
    shutdown: bool, script: seq<Meanwhile>, from: nat, r: nat, due: nat, heap: multiset<Task>, channel: seq<Op>,
    s0: seq<Start>, s1: seq<Start>, shutdown1: bool, taken: multiset<Task>)
    requires from <= r
    ensures Unhindered(shutdown, script, from, due, heap, channel) && !shutdown1
            && (exists rest :: StartsEach(heap, rest, s0, s1, r - from) && taken == rest + TasksOf(channel)) ==>
              Unhindered(shutdown1, script, r, due, taken, [])
  {
    hide StartsEach, TasksOf;
    if Unhindered(shutdown, script, from, due, heap, channel) {
      forall rest | StartsEach(heap, rest, s0, s1, r - from)
        ensures |rest + TasksOf(channel)| + (r - from) == |heap| + |channel| && DueBy(rest + TasksOf(channel), [], due)
      {
        EachTaken(heap, rest, channel, s0, s1, r - from, due);
      }
    }
  }

  /** A quiet wait brings nothing. */
  lemma WaitUnhindered(shutdown: bool, script: seq<Meanwhile>, r: nat, due: nat)
    requires r < |script|
    ensures Unhindered(shutdown, script, r, due, multiset{}, []) ==>
              script[r].sends == [] && Sent([], script[r]) == [] && !script[r].shutdown
              && Unhindered(shutdown, script, r + 1, due, multiset{}, [])
  {}

  lemma NothingLeft(shutdown: bool, script: seq<Meanwhile>, due: nat, heap: multiset<Task>, channel: seq<Op>)
    ensures Unhindered(shutdown, script, |script|, due, heap, channel) ==> heap == multiset{} && channel == []
  {}

  lemma StartsOnAndOn(heap: multiset<Task>, s0: seq<Start>, s1: seq<Start>, s2: seq<Start>, now: nat)
    ensures s1 <= s2 && StartsWith(heap, s0, s1, now) ==> StartsWith(heap, s0, s2, now)
  {}

  /** What is left of the heap, and all of the channel with it. */
  lemma EachTaken(
    heap: multiset<Task>, rest: multiset<Task>, channel: seq<Op>, s0: seq<Start>, s1: seq<Start>, looks: nat, due: nat)
    ensures DueBy(heap, channel, due) && StartsEach(heap, rest, s0, s1, looks) ==>
              && (forall op :: op in channel ==> op.Do?)
              && |rest + TasksOf(channel)| + looks == |heap| + |channel| && DueBy(rest + TasksOf(channel), [], due)
  {
    if DueBy(heap, channel, due) && StartsEach(heap, rest, s0, s1, looks) {
      AllTaken(rest, channel, due);
    }
  }

  /** What is in the channel is due with the rest when it comes into the heap. */
  lemma {:induction false} AllTaken(heap: multiset<Task>, channel: seq<Op>, due: nat)
    ensures DueBy(heap, channel, due) ==>
              && (forall op :: op in channel ==> op.Do?)
              && |heap + TasksOf(channel)| == |heap| + |channel| && DueBy(heap + TasksOf(channel), [], due)
    decreases |channel|
  {
    if |channel| > 0 && DueBy(heap, channel, due) {
      var rest, last := channel[..|channel| - 1], channel[|channel| - 1];
      assert last in channel;
      AllTaken(heap, rest, due);
      assert heap + TasksOf(channel) == (heap + TasksOf(rest)) + multiset{last.task};
    }
  }
}
