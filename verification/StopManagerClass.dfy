/** `StopManagerInner` and `Worker` with their fields, each method one or more steps of the model. */
module StopManagerClass {
  import opened Bytes
  import opened StopSteps
  import opened StopManager

  class Manager {
    var stopped: bool
    var listeners: seq<(string, nat)>
    var workerNum: nat
    var parkThreads: seq<nat>
    var stopCall: bool
    /** What the listeners, the callback and `unpark` do outside: counts of calls and wake tokens. */
    var ran: seq<nat>
    var calls: nat
    var tokens: set<nat>
    ghost var model: State

    ghost predicate Valid()
      reads this
    {
      && Inv(model)
      && stopped == model.stopped && listeners == model.listeners && workerNum == model.count
      && parkThreads == model.parkThreads && stopCall == model.callback
      && ran == model.ran && calls == model.calls && tokens == model.tokens
    }

    constructor ()
      ensures Valid() && model == INITIAL
    {
      stopped, listeners, workerNum, parkThreads, stopCall := false, [], 0, [], true;
      ran, calls, tokens := [], 0, {};
      model := INITIAL;
      InitialHasInv();
    }

    method AddListener(name: string) returns (worker: Option<nat>)
      requires Valid()
      modifies this
      ensures Valid() && model == After(old(model), Register(name))
      ensures worker == if Accepts(old(model), name) then Some(|old(ran)|) else None
      ensures worker.Some? <==> name != "" && !old(stopped) && forall x :: x in old(listeners) ==> x.0 != name
      ensures worker.Some? ==> listeners == old(listeners) + [(name, |old(ran)|)] && ran == old(ran) + [0]
                               && workerNum == old(workerNum) + 1
      ensures worker.None? ==> listeners == old(listeners) && ran == old(ran) && workerNum == old(workerNum)
    {
      hide Inv, Pending;
      ghost var s := model;
      StepKeepsInv(s, Register(name));
      InvSizes(s);
      if name == "" || stopped {
        return None;
      }
      var k := 0;
      while k < |listeners|
        invariant 0 <= k <= |listeners| && listeners == s.listeners && model == s && ran == s.ran
        invariant FindName(listeners, name, 0) == FindName(listeners, name, k)
      {
        if listeners[k].0 == name {
          return None;
        }
        k := k + 1;
      }
      worker := Some(|ran|);
      listeners, ran, workerNum := listeners + [(name, |ran|)], ran + [0], workerNum + 1;
      model := After(s, Register(name));
    }

    /** `stop`: every listener that is left runs, and the list ends empty. */
    method StopAll()
      requires Valid()
      modifies this
      ensures Valid() && model == After(old(model), Event.Stop)
      ensures stopped && listeners == [] && |ran| == |old(ran)| && forall i :: 0 <= i < |ran| ==> ran[i] == 1
    {
      hide Inv;
      StepKeepsInv(model, Event.Stop);
      InvSizes(model);
      AllRanAfterStop(model);
      RunListeners();
      model := After(model, Event.Stop);
    }

    method RunListeners()
      requires forall x :: x in listeners ==> x.1 < |ran|
      modifies this`stopped, this`listeners, this`ran
      ensures stopped && listeners == [] && ran == RanAll(old(ran), old(listeners))
    {
      stopped := true;
      var k := 0;
      while k < |listeners|
        invariant 0 <= k <= |listeners| && listeners == old(listeners) && stopped
        invariant ran == RanAll(old(ran), listeners[..k])
      {
        var id := listeners[k].1;
        assert listeners[k] in listeners;
        RanOneMore(old(ran), listeners[..k], listeners[k]);
        assert listeners[..k] + [listeners[k]] == listeners[..k + 1];
        ran := ran[id := ran[id] + 1];
        k := k + 1;
      }
      assert listeners[..k] == listeners;
      listeners := [];
    }

    /** The part of `release0` under the listener lock. */
    method RemoveOwn(ghost i: nat, name: string)
      requires Valid() && WorkerAt(model, i, Live) && name == model.workers[i].name
      modifies this
      ensures Valid() && model == After(old(model), RemoveListener(i))
      ensures |ran| == |old(ran)| && i < |ran| && ran[i] == 1 && WorkerAt(model, i, Removed)
      ensures workerNum == old(workerNum) && stopped == old(stopped) && calls == old(calls)
      ensures tokens == old(tokens) && parkThreads == old(parkThreads)
    {
      hide Inv, FindName, RanAll;
      StepKeepsInv(model, RemoveListener(i));
      InvSizes(model);
      ReleasedHasRun(model, i);
      RemoveFlags(model, i);
      var pos := FindName(listeners, name, 0);
      if pos.Some? {
        var id := listeners[pos.value].1;
        listeners := listeners[..pos.value] + listeners[pos.value + 1..];
        ran := ran[id := ran[id] + 1];
      }
      model := After(model, RemoveListener(i));
    }

    /** `unpark` for everybody on the list. */
    method UnparkAllOf(ghost i: nat)
      requires Valid() && WorkerAt(model, i, Draining)
      modifies this
      ensures Valid() && model == After(old(model), UnparkAll(i)) && WorkerAt(model, i, Stopping)
      ensures parkThreads == [] && forall w :: w in old(parkThreads) ==> w in tokens
      ensures workerNum == old(workerNum) && ran == old(ran)
    {
      hide Inv;
      ghost var s := model;
      StepKeepsInv(s, UnparkAll(i));
      var k := 0;
      while k < |parkThreads|
        invariant 0 <= k <= |parkThreads| && parkThreads == s.parkThreads
        invariant tokens == s.tokens + set w | w in parkThreads[..k]
        invariant listeners == s.listeners && ran == s.ran && stopped == s.stopped && workerNum == s.count
        invariant stopCall == s.callback && calls == s.calls && model == s
      {
        tokens := tokens + {parkThreads[k]};
        k := k + 1;
      }
      assert parkThreads[..k] == parkThreads;
      parkThreads := [];
      model := After(s, UnparkAll(i));
    }

    /** `release0` without interruption: what dropping a worker does. */
    method Release(ghost i: nat, name: string)
      requires Valid() && WorkerAt(model, i, Live) && name == model.workers[i].name
      modifies this
      ensures Valid() && |ran| == |old(ran)| && i < |ran| && ran[i] == 1
      ensures workerNum == old(workerNum) - 1
      ensures old(workerNum) == 1 ==>
                && stopped && listeners == [] && calls == 1 && !stopCall && (forall k :: 0 <= k < |ran| ==> ran[k] == 1)
                && parkThreads == [] && forall w :: w in old(parkThreads) ==> w in tokens
      ensures old(workerNum) > 1 ==> stopped == old(stopped) && calls == old(calls) && tokens == old(tokens)
    {
      hide Inv, Enabled, After;
      CountIsPositive(model, i);
      RemoveOwn(i, name);
      var count := SubtractOne(i);
      if count == 1 {
        UnparkAllOf(i);
        StopAndCall(i);
      }
    }

    /** The atomic decrement in `release0`, which returns the count before it. */
    method SubtractOne(ghost i: nat) returns (count: nat)
      requires Valid() && WorkerAt(model, i, Removed)
      modifies this
      ensures Valid() && model == After(old(model), Subtract(i))
      ensures count == old(workerNum) && count > 0 && workerNum == count - 1
      ensures count == 1 ==> WorkerAt(model, i, Draining)
      ensures stopped == old(stopped) && calls == old(calls) && ran == old(ran)
      ensures tokens == old(tokens) && parkThreads == old(parkThreads)
    {
      hide Inv;
      StepKeepsInv(model, Subtract(i));
      SubtractIsPositive(model, i);
      count := workerNum;
      workerNum := workerNum - 1;
      model := After(model, Subtract(i));
    }

    /** `stop_call`: stop, then take and run the callback. */
    method StopAndCall(ghost i: nat)
      requires Valid() && WorkerAt(model, i, Stopping)
      modifies this
      ensures Valid() && model == After(After(old(model), StopOf(i)), CallOf(i))
      ensures stopped && listeners == [] && calls == 1 && !stopCall
      ensures |ran| == |old(ran)| && (forall k :: 0 <= k < |ran| ==> ran[k] == 1) && workerNum == old(workerNum)
      ensures parkThreads == old(parkThreads) && tokens == old(tokens)
    {
      hide Inv, RanAll;
      ghost var s := model;
      StepKeepsInv(s, StopOf(i));
      StepKeepsInv(After(s, StopOf(i)), CallOf(i));
      InvSizes(s);
      InvSizes(After(After(s, StopOf(i)), CallOf(i)));
      AllRanAfterStop(s);
      RunListeners();
      if stopCall {
        stopCall := false;
        calls := calls + 1;
      }
      model := After(After(s, StopOf(i)), CallOf(i));
    }
  }

  lemma InvSizes(s: State)
    requires Inv(s)
    ensures |s.ran| == |s.workers|
    ensures forall x :: x in s.listeners ==> x.1 < |s.ran|
    ensures s.calls == if s.callback then 0 else 1
  {}

  lemma AllRanAfterStop(s: State)
    requires Inv(s)
    ensures forall i :: 0 <= i < |s.ran| ==> RanAll(s.ran, s.listeners)[i] == 1
  {
    StopRunsTheRest(s);
  }

  lemma ReleasedHasRun(s: State, i: nat)
    requires Inv(s) && WorkerAt(s, i, Live)
    ensures i < |After(s, RemoveListener(i)).ran| && After(s, RemoveListener(i)).ran[i] == 1
  {}

  lemma CountIsPositive(s: State, i: nat)
    requires Inv(s) && WorkerAt(s, i, Live)
    ensures s.count > 0
  {
    assert i in Counted(s);
  }

  lemma RanOneMore(ran: seq<nat>, listeners: seq<(string, nat)>, x: (string, nat))
    requires x.1 < |ran|
    ensures RanAll(ran, listeners + [x]) == RanAll(ran, listeners)[x.1 := RanAll(ran, listeners)[x.1] + 1]
  {}
}
