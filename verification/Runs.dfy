/** Finite runs of a state machine whose step function says which events are possible. */
module Runs {
  import opened Bytes

  /** The events take `s` to `t`. */
  ghost predicate Leads<S(!new), E(!new)>(next: (S, E) -> Option<S>, s: S, events: seq<E>, t: S)
    decreases |events|
  {
    if |events| == 0 then s == t
    else next(s, events[0]).Some? && Leads(next, next(s, events[0]).value, events[1..], t)
  }

  lemma LeadsNowhere<S(!new), E(!new)>(next: (S, E) -> Option<S>, s: S)
    ensures Leads(next, s, [], s)
  {}

  lemma LeadsOn<S(!new), E(!new)>(next: (S, E) -> Option<S>, s: S, e: E, u: S, events: seq<E>, t: S)
    requires next(s, e) == Some(u) && Leads(next, u, events, t)
    ensures Leads(next, s, [e] + events, t)
  {
    assert ([e] + events)[1..] == events;
  }

  lemma {:induction false} LeadsThrough<S(!new), E(!new)>(
    next: (S, E) -> Option<S>, s: S, first: seq<E>, u: S, second: seq<E>, t: S)
    requires Leads(next, s, first, u) && Leads(next, u, second, t)
    ensures Leads(next, s, first + second, t)
    decreases |first|
  {
    if |first| == 0 {
      assert first + second == second;
    } else {
      LeadsThrough(next, next(s, first[0]).value, first[1..], u, second, t);
      assert (first + second)[1..] == first[1..] + second;
    }
  }

  /** The states on the way. */
  lemma {:induction false} LeadsIsRun<S(!new), E(!new)>(next: (S, E) -> Option<S>, s: S, events: seq<E>, t: S)
    returns (states: seq<S>)
    requires Leads(next, s, events, t)
    ensures |states| == |events| + 1 && states[0] == s && states[|events|] == t
    ensures forall k :: 0 <= k < |events| ==> next(states[k], events[k]) == Some(states[k + 1])
    decreases |events|
  {
    if |events| == 0 {
      states := [s];
    } else {
      var rest := LeadsIsRun(next, next(s, events[0]).value, events[1..], t);
      states := [s] + rest;
      forall k | 0 <= k < |events| ensures next(states[k], events[k]) == Some(states[k + 1]) {
        if k > 0 {
          assert states[k] == rest[k - 1] && events[k] == events[1..][k - 1] && states[k + 1] == rest[k - 1 + 1];
        }
      }
    }
  }
}
