/** The route table: the lists of routes per peer and the order in which they are kept. */
module RouteTables {
  import opened Bytes
  import opened Sorting
  import opened Routes

  type Table = map<Ipv4Addr, seq<Entry>>

  datatype Config = Config(p2pOnly: bool, firstLatency: bool)

  // ----- one list -----

  /** The outcome of the loop in `add_route_`: a shorter route on the way, the same key, or neither. */
  datatype Scan = Shorter | Found(at: nat) | Absent

  function ScanFrom(list: seq<Entry>, route: Route, firstLatency: bool, i: nat): (r: Scan)
    requires i <= |list|
    ensures r.Found? ==> i <= r.at < |list| && KeyOf(list[r.at]) == route.key
    decreases |list| - i
  {
    if i == |list| then Absent
    else if list[i].route.metric < route.metric && !firstLatency then Shorter
    else if KeyOf(list[i]) == route.key then Found(i)
    else ScanFrom(list, route, firstLatency, i + 1)
  }

  predicate OtherKeyThan(e: Entry, key: RouteKey) {
    KeyOf(e) != key
  }

  /** The list after the write-locked part of `add_route_`, and what that returns. */
  function Added(c: Config, list: seq<Entry>, route: Route, now: int, onlyIfAbsent: bool): (bool, seq<Entry>) {
    match ScanFrom(list, route, c.firstLatency, 0)
    case Shorter => (false, list)
    case Found(i) => if onlyIfAbsent then (true, list) else (true, SortBy(list[i := Entry(route, now)], NoSlower))
    case Absent =>
      var kept := if !c.firstLatency && IsP2p(route) then Retain(list, Direct) else list;
      (true, SortBy(kept, NoSlower) + [Entry(route, now)])
  }

  function Removed(list: seq<Entry>, key: RouteKey): seq<Entry> {
    Retain(list, e => OtherKeyThan(e, key))
  }

  function Touched(list: seq<Entry>, key: RouteKey, now: int, i: nat): (r: seq<Entry>)
    requires i <= |list|
    ensures |r| == |list|
    ensures forall j :: 0 <= j < |list| ==> r[j].route == list[j].route
    decreases |list| - i
  {
    if i == |list| then list
    else if KeyOf(list[i]) == key then list[i := list[i].(time := now)]
    else Touched(list, key, now, i + 1)
  }

  ghost predicate SortedButLast(list: seq<Entry>) {
    |list| > 0 && SortedBy(list[..|list| - 1], NoSlower)
  }

  ghost predicate ListOk(c: Config, list: seq<Entry>) {
    && DistinctBy(list, KeyOf)
    && SortedButLast(list)
    && (c.p2pOnly ==> forall e :: e in list ==> Direct(e))
  }

  /** A shorter route that the scan meets before the route's own key. */
  ghost predicate ShorterBeforeKey(list: seq<Entry>, route: Route, i: nat, j: nat) {
    i <= j < |list| && list[j].route.metric < route.metric && forall k :: i <= k < j ==> KeyOf(list[k]) != route.key
  }

  /** The scan rejects exactly when there is one. */
  lemma {:induction false} ScanRejects(list: seq<Entry>, route: Route, firstLatency: bool, i: nat)
    requires i <= |list|
    ensures ScanFrom(list, route, firstLatency, i).Shorter? <==>
            !firstLatency && exists j :: ShorterBeforeKey(list, route, i, j)
    decreases |list| - i
  {
    if i < |list| {
      if list[i].route.metric < route.metric && !firstLatency {
        assert ShorterBeforeKey(list, route, i, i);
      } else if KeyOf(list[i]) != route.key {
        ScanRejects(list, route, firstLatency, i + 1);
        if ScanFrom(list, route, firstLatency, i + 1).Shorter? {
          var j :| ShorterBeforeKey(list, route, i + 1, j);
          assert ShorterBeforeKey(list, route, i, j);
        } else if !firstLatency {
          forall j | ShorterBeforeKey(list, route, i, j) ensures ShorterBeforeKey(list, route, i + 1, j) {}
        }
      } else {
        assert !ScanFrom(list, route, firstLatency, i).Shorter?;
      }
    }
  }

  /** What it has seen when it does not reject. */
  lemma {:induction false} ScanMeaning(list: seq<Entry>, route: Route, firstLatency: bool, i: nat)
    requires i <= |list|
    ensures var s := ScanFrom(list, route, firstLatency, i);
            && (s.Absent? ==> forall j :: i <= j < |list| ==> KeyOf(list[j]) != route.key)
            && (s.Shorter? ==> !firstLatency && i < |list|)
            && (!s.Shorter? && !firstLatency ==>
                  forall j :: i <= j < |list| && (s.Found? ==> j <= s.at) ==> list[j].route.metric >= route.metric)
    decreases |list| - i
  {
    if i < |list| && !(list[i].route.metric < route.metric && !firstLatency) && KeyOf(list[i]) != route.key {
      ScanMeaning(list, route, firstLatency, i + 1);
    }
  }

  lemma AppendKeepsDistinct(list: seq<Entry>, e: Entry)
    requires DistinctBy(list, KeyOf) && forall x :: x in list ==> KeyOf(x) != KeyOf(e)
    ensures DistinctBy(list + [e], KeyOf)
  {}

  lemma AddedKeepsOk(c: Config, list: seq<Entry>, route: Route, now: int, onlyIfAbsent: bool)
    requires list == [] || ListOk(c, list)
    requires c.p2pOnly ==> IsP2p(route)
    ensures ListOk(c, Added(c, list, route, now, onlyIfAbsent).1)
  {
    hide SortBy, Retain, ScanFrom, ListOk;
    ScanMeaning(list, route, c.firstLatency, 0);
    match ScanFrom(list, route, c.firstLatency, 0)
    case Shorter =>
    case Found(i) => UpdatedKeepsOk(c, list, i, Entry(route, now));
    case Absent => InsertedKeepsOk(c, list, Entry(route, now));
  }

  lemma UpdatedKeepsOk(c: Config, list: seq<Entry>, at: nat, e: Entry)
    requires ListOk(c, list) && at < |list| && KeyOf(list[at]) == KeyOf(e) && (c.p2pOnly ==> Direct(e))
    ensures ListOk(c, SortBy(list[at := e], NoSlower))
  {
    hide SortBy;
    var l := list[at := e];
    assert DistinctBy(l, KeyOf);
    SortByKeepsDistinct(l, NoSlower, KeyOf);
    SortByIsStableSort(l, NoSlower);
    SortByKeepsElements(l, NoSlower);
    forall x | x in l ensures x == e || x in list {
      var j :| 0 <= j < |l| && l[j] == x;
    }
  }

  lemma InsertedKeepsOk(c: Config, list: seq<Entry>, e: Entry)
    requires list == [] || ListOk(c, list)
    requires forall x :: x in list ==> KeyOf(x) != KeyOf(e)
    requires c.p2pOnly ==> Direct(e)
    ensures ListOk(c, SortBy(list, NoSlower) + [e]) && ListOk(c, SortBy(Retain(list, Direct), NoSlower) + [e])
  {
    hide SortBy, Retain;
    RetainKeepsOrder(list, Direct, NoSlower, KeyOf);
    SortedAndPushedIsOk(c, list, e);
    SortedAndPushedIsOk(c, Retain(list, Direct), e);
  }

  lemma SortedAndPushedIsOk(c: Config, kept: seq<Entry>, e: Entry)
    requires DistinctBy(kept, KeyOf)
    requires c.p2pOnly ==> Direct(e) && forall x :: x in kept ==> Direct(x)
    requires forall x :: x in kept ==> KeyOf(x) != KeyOf(e)
    ensures ListOk(c, SortBy(kept, NoSlower) + [e])
  {
    hide SortBy;
    var l := SortBy(kept, NoSlower);
    SortByKeepsDistinct(kept, NoSlower, KeyOf);
    SortByIsStableSort(kept, NoSlower);
    SortByKeepsElements(kept, NoSlower);
    AppendKeepsDistinct(l, e);
    assert (l + [e])[..|l|] == l;
  }

  lemma RemovedKeepsOk(c: Config, list: seq<Entry>, key: RouteKey)
    requires ListOk(c, list)
    ensures Removed(list, key) == [] || ListOk(c, Removed(list, key))
    ensures forall e :: e in Removed(list, key) <==> e in list && KeyOf(e) != key
    ensures SortedBy(list, NoSlower) ==> SortedBy(Removed(list, key), NoSlower)
    ensures KeyOf(list[|list| - 1]) == key ==> SortedBy(Removed(list, key), NoSlower)
    ensures KeyOf(list[|list| - 1]) != key ==>
              Removed(list, key) != [] && KeyOf(Removed(list, key)[|Removed(list, key)| - 1]) == KeyOf(list[|list| - 1])
  {
    var keep := e => OtherKeyThan(e, key);
    var rest, last := list[..|list| - 1], list[|list| - 1];
    RetainKeepsOrder(list, keep, NoSlower, KeyOf);
    RetainKeepsOrder(rest, keep, NoSlower, KeyOf);
    var r := Removed(list, key);
    assert r == Retain(rest, keep) + if keep(last) then [last] else [];
    if r != [] {
      assert SortedBy(r[..|r| - 1], NoSlower);
    }
  }

  lemma {:induction false} TouchedKeepsOk(c: Config, list: seq<Entry>, key: RouteKey, now: int)
    requires ListOk(c, list)
    ensures ListOk(c, Touched(list, key, now, 0))
    ensures SortedBy(list, NoSlower) ==> SortedBy(Touched(list, key, now, 0), NoSlower)
  {
    var r := Touched(list, key, now, 0);
    forall e | e in r ensures c.p2pOnly ==> Direct(e) {
      var j :| 0 <= j < |r| && r[j] == e;
      assert list[j] in list;
    }
  }

  // ----- the whole table under any run -----

  /**
   * One critical section. The read-locked first phase of `add_route_if_absent` changes
   * nothing and its second phase takes nothing from it, so any interleaving of callers is a
   * sequence of these.
   */
  datatype Op =
    | Add(id: Ipv4Addr, route: Route, now: int, onlyIfAbsent: bool)
    | Remove(id: Ipv4Addr, key: RouteKey)
    | Touch(id: Ipv4Addr, key: RouteKey, now: int)

  /** The table, and as history the key each peer's newest route was inserted under. */
  datatype State = State(table: Table, newest: map<Ipv4Addr, RouteKey>)

  function ListOf(t: Table, id: Ipv4Addr): seq<Entry> {
    if id in t then t[id] else []
  }

  /** Whether the call gets past the channel type, that is to the write lock. */
  predicate Admitted(c: Config, route: Route) {
    c.p2pOnly ==> IsP2p(route)
  }

  function Apply(c: Config, t: Table, op: Op): Table {
    match op
    case Add(id, route, now, onlyIfAbsent) =>
      if Admitted(c, route) then t[id := Added(c, ListOf(t, id), route, now, onlyIfAbsent).1] else t
    case Remove(id, key) =>
      if id !in t then t
      else if Removed(t[id], key) == [] then t - {id}
      else t[id := Removed(t[id], key)]
    case Touch(id, key, now) =>
      if id in t then t[id := Touched(t[id], key, now, 0)] else t
  }

  /** Whether an operation inserts a route that was not there. */
  predicate Inserts(c: Config, t: Table, op: Op) {
    op.Add? && Admitted(c, op.route) && ScanFrom(ListOf(t, op.id), op.route, c.firstLatency, 0).Absent?
  }

  function Step(c: Config, s: State, op: Op): State {
    State(Apply(c, s.table, op), if Inserts(c, s.table, op) then s.newest[op.id := op.route.key] else s.newest)
  }

  function Run(c: Config, s: State, ops: seq<Op>): State {
    if |ops| == 0 then s else Step(c, Run(c, s, ops[..|ops| - 1]), ops[|ops| - 1])
  }

  const EMPTY := State(map[], map[])

  /** Only the newest route of a peer may be out of order. */
  ghost predicate OnlyNewestOutOfOrder(s: State, id: Ipv4Addr)
    requires id in s.table
  {
    var list := s.table[id];
    SortedBy(list, NoSlower) || (|list| > 0 && id in s.newest && KeyOf(list[|list| - 1]) == s.newest[id])
  }

  ghost predicate Inv(c: Config, s: State) {
    forall id :: id in s.table ==> ListOk(c, s.table[id]) && OnlyNewestOutOfOrder(s, id)
  }

  lemma StepKeepsInv(c: Config, s: State, op: Op)
    requires Inv(c, s)
    ensures Inv(c, Step(c, s, op))
  {
    hide ListOk, Added, Removed, Touched, Inserts;
    var after := Step(c, s, op);
    forall id | id in after.table ensures ListOk(c, after.table[id]) && OnlyNewestOutOfOrder(after, id) {
      if id in s.table {
        assert OnlyNewestOutOfOrder(s, id);
      }
      if id == op.id {
        match op
        case Add(_, route, now, onlyIfAbsent) =>
          if Admitted(c, route) {
            AddedKeepsOk(c, ListOf(s.table, id), route, now, onlyIfAbsent);
            AddedOnlyNewestOutOfOrder(c, s, id, route, now, onlyIfAbsent);
          } else {
            NotInserted(c, s, op);
          }
        case Remove(_, key) =>
          RemovedOnlyNewestOutOfOrder(c, s, id, key);
        case Touch(_, key, now) =>
          TouchedKeepsOk(c, s.table[id], key, now);
          TouchedOnlyNewestOutOfOrder(c, s, id, key, now);
      }
    }
  }

  lemma NotInserted(c: Config, s: State, op: Op)
    requires op.Add? && !Admitted(c, op.route)
    ensures Step(c, s, op) == s
  {}

  lemma AddedOnlyNewestOutOfOrder(
    c: Config, s: State, id: Ipv4Addr, route: Route, now: int, onlyIfAbsent: bool)
    requires Inv(c, s) && Admitted(c, route)
    ensures OnlyNewestOutOfOrder(Step(c, s, Add(id, route, now, onlyIfAbsent)), id)
  {
    hide SortBy, Retain, ListOk;
    var list := ListOf(s.table, id);
    assert id in s.table ==> OnlyNewestOutOfOrder(s, id);
    match ScanFrom(list, route, c.firstLatency, 0)
    case Shorter =>
    case Found(i) => SortByIsStableSort(list[i := Entry(route, now)], NoSlower);
    case Absent =>
      var l := Added(c, list, route, now, onlyIfAbsent).1;
      assert l[|l| - 1] == Entry(route, now);
  }

  lemma RemovedOnlyNewestOutOfOrder(c: Config, s: State, id: Ipv4Addr, key: RouteKey)
    requires Inv(c, s) && id in s.table
    ensures var after := Step(c, s, Remove(id, key));
            id in after.table ==> ListOk(c, after.table[id]) && OnlyNewestOutOfOrder(after, id)
  {
    hide Removed;
    assert OnlyNewestOutOfOrder(s, id);
    RemovedKeepsOk(c, s.table[id], key);
  }

  lemma TouchedOnlyNewestOutOfOrder(c: Config, s: State, id: Ipv4Addr, key: RouteKey, now: int)
    requires Inv(c, s) && id in s.table
    ensures OnlyNewestOutOfOrder(Step(c, s, Touch(id, key, now)), id)
  {}

  /**
   * Every table any run can produce: no peer with two routes under one key or with an empty
   * list, every list sorted by latency except possibly its last element, which is then the
   * newest, and only direct routes in p2p mode.
   */
  lemma {:induction false} EveryRunKeepsInv(c: Config, ops: seq<Op>)
    ensures Inv(c, Run(c, EMPTY, ops))
  {
    if |ops| != 0 {
      EveryRunKeepsInv(c, ops[..|ops| - 1]);
      StepKeepsInv(c, Run(c, EMPTY, ops[..|ops| - 1]), ops[|ops| - 1]);
    }
  }

  lemma {:induction false} TouchedAt(list: seq<Entry>, key: RouteKey, now: int, i: nat)
    requires DistinctBy(list, KeyOf) && i <= |list| && forall j :: 0 <= j < i ==> KeyOf(list[j]) != key
    ensures forall j :: 0 <= j < |list| ==>
              Touched(list, key, now, i)[j] == if KeyOf(list[j]) == key then Entry(list[j].route, now) else list[j]
    decreases |list| - i
  {
    if i < |list| && KeyOf(list[i]) != key {
      TouchedAt(list, key, now, i + 1);
    }
  }

  /**
   * After a time update, in any table reached: the route under that key carries the new time and is
   * otherwise as it was, and so is every other entry, in its place.
   */
  lemma TouchRenewsThatRoute(c: Config, ops: seq<Op>, id: Ipv4Addr, key: RouteKey, now: int)
    ensures var s, t := Run(c, EMPTY, ops).table, Run(c, EMPTY, ops + [Touch(id, key, now)]).table;
            && t.Keys == s.Keys
            && (forall other :: other in s && other != id ==> t[other] == s[other])
            && |ListOf(t, id)| == |ListOf(s, id)|
            && forall j :: 0 <= j < |ListOf(s, id)| ==>
                 var e := ListOf(s, id)[j];
                 ListOf(t, id)[j] == if KeyOf(e) == key then Entry(e.route, now) else e
  {
    hide Touched;
    EveryRunKeepsInv(c, ops);
    RunOneMore(c, EMPTY, ops, Touch(id, key, now));
    var s := Run(c, EMPTY, ops);
    if id in s.table {
      ReachedIsDistinct(c, s, id);
      TouchedAt(s.table[id], key, now, 0);
    }
  }

  // ----- selection -----

  /** The route `get_route_by_id` picks. */
  function FirstMeasured(list: seq<Entry>, i: nat): (r: Option<Route>)
    requires i <= |list|
    ensures r.Some? ==> exists j :: i <= j < |list| && list[j].route == r.value && r.value.rt != DEFAULT_RT
    ensures r.None? <==> forall j :: i <= j < |list| ==> list[j].route.rt == DEFAULT_RT
    decreases |list| - i
  {
    if i == |list| then None
    else if list[i].route.rt != DEFAULT_RT then Some(list[i].route)
    else FirstMeasured(list, i + 1)
  }

  /** The route `route_one_p2p` picks: the first direct one. */
  function FirstDirect(list: seq<Entry>, i: nat): (r: Option<Route>)
    requires i <= |list|
    ensures r.Some? ==> IsP2p(r.value) && exists j :: i <= j < |list| && list[j].route == r.value
    ensures r.None? <==> forall j :: i <= j < |list| ==> !Direct(list[j])
    decreases |list| - i
  {
    if i == |list| then None
    else if IsP2p(list[i].route) then Some(list[i].route)
    else FirstDirect(list, i + 1)
  }

  function Selected(c: Config, list: seq<Entry>, index: nat): Option<Route> {
    if |list| == 0 then None
    else if c.firstLatency then Some(list[0].route)
    else if list[index % |list|].route.rt != DEFAULT_RT then Some(list[index % |list|].route)
    else FirstMeasured(list, 0)
  }

  /** With `first_latency`, after any run, the route selected is the fastest of all but the newest. */
  lemma SelectedIsFastestButNewest(c: Config, ops: seq<Op>, id: Ipv4Addr, index: nat)
    requires c.firstLatency && id in Run(c, EMPTY, ops).table
    ensures var s := Run(c, EMPTY, ops);
            && Selected(c, s.table[id], index).Some?
            && forall e :: e in s.table[id] ==>
                 Selected(c, s.table[id], index).value.rt <= Rt(e) || (id in s.newest && KeyOf(e) == s.newest[id])
  {
    EveryRunKeepsInv(c, ops);
    var s := Run(c, EMPTY, ops);
    var list := s.table[id];
    assert OnlyNewestOutOfOrder(s, id);
    forall e | e in list ensures Rt(list[0]) <= Rt(e) || (id in s.newest && KeyOf(e) == s.newest[id]) {
      var i :| 0 <= i < |list| && list[i] == e;
      if i < |list| - 1 {
        assert list[..|list| - 1][0] == list[0] && list[..|list| - 1][i] == e;
      }
    }
  }

  /** Without it, a measured route of the list is selected exactly when there is one. */
  lemma SelectedIsMeasured(c: Config, list: seq<Entry>, index: nat)
    requires !c.firstLatency
    ensures Selected(c, list, index).Some? <==> exists e :: e in list && Rt(e) != DEFAULT_RT
    ensures Selected(c, list, index).Some? ==>
              exists e :: e in list && e.route == Selected(c, list, index).value && Rt(e) != DEFAULT_RT
  {
    if |list| > 0 {
      assert list[index % |list|] in list;
      if Selected(c, list, index).None? {
        forall e | e in list ensures Rt(e) == DEFAULT_RT {
          var j :| 0 <= j < |list| && list[j] == e;
        }
      } else if list[index % |list|].route.rt == DEFAULT_RT {
        var j :| 0 <= j < |list| && list[j].route == Selected(c, list, index).value
                 && Selected(c, list, index).value.rt != DEFAULT_RT;
        assert list[j] in list;
      }
    }
  }

  /** Which one: the calls take turns, and a turn that falls on an unmeasured route goes to the first measured one. */
  lemma {:induction false} SelectionTakesTurns(c: Config, list: seq<Entry>, index: nat, j: nat)
    requires !c.firstLatency && j < |list| && Rt(list[j]) != DEFAULT_RT
    ensures index % |list| == j ==> Selected(c, list, index) == Some(list[j].route)
    ensures Rt(list[index % |list|]) == DEFAULT_RT && (forall i :: 0 <= i < j ==> Rt(list[i]) == DEFAULT_RT) ==>
              Selected(c, list, index) == Some(list[j].route)
  {
    if forall i :: 0 <= i < j ==> Rt(list[i]) == DEFAULT_RT {
      FirstMeasuredIs(list, 0, j);
    }
  }

  lemma {:induction false} FirstMeasuredIs(list: seq<Entry>, i: nat, j: nat)
    requires i <= j < |list| && Rt(list[j]) != DEFAULT_RT && forall k :: i <= k < j ==> Rt(list[k]) == DEFAULT_RT
    ensures FirstMeasured(list, i) == Some(list[j].route)
    decreases j - i
  {
    if i < j {
      FirstMeasuredIs(list, i + 1, j);
    }
  }

  /** The direct route a broadcast uses is the first one. */
  lemma {:induction false} FirstDirectIs(list: seq<Entry>, i: nat, j: nat)
    requires i <= j < |list| && list[j].route.metric == 1 && forall k :: i <= k < j ==> list[k].route.metric != 1
    ensures FirstDirect(list, i) == Some(list[j].route)
    decreases j - i
  {
    if i < j {
      FirstDirectIs(list, i + 1, j);
    }
  }

  /** A route that is new, and without first_latency no longer than any there, is accepted and comes last, behind a sorted list. */
  lemma NewRouteComesLast(c: Config, list: seq<Entry>, route: Route, now: int, onlyIfAbsent: bool)
    requires forall e :: e in list ==> KeyOf(e) != route.key && (c.firstLatency || route.metric <= e.route.metric)
    ensures var (ok, l) := Added(c, list, route, now, onlyIfAbsent);
            ok && |l| > 0 && l[|l| - 1] == Entry(route, now) && SortedBy(l[..|l| - 1], NoSlower)
  {
    hide SortBy, Retain;
    ScanOfNew(list, route, c.firstLatency, 0);
    var kept := if !c.firstLatency && IsP2p(route) then Retain(list, Direct) else list;
    SortByIsStableSort(kept, NoSlower);
    var l := SortBy(kept, NoSlower);
    assert (l + [Entry(route, now)])[..|l|] == l;
  }

  lemma {:induction false} ScanOfNew(list: seq<Entry>, route: Route, firstLatency: bool, i: nat)
    requires i <= |list|
    requires forall e :: e in list ==> KeyOf(e) != route.key && (firstLatency || route.metric <= e.route.metric)
    ensures ScanFrom(list, route, firstLatency, i) == Absent
    decreases |list| - i
  {
    if i < |list| {
      assert list[i] in list;
      ScanOfNew(list, route, firstLatency, i + 1);
    }
  }

  // ----- path lengths, without first_latency -----

  /** Which adds are refused: those for which a strictly shorter route is met before the key itself. */
  lemma RejectedExactlyWhenShorterFirst(c: Config, t: Table, id: Ipv4Addr, route: Route, now: int, onlyIfAbsent: bool)
    requires Admitted(c, route)
    ensures !Added(c, ListOf(t, id), route, now, onlyIfAbsent).0 <==>
            !c.firstLatency && exists j :: ShorterBeforeKey(ListOf(t, id), route, 0, j)
    ensures !Added(c, ListOf(t, id), route, now, onlyIfAbsent).0 ==>
              id in t && Apply(c, t, Add(id, route, now, onlyIfAbsent)) == t
  {
    ScanRejects(ListOf(t, id), route, c.firstLatency, 0);
    if ScanFrom(ListOf(t, id), route, c.firstLatency, 0).Shorter? {
      assert t[id := t[id]] == t;
    }
  }

  ghost predicate SomeWithin(list: seq<Entry>, m: nat) {
    exists e :: e in list && e.route.metric <= m
  }

  ghost predicate KeyWithin(list: seq<Entry>, key: RouteKey, m: nat) {
    forall e :: e in list && KeyOf(e) == key ==> e.route.metric <= m
  }

  /** The elements after an accepted add: those kept, and the new route once. */
  lemma AddedElements(c: Config, list: seq<Entry>, route: Route, now: int, onlyIfAbsent: bool)
    requires DistinctBy(list, KeyOf)
    ensures var s, l := ScanFrom(list, route, c.firstLatency, 0), Added(c, list, route, now, onlyIfAbsent).1;
            && (s.Found? && !onlyIfAbsent ==>
                  forall e :: e in l <==> e == Entry(route, now) || (e in list && KeyOf(e) != route.key))
            && (s.Absent? ==>
                  forall e :: e in l <==>
                    e == Entry(route, now) || (e in list && (c.firstLatency || !IsP2p(route) || Direct(e))))
  {
    match ScanFrom(list, route, c.firstLatency, 0)
    case Shorter =>
    case Found(i) =>
      var l := list[i := Entry(route, now)];
      SortByKeepsElements(l, NoSlower);
      forall e ensures e in l <==> e == Entry(route, now) || (e in list && KeyOf(e) != route.key) {
        if e in list && KeyOf(e) != route.key {
          var j :| 0 <= j < |list| && list[j] == e;
          assert l[j] == e;
        }
        assert l[i] == Entry(route, now);
      }
    case Absent =>
      RetainKeepsOrder(list, Direct, NoSlower, KeyOf);
      SortByKeepsElements(if !c.firstLatency && IsP2p(route) then Retain(list, Direct) else list, NoSlower);
  }

  /** A newly inserted route is no longer than any route there, and a direct one leaves only direct ones. */
  lemma NewRouteIsShortest(c: Config, list: seq<Entry>, route: Route, now: int, onlyIfAbsent: bool)
    requires !c.firstLatency && DistinctBy(list, KeyOf) && ScanFrom(list, route, false, 0).Absent?
    ensures forall e :: e in list ==> route.metric <= e.route.metric
    ensures var l := Added(c, list, route, now, onlyIfAbsent).1;
            && Entry(route, now) in l
            && (forall e :: e in l ==> route.metric <= e.route.metric)
            && (IsP2p(route) ==> forall e :: e in l ==> Direct(e))
  {
    ScanMeaning(list, route, false, 0);
    AddedElements(c, list, route, now, onlyIfAbsent);
  }

  lemma AddKeepsBounds(c: Config, list: seq<Entry>, route: Route, now: int, onlyIfAbsent: bool, key: RouteKey, m: nat)
    requires !c.firstLatency && DistinctBy(list, KeyOf) && SomeWithin(list, m)
    ensures var l := Added(c, list, route, now, onlyIfAbsent).1;
            && SomeWithin(l, m)
            && (KeyWithin(list, key, m) ==> KeyWithin(l, key, m))
  {
    ScanMeaning(list, route, false, 0);
    AddedElements(c, list, route, now, onlyIfAbsent);
    var l := Added(c, list, route, now, onlyIfAbsent).1;
    var e :| e in list && e.route.metric <= m;
    match ScanFrom(list, route, false, 0)
    case Shorter =>
    case Found(i) =>
      if !onlyIfAbsent {
        assert list[i] in list && Entry(route, now) in l;
        if KeyOf(e) == route.key {
          SameKeySameEntry(list, e, list[i]);
        }
      }
    case Absent =>
      assert Entry(route, now) in l;
  }

  lemma SameKeySameEntry(list: seq<Entry>, e: Entry, f: Entry)
    requires DistinctBy(list, KeyOf) && e in list && f in list && KeyOf(e) == KeyOf(f)
    ensures e == f
  {}

  predicate OnlyAdds(ops: seq<Op>) {
    forall i :: 0 <= i < |ops| ==> ops[i].Add?
  }

  lemma {:induction false} BoundsOverAdds(c: Config, s: State, adds: seq<Op>, id: Ipv4Addr, key: RouteKey, m: nat)
    requires !c.firstLatency && Inv(c, s) && OnlyAdds(adds)
    requires SomeWithin(ListOf(s.table, id), m)
    ensures Inv(c, Run(c, s, adds))
    ensures SomeWithin(ListOf(Run(c, s, adds).table, id), m)
    ensures KeyWithin(ListOf(s.table, id), key, m) ==> KeyWithin(ListOf(Run(c, s, adds).table, id), key, m)
  {
    hide SomeWithin, KeyWithin, Added, ListOk;
    if |adds| != 0 {
      var before, op := adds[..|adds| - 1], adds[|adds| - 1];
      BoundsOverAdds(c, s, before, id, key, m);
      StepKeepsInv(c, Run(c, s, before), op);
      var list := ListOf(Run(c, s, before).table, id);
      if op.id == id && Admitted(c, op.route) {
        ReachedIsDistinct(c, Run(c, s, before), id);
        AddKeepsBounds(c, list, op.route, op.now, op.onlyIfAbsent, key, m);
      } else {
        assert ListOf(Run(c, s, adds).table, id) == list;
      }
    }
  }

  lemma ReachedIsDistinct(c: Config, s: State, id: Ipv4Addr)
    requires Inv(c, s)
    ensures DistinctBy(ListOf(s.table, id), KeyOf)
  {}

  /**
   * Over any run of adds, from any table reached: a key that is there at both ends has not
   * become longer, even if it was dropped and came back, and neither has the peer's shortest route.
   */
  lemma MetricsNeverRise(c: Config, ops: seq<Op>, adds: seq<Op>, id: Ipv4Addr, before: Entry)
    requires !c.firstLatency && OnlyAdds(adds)
    requires before in ListOf(Run(c, EMPTY, ops).table, id)
    ensures var l := ListOf(Run(c, Run(c, EMPTY, ops), adds).table, id);
            && (exists e :: e in l && e.route.metric <= before.route.metric)
            && (forall e :: e in l && KeyOf(e) == KeyOf(before) ==> e.route.metric <= before.route.metric)
  {
    EveryRunKeepsInv(c, ops);
    var s := Run(c, EMPTY, ops);
    var m := before.route.metric;
    assert KeyWithin(ListOf(s.table, id), KeyOf(before), m) by {
      forall e | e in ListOf(s.table, id) && KeyOf(e) == KeyOf(before) ensures e.route.metric <= m {
        SameKeySameEntry(ListOf(s.table, id), e, before);
      }
    }
    BoundsOverAdds(c, s, adds, id, KeyOf(before), m);
  }

  lemma RunOneMore(c: Config, s: State, ops: seq<Op>, op: Op)
    ensures Run(c, s, ops + [op]) == Step(c, Run(c, s, ops), op)
  {}

  // ----- all direct or none -----

  ghost predicate Uniform(list: seq<Entry>) {
    (forall e :: e in list ==> Direct(e)) || (forall e :: e in list ==> !Direct(e))
  }

  /**
   * The adds that put direct and indirect routes side by side: an update that changes the kind of one
   * route of several, or an insertion of the other kind that drops nothing.
   */
  predicate Mixes(c: Config, list: seq<Entry>, route: Route, onlyIfAbsent: bool) {
    match ScanFrom(list, route, c.firstLatency, 0)
    case Shorter => false
    case Found(i) => !onlyIfAbsent && |list| > 1 && Direct(list[i]) != IsP2p(route)
    case Absent => |list| > 0 && (c.firstLatency || !IsP2p(route)) && Direct(list[0]) != IsP2p(route)
  }

  /** A list that is all direct or none stays so exactly under every other add, in every configuration. */
  lemma StaysUniformExactlyUnlessMixed(c: Config, list: seq<Entry>, route: Route, now: int, onlyIfAbsent: bool)
    requires DistinctBy(list, KeyOf) && Uniform(list)
    ensures Uniform(Added(c, list, route, now, onlyIfAbsent).1) <==> !Mixes(c, list, route, onlyIfAbsent)
  {
    hide Added, SortBy, Retain;
    var l := Added(c, list, route, now, onlyIfAbsent).1;
    ScanMeaning(list, route, c.firstLatency, 0);
    AddedElements(c, list, route, now, onlyIfAbsent);
    match ScanFrom(list, route, c.firstLatency, 0)
    case Shorter => AddedUnchanged(c, list, route, now, onlyIfAbsent);
    case Found(i) =>
      if onlyIfAbsent {
        AddedUnchanged(c, list, route, now, onlyIfAbsent);
      } else {
        assert list[i] in list && Entry(route, now) in l;
        if |list| > 1 {
          var j := if i == 0 then 1 else 0;
          assert KeyOf(list[j]) != KeyOf(list[i]) && list[j] in list && list[j] in l;
        } else {
          forall e | e in l ensures e == Entry(route, now) {}
        }
      }
    case Absent =>
      assert Entry(route, now) in l;
      if |list| > 0 {
        assert list[0] in list;
      }
  }

  lemma AddedUnchanged(c: Config, list: seq<Entry>, route: Route, now: int, onlyIfAbsent: bool)
    requires var s := ScanFrom(list, route, c.firstLatency, 0); s.Shorter? || (s.Found? && onlyIfAbsent)
    ensures Added(c, list, route, now, onlyIfAbsent).1 == list
  {}

  /**
   * Without first_latency, and with path lengths of at least one, only one kind of add does it: the
   * update that makes one of several indirect routes direct.
   */
  lemma OnlyPromotionsMix(c: Config, list: seq<Entry>, route: Route, now: int, onlyIfAbsent: bool)
    requires !c.firstLatency && DistinctBy(list, KeyOf) && Uniform(list)
    requires route.metric >= 1 && forall e :: e in list ==> e.route.metric >= 1
    ensures Uniform(Added(c, list, route, now, onlyIfAbsent).1) <==>
            var s := ScanFrom(list, route, false, 0);
            !(s.Found? && !onlyIfAbsent && IsP2p(route) && !Direct(list[s.at]) && |list| > 1)
  {
    hide Added, Uniform;
    StaysUniformExactlyUnlessMixed(c, list, route, now, onlyIfAbsent);
    ScanMeaning(list, route, false, 0);
    match ScanFrom(list, route, false, 0)
    case Shorter =>
    case Found(i) => assert list[i] in list;
    case Absent => assert |list| > 0 ==> list[0] in list;
  }

  /** Removals and time updates never mix, so a run keeps every list uniform as long as none of its adds does. */
  lemma {:induction false} RunsWithoutMixingStayUniform(c: Config, ops: seq<Op>, id: Ipv4Addr)
    requires forall k :: 0 <= k < |ops| && ops[k].Add? && ops[k].id == id && Admitted(c, ops[k].route) ==>
               !Mixes(c, ListOf(Run(c, EMPTY, ops[..k]).table, id), ops[k].route, ops[k].onlyIfAbsent)
    ensures Uniform(ListOf(Run(c, EMPTY, ops).table, id))
  {
    hide Mixes, Added, Removed, Touched, ListOk;
    if |ops| != 0 {
      var before, op := ops[..|ops| - 1], ops[|ops| - 1];
      forall k | 0 <= k < |before| && before[k].Add? && before[k].id == id && Admitted(c, before[k].route)
        ensures !Mixes(c, ListOf(Run(c, EMPTY, before[..k]).table, id), before[k].route, before[k].onlyIfAbsent)
      {
        assert before[..k] == ops[..k] && before[k] == ops[k];
      }
      RunsWithoutMixingStayUniform(c, before, id);
      var s := Run(c, EMPTY, before);
      EveryRunKeepsInv(c, before);
      ReachedIsDistinct(c, s, id);
      if op.id == id {
        match op
        case Add(_, route, now, onlyIfAbsent) =>
          if Admitted(c, route) {
            StaysUniformExactlyUnlessMixed(c, ListOf(s.table, id), route, now, onlyIfAbsent);
          }
        case Remove(_, key) =>
          if id in s.table {
            RemovedKeepsOk(c, s.table[id], key);
          }
        case Touch(_, key, now) =>
          if id in s.table {
            TouchedKeepsKinds(s.table[id], key, now);
          }
      } else {
        assert ListOf(Run(c, EMPTY, ops).table, id) == ListOf(s.table, id);
      }
    }
  }

  lemma TouchedKeepsKinds(list: seq<Entry>, key: RouteKey, now: int)
    requires Uniform(list)
    ensures Uniform(Touched(list, key, now, 0))
  {
    var r := Touched(list, key, now, 0);
    forall e | e in r ensures exists f :: f in list && Direct(f) == Direct(e) {
      var j :| 0 <= j < |r| && r[j] == e;
      assert list[j] in list;
    }
  }

  /** What the table does not promise: an update can leave a direct and an indirect route side by side. */
  lemma UpdateCanMixDirectAndIndirect(c: Config, key1: RouteKey, key2: RouteKey, id: Ipv4Addr)
    requires !c.firstLatency && !c.p2pOnly && key1 != key2
    ensures var r1, r2, r3 := Route(key1, 2, 5), Route(key2, 2, 6), Route(key1, 1, 5);
            var l := ListOf(Run(c, EMPTY, [Add(id, r1, 0, false), Add(id, r2, 0, false), Add(id, r3, 0, false)]).table, id);
            && Entry(r3, 0) in l && Direct(Entry(r3, 0))
            && Entry(r2, 0) in l && !Direct(Entry(r2, 0))
  {
    hide Added, ScanFrom;
    var r1, r2, r3 := Route(key1, 2, 5), Route(key2, 2, 6), Route(key1, 1, 5);
    var ops := [Add(id, r1, 0, false), Add(id, r2, 0, false), Add(id, r3, 0, false)];
    RunOneMore(c, EMPTY, [], ops[0]);
    RunOneMore(c, EMPTY, ops[..1], ops[1]);
    RunOneMore(c, EMPTY, ops[..2], ops[2]);
    assert [] + [ops[0]] == ops[..1] && ops[..1] + [ops[1]] == ops[..2] && ops[..2] + [ops[2]] == ops;
    SecondIsAppended(c, r1, r2);
    var two := ListOf(Run(c, EMPTY, ops[..2]).table, id);
    assert two == [Entry(r1, 0), Entry(r2, 0)];
    assert two[0] == Entry(r1, 0) && two[1] == Entry(r2, 0);
    FirstIsFound(c, two, r3);
    AddedElements(c, two, r3, 0, false);
  }

  lemma FirstIsFound(c: Config, list: seq<Entry>, r: Route)
    requires |list| > 0 && KeyOf(list[0]) == r.key && list[0].route.metric >= r.metric
    ensures ScanFrom(list, r, c.firstLatency, 0) == Found(0)
  {}

  lemma SecondIsAppended(c: Config, r1: Route, r2: Route)
    requires r1.key != r2.key && r1.metric == r2.metric == 2
    ensures Added(c, [], r1, 0, false).1 == [Entry(r1, 0)]
    ensures Added(c, [Entry(r1, 0)], r2, 0, false).1 == [Entry(r1, 0), Entry(r2, 0)]
  {
    var one := [Entry(r1, 0)];
    assert ScanFrom(one, r2, c.firstLatency, 1).Absent?;
    SortByOfSorted(one, NoSlower);
  }
}
