/** Expiry of routes over which nothing has been received for too long. */
module Idle {
  import opened Bytes
  import opened Sorting
  import opened Routes
  import opened RouteTables
  import opened RouteTableClass
  import opened DeviceInfo

  datatype IdleType = Timeout(ip: Ipv4Addr, route: Route) | Sleep(duration: nat) | NoRoutes

  /** `Instant::elapsed`, which is never negative. */
  function Elapsed(now: int, time: int): nat {
    if now < time then 0 else now - time
  }

  /** Successive readings of a monotone clock. */
  ghost predicate Monotone(clock: nat -> int) {
    forall i, j :: 0 <= i <= j ==> clock(i) <= clock(j)
  }

  /** No route of the list is overdue, and none becomes so before `d` has passed since the first reading. */
  ghost predicate SleepsSafely(list: seq<Entry>, limit: nat, start: int, d: nat) {
    forall e :: e in list ==> Elapsed(start, e.time) < limit && start + d <= e.time + limit
  }

  /** One list of `next_idle`'s nested loops: the overdue route, or the largest age so far. */
  method OldestOf(list: seq<Entry>, limit: nat, clock: nat -> int, n: nat, max: nat)
    returns (overdue: Option<Entry>, n': nat, max': nat)
    requires Monotone(clock) && (max < limit || max == 0)
    ensures n' >= n && max' >= max && (max' < limit || max' == max)
    ensures overdue.Some? ==> overdue.value in list && exists k :: n <= k < n' && Elapsed(clock(k), overdue.value.time) >= limit
    ensures overdue.None? ==> SleepsSafely(list, limit, clock(0), if max' < limit then limit - max' else 0)
    ensures overdue.None? ==> max' == max || exists e, k :: e in list && n <= k < n' && Elapsed(clock(k), e.time) == max'
  {
    n', max' := n, max;
    var i := 0;
    while i < |list|
      invariant 0 <= i <= |list| && n' == n + i && max' >= max && (max' < limit || max' == max)
      invariant forall j :: 0 <= j < i ==> Elapsed(clock(n + j), list[j].time) <= max' && Elapsed(clock(n + j), list[j].time) < limit
      invariant max' == max || exists j :: 0 <= j < i && Elapsed(clock(n + j), list[j].time) == max'
    {
      var lastRead := Elapsed(clock(n'), list[i].time);
      if lastRead >= limit {
        return Some(list[i]), n' + 1, max';
      } else if max' < lastRead {
        max' := lastRead;
      }
      n', i := n' + 1, i + 1;
    }
    overdue := None;
    forall e | e in list
      ensures Elapsed(clock(0), e.time) < limit && clock(0) + (if max' < limit then limit - max' else 0) <= e.time + limit
    {
      var j :| 0 <= j < |list| && list[j] == e;
      assert clock(0) <= clock(n + j);
    }
    if max' != max {
      var j :| 0 <= j < |list| && Elapsed(clock(n + j), list[j].time) == max';
      assert list[j] in list;
    }
  }

  ghost predicate HasOverdue(t: Table, limit: nat, now: int) {
    exists id, e :: id in t && e in t[id] && Elapsed(now, e.time) >= limit
  }

  /** `next_idle`. The map is walked in no particular order. */
  method NextIdle(t: Table, limit: nat, clock: nat -> int) returns (r: IdleType, ghost readings: nat)
    requires Monotone(clock)
    ensures r.NoRoutes? <==> t == map[]
    ensures r.Timeout? ==> r.ip in t && exists e, k :: e in t[r.ip] && e.route == r.route && 0 <= k < readings
                                                   && Elapsed(clock(k), e.time) >= limit
    ensures HasOverdue(t, limit, clock(0)) ==> r.Timeout?
    ensures r.Sleep? ==> forall id :: id in t ==> SleepsSafely(t[id], limit, clock(0), r.duration)
    ensures r.Sleep? ==>
              || r.duration == limit
              || exists id, e, k :: id in t && e in t[id] && 0 <= k < readings && r.duration == limit - Elapsed(clock(k), e.time)
  {
    readings := 0;
    if |t| == 0 {
      return NoRoutes, 0;
    }
    var max, n := 0, 0;
    var ids := t.Keys;
    while ids != {}
      invariant ids <= t.Keys && (max < limit || max == 0)
      invariant forall id :: id in t && id !in ids ==>
                  SleepsSafely(t[id], limit, clock(0), if max < limit then limit - max else 0)
      invariant max == 0 || exists id, e, k :: id in t && e in t[id] && 0 <= k < n && Elapsed(clock(k), e.time) == max
      decreases ids
    {
      var ip :| ip in ids;
      var overdue, n', max' := OldestOf(t[ip], limit, clock, n, max);
      if overdue.Some? {
        return Timeout(ip, overdue.value.route), n';
      }
      forall id | id in t && id !in ids - {ip}
        ensures SleepsSafely(t[id], limit, clock(0), if max' < limit then limit - max' else 0)
      {
        if id != ip {
          assert SleepsSafely(t[id], limit, clock(0), if max < limit then limit - max else 0);
        }
      }
      ids, n, max := ids - {ip}, n', max';
    }
    r, readings := Sleep(if max < limit then limit - max else 0), n;
    forall id, e | id in t && e in t[id] ensures Elapsed(clock(0), e.time) < limit {
      assert SleepsSafely(t[id], limit, clock(0), r.duration);
    }
  }

  /** A route over which something was received at `time` is overdue from `time + limit` on, and not before. */
  lemma OverdueExactlyFrom(limit: nat, time: int, at: int)
    requires limit > 0
    ensures Elapsed(at, time) >= limit <==> at >= time + limit
  {}

  /** So the route whose time was just updated cannot be timed out before `now + limit`, and can from then on. */
  lemma TouchedIsNotOverdue(c: Config, ops: seq<Op>, id: Ipv4Addr, key: RouteKey, now: int, limit: nat, e: Entry, at: int)
    requires limit > 0
    requires e in ListOf(RouteTables.Run(c, EMPTY, ops + [Touch(id, key, now)]).table, id) && KeyOf(e) == key
    ensures Elapsed(at, e.time) >= limit <==> at >= now + limit
  {
    TouchRenewsThatRoute(c, ops, id, key, now);
    OverdueExactlyFrom(limit, now, at);
  }

  // ----- one step of the timer -----

  ghost predicate HasRoute(t: Table, id: Ipv4Addr, key: RouteKey) {
    id in t && exists e :: e in t[id] && KeyOf(e) == key
  }

  /** The routes of a table, each by peer and key. */
  ghost function Pairs(t: Table): set<(Ipv4Addr, RouteKey)> {
    set id, i | id in t && 0 <= i < |t[id]| :: (id, KeyOf(t[id][i]))
  }

  lemma PairsAre(t: Table, id: Ipv4Addr, key: RouteKey)
    ensures (id, key) in Pairs(t) <==> HasRoute(t, id, key)
  {}

  ghost predicate TableOk(c: Config, t: Table) {
    forall id :: id in t ==> ListOk(c, t[id])
  }

  /** Removal by key deletes exactly one route: the list loses one element and keeps all others in order. */
  lemma RemovalDeletesOne(c: Config, t: Table, id: Ipv4Addr, key: RouteKey)
    requires TableOk(c, t) && HasRoute(t, id, key)
    ensures exists at :: 0 <= at < |t[id]| && KeyOf(t[id][at]) == key && Removed(t[id], key) == t[id][..at] + t[id][at + 1..]
    ensures var after := Apply(c, t, Remove(id, key));
            && TableOk(c, after)
            && Pairs(after) == Pairs(t) - {(id, key)} && (id, key) in Pairs(t)
            && (forall other :: other != id ==> ListOf(after, other) == ListOf(t, other))
  {
    hide Removed, ListOk, Pairs;
    var list := t[id];
    var after := Apply(c, t, Remove(id, key));
    RemovalAt(c, list, key);
    RemovedKeepsOk(c, list, key);
    PairsAre(t, id, key);
    forall p ensures p in Pairs(after) <==> p in Pairs(t) - {(id, key)} {
      PairsAre(t, p.0, p.1);
      PairsAre(after, p.0, p.1);
      PairsAfterRemoval(c, t, id, key, p.0, p.1);
    }
  }

  lemma RemovalAt(c: Config, list: seq<Entry>, key: RouteKey)
    requires ListOk(c, list) && exists e :: e in list && KeyOf(e) == key
    ensures exists at :: 0 <= at < |list| && KeyOf(list[at]) == key && Removed(list, key) == list[..at] + list[at + 1..]
  {
    var e :| e in list && KeyOf(e) == key;
    var at :| 0 <= at < |list| && list[at] == e;
    RetainDropsOne(list, x => OtherKeyThan(x, key), KeyOf, at);
  }

  lemma PairsAfterRemoval(c: Config, t: Table, id: Ipv4Addr, key: RouteKey, id2: Ipv4Addr, key2: RouteKey)
    requires TableOk(c, t) && id in t
    ensures HasRoute(Apply(c, t, Remove(id, key)), id2, key2) <==> HasRoute(t, id2, key2) && (id, key) != (id2, key2)
  {
    hide Removed;
    var after := Apply(c, t, Remove(id, key));
    assert ListOk(c, t[id]);
    RemovedKeepsOk(c, t[id], key);
    if id2 == id && HasRoute(t, id, key2) && key != key2 {
      var e :| e in t[id] && KeyOf(e) == key2;
      assert e in Removed(t[id], key);
    }
  }

  /** One Timeout step of a table that receives nothing. */
  ghost predicate TimesOut(c: Config, s: Table, t: Table) {
    exists id, key :: HasRoute(s, id, key) && t == Apply(c, s, Remove(id, key))
  }

  /** A silent table is empty after exactly as many Timeout steps as it has routes, and takes no more. */
  lemma {:induction false} SilentTableEmpties(c: Config, ts: seq<Table>)
    requires |ts| > 0 && TableOk(c, ts[0])
    requires forall k :: 0 <= k < |ts| - 1 ==> TimesOut(c, ts[k], ts[k + 1])
    ensures TableOk(c, ts[|ts| - 1])
    ensures |Pairs(ts[|ts| - 1])| == |Pairs(ts[0])| - (|ts| - 1)
    ensures ts[|ts| - 1] == map[] <==> |ts| - 1 == |Pairs(ts[0])|
  {
    hide TableOk, Pairs;
    var n := |ts| - 1;
    if n > 0 {
      SilentTableEmpties(c, ts[..n]);
      assert TimesOut(c, ts[n - 1], ts[n - 1 + 1]);
      var id, key :| HasRoute(ts[n - 1], id, key) && ts[n] == Apply(c, ts[n - 1], Remove(id, key));
      RemovalDeletesOne(c, ts[n - 1], id, key);
    }
    EmptyIffNoPairs(c, ts[n]);
  }

  lemma EmptyIffNoPairs(c: Config, t: Table)
    requires TableOk(c, t)
    ensures t == map[] <==> |Pairs(t)| == 0
  {
    if t == map[] {
      assert Pairs(t) == {};
    } else {
      var id :| id in t;
      assert ListOk(c, t[id]);
      assert (id, KeyOf(t[id][0])) in Pairs(t);
    }
  }

  /** `idle_route0`. The result is the delay in milliseconds until the next call. */
  method IdleRoute(rt: RouteTable, cell: AtomicInfo, limit: nat, clock: nat -> int)
    returns (delay: nat, r: IdleType, ghost readings: nat)
    requires Monotone(clock) && rt.Valid()
    modifies rt, cell
    ensures rt.Valid()
    ensures r.Timeout? ==>
              && HasRoute(old(rt.table), r.ip, r.route.key)
              && rt.table == Apply(rt.config, old(rt.table), Remove(r.ip, r.route.key))
              && Pairs(rt.table) == Pairs(old(rt.table)) - {(r.ip, r.route.key)}
              && |Pairs(rt.table)| == |Pairs(old(rt.table))| - 1
              && delay == 100
    ensures !r.Timeout? ==> rt.table == old(rt.table) && cell.value == old(cell.value)
    ensures r.Timeout? <==> rt.table != old(rt.table)
    ensures cell.value == if r.Timeout? && (r.ip == old(cell.value).gateway || r.ip.bits == 1)
                          then old(cell.value).(status := Connecting) else old(cell.value)
    ensures (r.NoRoutes? <==> old(rt.table) == map[]) && (r.NoRoutes? ==> delay == 3000)
    ensures HasOverdue(old(rt.table), limit, clock(0)) ==> r.Timeout?
    ensures r.Sleep? ==> delay == r.duration && forall id :: id in rt.table ==> SleepsSafely(rt.table[id], limit, clock(0), delay)
  {
    hide RouteTables.Run, Pairs, SleepsSafely, HasOverdue, Apply;
    var cur := cell.value;
    r, readings := NextIdle(rt.table, limit, clock);
    match r
    case Timeout(ip, route) =>
      ghost var before := rt.table;
      EveryRunKeepsInv(rt.config, rt.history);
      RemovalDeletesOne(rt.config, before, ip, route.key);
      rt.RemoveRoute(ip, route.key);
      if IsGatewayIp(cur, ip) {
        var _ := cell.ChangeStatus(Connecting, []);
      }
      delay := 100;
    case Sleep(duration) => delay := duration;
    case NoRoutes => delay := 3000;
  }
}
