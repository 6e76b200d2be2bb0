/** The route table as it is kept: one map of lists, updated in place. */
module RouteTableClass {
  import opened Bytes
  import opened Sorting
  import opened Routes
  import opened RouteTables

  class RouteTable {
    const config: Config
    var table: Table
    /** The critical sections so far, for stating what the table has become. */
    ghost var history: seq<Op>

    ghost predicate Valid()
      reads this
    {
      table == Run(config, EMPTY, history).table
    }

    constructor (config: Config)
      ensures Valid() && this.config == config && table == map[] && history == []
    {
      this.config := config;
      table := map[];
      history := [];
    }

    /** The read-locked look before `add_route_if_absent`. */
    method HasKey(id: Ipv4Addr, key: RouteKey) returns (found: bool)
      ensures found <==> exists i :: 0 <= i < |ListOf(table, id)| && KeyOf(ListOf(table, id)[i]) == key
    {
      if id in table {
        var list := table[id];
        for i := 0 to |list|
          invariant forall j :: 0 <= j < i ==> KeyOf(list[j]) != key
        {
          if KeyOf(list[i]) == key {
            assert KeyOf(ListOf(table, id)[i]) == key;
            return true;
          }
        }
      }
      return false;
    }

    /** `add_route_`: the channel type, the first look, then the write lock. */
    method AddRoute(id: Ipv4Addr, route: Route, now: int, onlyIfAbsent: bool) returns (ok: bool)
      requires Valid()
      modifies this
      ensures Valid() && history == old(history) + [Add(id, route, now, onlyIfAbsent)]
      ensures table == Apply(config, old(table), Add(id, route, now, onlyIfAbsent))
      ensures ok <==>
              && Admitted(config, route)
              && (|| Added(config, ListOf(old(table), id), route, now, onlyIfAbsent).0
                  || (onlyIfAbsent && exists i :: 0 <= i < |ListOf(old(table), id)| && KeyOf(ListOf(old(table), id)[i]) == route.key))
    {
      hide Run, Added;
      ghost var op := Add(id, route, now, onlyIfAbsent);
      RunOneMore(config, EMPTY, history, op);
      history := history + [op];
      if config.p2pOnly && !IsP2p(route) {
        return false;
      }
      if onlyIfAbsent {
        var found := HasKey(id, route.key);
        if found {
          KeepsPresent(config, table, id, route, now);
          return true;
        }
      }
      ok := AddLocked(id, route, now, onlyIfAbsent);
    }

    /** The write-locked part: metric before key in the loop, sort before push behind it. */
    method AddLocked(id: Ipv4Addr, route: Route, now: int, onlyIfAbsent: bool) returns (ok: bool)
      requires Admitted(config, route)
      modifies this`table
      ensures table == Apply(config, old(table), Add(id, route, now, onlyIfAbsent))
      ensures ok <==> Added(config, ListOf(old(table), id), route, now, onlyIfAbsent).0
    {
      hide SortBy, Retain;
      ghost var list0 := ListOf(table, id);
      if id !in table {
        table := table[id := []];
      }
      var list := table[id];
      var i := 0;
      while i < |list|
        invariant 0 <= i <= |list| && list == list0 && table == old(table)[id := list0]
        invariant ScanFrom(list, route, config.firstLatency, 0) == ScanFrom(list, route, config.firstLatency, i)
      {
        if list[i].route.metric < route.metric && !config.firstLatency {
          return false;
        }
        if KeyOf(list[i]) == route.key {
          if onlyIfAbsent {
            return true;
          }
          table := table[id := SortBy(list[i := Entry(route, now)], NoSlower)];
          return true;
        }
        i := i + 1;
      }
      if !config.firstLatency && IsP2p(route) {
        list := Retain(list, Direct);
      }
      table := table[id := SortBy(list, NoSlower) + [Entry(route, now)]];
      return true;
    }

    method RemoveRoute(id: Ipv4Addr, key: RouteKey)
      requires Valid()
      modifies this
      ensures Valid() && history == old(history) + [Remove(id, key)]
      ensures table == Apply(config, old(table), Remove(id, key))
    {
      RunOneMore(config, EMPTY, history, Remove(id, key));
      history := history + [Remove(id, key)];
      if id in table {
        var routes := Removed(table[id], key);
        table := table[id := routes];
        if |routes| == 0 {
          table := table - {id};
        }
      }
    }

    method UpdateReadTime(id: Ipv4Addr, key: RouteKey, now: int)
      requires Valid()
      modifies this
      ensures Valid() && history == old(history) + [Touch(id, key, now)]
      ensures table == Apply(config, old(table), Touch(id, key, now))
    {
      ghost var op := Touch(id, key, now);
      RunOneMore(config, EMPTY, history, op);
      history := history + [op];
      if id in table {
        var routes := table[id];
        for i := 0 to |routes|
          invariant table == old(table)
          invariant Touched(routes, key, now, 0) == Touched(routes, key, now, i)
        {
          if KeyOf(routes[i]) == key {
            table := table[id := routes[i := routes[i].(time := now)]];
            return;
          }
        }
        assert table[id := routes] == table;
      }
    }

    /** `get_route_by_id` and what its result means. */
    method GetRouteById(index: nat, id: Ipv4Addr) returns (r: Option<Route>)
      requires Valid()
      ensures r == Selected(config, ListOf(table, id), index)
      ensures config.firstLatency ==>
              && (r.Some? <==> id in table)
              && (r.Some? ==> forall e :: e in table[id] ==>
                    r.value.rt <= Rt(e)
                    || (id in Run(config, EMPTY, history).newest && KeyOf(e) == Run(config, EMPTY, history).newest[id]))
      ensures !config.firstLatency ==>
              (r.Some? <==> exists e :: e in ListOf(table, id) && Rt(e) != DEFAULT_RT)
    {
      hide Run;
      EveryRunKeepsInv(config, history);
      if config.firstLatency && id in table {
        SelectedIsFastestButNewest(config, history, id, index);
      }
      SelectedIsMeasuredIf(config, ListOf(table, id), index);
      if id !in table {
        return None;
      }
      var v := table[id];
      if config.firstLatency {
        return if |v| > 0 then Some(v[0].route) else None;
      }
      if |v| == 0 {
        return None;
      }
      if v[index % |v|].route.rt != DEFAULT_RT {
        return Some(v[index % |v|].route);
      }
      for i := 0 to |v|
        invariant FirstMeasured(v, 0) == FirstMeasured(v, i)
      {
        if v[i].route.rt != DEFAULT_RT {
          return Some(v[i].route);
        }
      }
      return None;
    }

    /** `route_one`, by which a relay chooses where to send. */
    method RouteOne(id: Ipv4Addr) returns (r: Option<Route>)
      requires Valid()
      ensures r.Some? <==> id in table
      ensures r.Some? ==> |table[id]| > 0 && r.value == table[id][0].route
    {
      EveryRunKeepsInv(config, history);
      r := if id in table && |table[id]| > 0 then Some(table[id][0].route) else None;
    }

    /** `route_one_p2p`, by which a broadcast finds the peers it can serve directly. */
    method RouteOneP2p(id: Ipv4Addr) returns (r: Option<Route>)
      ensures r == FirstDirect(ListOf(table, id), 0)
    {
      if id in table {
        var v := table[id];
        for i := 0 to |v|
          invariant FirstDirect(v, 0) == FirstDirect(v, i)
        {
          if IsP2p(v[i].route) {
            return Some(v[i].route);
          }
        }
      }
      return None;
    }
  }

  lemma SelectedIsMeasuredIf(c: Config, list: seq<Entry>, index: nat)
    ensures !c.firstLatency ==> (Selected(c, list, index).Some? <==> exists e :: e in list && Rt(e) != DEFAULT_RT)
  {
    if !c.firstLatency {
      SelectedIsMeasured(c, list, index);
    }
  }

  /** With the key there already, the second phase would change nothing either. */
  lemma KeepsPresent(c: Config, t: Table, id: Ipv4Addr, route: Route, now: int)
    requires Admitted(c, route)
    requires exists i :: 0 <= i < |ListOf(t, id)| && KeyOf(ListOf(t, id)[i]) == route.key
    ensures Apply(c, t, Add(id, route, now, true)) == t
  {
    ScanMeaning(ListOf(t, id), route, c.firstLatency, 0);
    assert t[id := t[id]] == t;
  }
}
