/** Relaying between clients: the guard every datagram passes, one relay, and whole networks. */
module Relay {
  import opened Bytes
  import opened NetPackets
  import opened Sorting
  import opened Routes
  import opened RouteTables
  import opened RouteTableClass
  import opened DeviceInfo

  const SELF_IP := Ipv4Addr(0x0000_0002)
  const BROADCAST := Ipv4Addr(0xFFFF_FFFF)

  predicate IsMulticast(ip: Ipv4Addr) {
    ip.bits & 0xF000_0000 == 0xE000_0000
  }

  function TtlOf(w: seq<byte>): (t: nat)
    requires |w| >= HEAD_LEN
  {
    Ttl(w) as nat
  }

  function SourceTtlOf(w: seq<byte>): (t: nat)
    requires |w| >= HEAD_LEN
  {
    SourceTtl(w) as nat
  }

  /** Past this the ttl has something left and is not above where it started. */
  predicate PassesGuard(w: seq<byte>)
    requires |w| >= HEAD_LEN
  {
    !(Ttl(w) == 0 || SourceTtl(w) < Ttl(w))
  }

  predicate IsForMe(dest: Ipv4Addr, me: Info) {
    || dest == me.virtualIp
    || dest == BROADCAST
    || IsMulticast(dest)
    || dest == SELF_IP
    || dest == UNSPECIFIED
    || dest == me.broadcastIp
  }

  /** What a client knows when a datagram comes in: nothing here is assumed consistent with any other client. */
  datatype Client = Client(me: Info, disableRelay: bool, routeOne: Ipv4Addr -> Option<Route>)

  /** Dropped, taken in by the handler of server packets or by that of client packets, or passed on. */
  datatype Outcome = Dropped | Mine(fromServer: bool) | Forwarded(packet: seq<byte>, over: RouteKey)

  /** `TurnPacketHandler::handle`. */
  function Turned(disableRelay: bool, routeOne: Ipv4Addr -> Option<Route>, w: seq<byte>, from: SocketAddr)
    : (o: Outcome)
    requires |w| >= HEAD_LEN && Ttl(w) != 0
    ensures !o.Mine? && (o.Forwarded? ==> |o.packet| == |w|)
  {
    if disableRelay then Dropped
    else
      var r := Relayed(w);
      if Ttl(r) == 0 || IsGateway(r) then Dropped
      else
        var route := routeOne(Destination(r));
        if route.None? || route.value.key.addr == from || route.value.metric > Ttl(r) as nat then Dropped
        else Forwarded(r, route.value.key)
  }

  /** `handle0`. */
  function Handled(c: Client, w: seq<byte>, from: SocketAddr): (o: Outcome)
    requires |w| >= HEAD_LEN
    ensures o.Forwarded? ==> |o.packet| == |w|
  {
    if !PassesGuard(w) then Dropped
    else if IsForMe(Destination(w), c.me) then Mine(IsGateway(w))
    else Turned(c.disableRelay, c.routeOne, w, from)
  }

  /** Whether four bytes of a header name an address that a client takes for its own. */
  predicate MeantFor(octets: seq<byte>, me: Info)
    requires |octets| == 4
  {
    || octets == Octets(me.virtualIp)
    || octets == Octets(me.broadcastIp)
    || octets == [255, 255, 255, 255]
    || octets[0] & 0xF0 == 224
    || octets == [0, 0, 0, 2]
    || octets == [0, 0, 0, 0]
  }

  lemma MeantForExactly(octets: seq<byte>, me: Info)
    requires |octets| == 4
    ensures IsForMe(FromOctets(octets), me) <==> MeantFor(octets, me)
  {
    OctetsRoundTrip(me.virtualIp);
    OctetsRoundTrip(me.broadcastIp);
    FromOctetsInjective(octets, Octets(me.virtualIp));
    FromOctetsInjective(octets, Octets(me.broadcastIp));
    FixedAddresses(octets);
  }

  lemma FixedAddresses(octets: seq<byte>)
    requires |octets| == 4
    ensures FromOctets(octets) == BROADCAST <==> octets == [255, 255, 255, 255]
    ensures FromOctets(octets) == SELF_IP <==> octets == [0, 0, 0, 2]
    ensures FromOctets(octets) == UNSPECIFIED <==> octets == [0, 0, 0, 0]
    ensures IsMulticast(FromOctets(octets)) <==> octets[0] & 0xF0 == 224
  {
    FromOctetsInjective(octets, [255, 255, 255, 255]);
    FromOctetsInjective(octets, [0, 0, 0, 2]);
    FromOctetsInjective(octets, [0, 0, 0, 0]);
  }

  /**
   * What a client does with a datagram, exactly: it drops one that fails the guard, takes one for
   * its own address, its broadcast address, the general broadcast address, a multicast address, 0.0.0.2
   * or no address, and forwards any other over its first route to the destination if it relays at all,
   * the ttl is more than one, the packet is not the server's, and the route does not lead back
   * and is no longer than the ttl then left.
   */
  lemma HandledExactly(c: Client, w: seq<byte>, from: SocketAddr)
    requires |w| >= HEAD_LEN
    ensures var o, passes := Handled(c, w, from), 0 < TtlOf(w) <= SourceTtlOf(w);
            var route := c.routeOne(FromOctets(w[8..12]));
            && (o.Mine? <==> passes && MeantFor(w[8..12], c.me))
            && (o.Mine? ==> (o.fromServer <==> w[0] & 0x40 != 0))
            && (o.Forwarded? <==>
                  && passes && !MeantFor(w[8..12], c.me) && !c.disableRelay && TtlOf(w) >= 2 && w[0] & 0x40 == 0
                  && route.Some? && route.value.key.addr != from && route.value.metric <= TtlOf(w) - 1)
            && (o.Forwarded? ==> o.over == route.value.key)
  {
    hide FromOctets, IsForMe, MeantFor;
    MeantForExactly(w[8..12], c.me);
    if Ttl(w) != 0 {
      PredNat(Ttl(w));
      PredNat(Ttl(w) - 1);
      var r := Relayed(w);
      assert r[8..12] == w[8..12];
      assert r[0] == r[..3][0] == w[0];
    }
  }

  /** The path length the receiver computes, in the width of the header field. */
  function Metric(w: seq<byte>): byte
    requires |w| >= HEAD_LEN
  {
    SourceTtl(w) - Ttl(w) + 1
  }

  /** Past the guard the subtraction does not wrap, for every datagram whatever its origin. */
  lemma MetricDoesNotWrap(w: seq<byte>)
    requires |w| >= HEAD_LEN && PassesGuard(w)
    ensures Metric(w) as nat == SourceTtlOf(w) - TtlOf(w) + 1
    ensures 1 <= Metric(w) as nat <= SourceTtlOf(w) <= 15
  {}

  /** A forwarded datagram is the one received with ttl one lower, and passes every next guard. */
  lemma ForwardedPassesNextGuard(c: Client, w: seq<byte>, from: SocketAddr)
    requires |w| >= HEAD_LEN && Handled(c, w, from).Forwarded?
    ensures var r := Handled(c, w, from).packet;
            && r == Relayed(w) && |r| == |w|
            && PassesGuard(r)
            && TtlOf(r) == TtlOf(w) - 1 && SourceTtlOf(r) == SourceTtlOf(w)
            && Metric(r) as nat == Metric(w) as nat + 1
  {}

  // ----- networks of clients -----

  /**
   * A datagram under way and, as history, the ttl it was sent with and how many links it has
   * crossed when it arrives.
   */
  datatype Flight = Flight(packet: seq<byte>, start: nat, links: nat)

  /**
   * One event anywhere in the network. Which client handles a datagram, and what its routing
   * table says at that moment, is left to the adversary.
   */
  datatype Event =
    | Send(packet: seq<byte>)
    | Hop(at: nat, client: Client, from: SocketAddr)
    | Lose(at: nat)
    | Duplicate(at: nat)

  function Without<T>(s: seq<T>, at: nat): seq<T>
    requires at < |s|
  {
    s[..at] + s[at + 1..]
  }

  /**
   * Any datagram with a whole header can be sent: one with a fresh ttl, the echo reply that goes
   * out with what the relays of its request left, or one that no client of this program makes.
   */
  predicate Possible(net: seq<Flight>, e: Event) {
    match e
    case Send(p) => |p| >= HEAD_LEN
    case Hop(at, c, from) => at < |net| && |net[at].packet| >= HEAD_LEN
    case Lose(at) => at < |net|
    case Duplicate(at) => at < |net|
  }

  function After(net: seq<Flight>, e: Event): seq<Flight>
    requires Possible(net, e)
  {
    match e
    case Send(p) => net + [Flight(p, TtlOf(p), 1)]
    case Hop(at, c, from) =>
      var o := Handled(c, net[at].packet, from);
      if o.Forwarded? then net[at := Flight(o.packet, net[at].start, net[at].links + 1)] else Without(net, at)
    case Lose(at) => Without(net, at)
    case Duplicate(at) => net + [net[at]]
  }

  ghost predicate FlightOk(f: Flight) {
    && |f.packet| >= HEAD_LEN
    && f.links == f.start - TtlOf(f.packet) + 1
    && f.links >= 1
    && (f.links > 1 ==> PassesGuard(f.packet))
    && (PassesGuard(f.packet) ==> f.start <= SourceTtlOf(f.packet))
  }

  ghost predicate NetOk(net: seq<Flight>) {
    forall i :: 0 <= i < |net| ==> FlightOk(net[i])
  }

  lemma AfterIsOk(net: seq<Flight>, e: Event)
    requires NetOk(net) && Possible(net, e)
    ensures NetOk(After(net, e))
  {}

  ghost predicate Run(nets: seq<seq<Flight>>, events: seq<Event>) {
    && |nets| == |events| + 1
    && nets[0] == []
    && forall k :: 0 <= k < |events| ==> Possible(nets[k], events[k]) && nets[k + 1] == After(nets[k], events[k])
  }

  lemma {:induction false} EveryNetIsOk(nets: seq<seq<Flight>>, events: seq<Event>, k: nat)
    requires Run(nets, events) && k <= |events|
    ensures NetOk(nets[k])
    decreases k
  {
    if k > 0 {
      EveryNetIsOk(nets, events, k - 1);
      AfterIsOk(nets[k - 1], events[k - 1]);
      assert nets[k - 1 + 1] == After(nets[k - 1], events[k - 1]);
    }
  }

  /** Sent as `first_set_ttl` makes it. */
  predicate Fresh(f: Flight)
    requires |f.packet| >= HEAD_LEN
  {
    f.start == SourceTtlOf(f.packet)
  }

  /**
   * In every network and at every moment, whatever was sent: only at its first stop can a datagram
   * fail the guard. Where the guard lets it pass, it has been relayed less often than the ttl it
   * was sent with, and the path length computed there is the number of links it has crossed plus
   * the ttl that was already spent when it was sent: that number exactly for what was sent fresh.
   */
  lemma MetricIsLinksCrossed(nets: seq<seq<Flight>>, events: seq<Event>, k: nat, i: nat)
    requires Run(nets, events) && k <= |events| && i < |nets[k]|
    ensures var f := nets[k][i];
            && |f.packet| >= HEAD_LEN
            && 1 <= f.links == f.start - TtlOf(f.packet) + 1
            && (f.links > 1 ==> PassesGuard(f.packet))
            && (PassesGuard(f.packet) ==>
                && f.links <= f.start <= SourceTtlOf(f.packet) <= 15
                && Metric(f.packet) as nat == f.links + (SourceTtlOf(f.packet) - f.start)
                && (Metric(f.packet) as nat == f.links <==> Fresh(f)))
  {
    EveryNetIsOk(nets, events, k);
    var f := nets[k][i];
    assert FlightOk(f);
    if PassesGuard(f.packet) {
      MetricDoesNotWrap(f.packet);
      NothingLeft(f.packet);
    }
  }

  lemma NothingLeft(w: seq<byte>)
    requires |w| >= HEAD_LEN
    ensures TtlOf(w) == 0 <==> Ttl(w) == 0
  {}

  /** What is left of a datagram; one sent with nothing left counts one, for the stop that drops it. */
  function FlightTtl(f: Flight): nat {
    if |f.packet| >= HEAD_LEN && TtlOf(f.packet) != 0 then TtlOf(f.packet) else 1
  }

  function TotalTtl(net: seq<Flight>): nat {
    if |net| == 0 then 0 else TotalTtl(net[..|net| - 1]) + FlightTtl(net[|net| - 1])
  }

  lemma {:induction false} TotalSplits(net: seq<Flight>, at: nat)
    requires at < |net|
    ensures TotalTtl(net) == TotalTtl(Without(net, at)) + FlightTtl(net[at])
    decreases |net|
  {
    var n := |net| - 1;
    if at < n {
      TotalSplits(net[..n], at);
      assert Without(net, at)[..n - 1] == Without(net[..n], at);
    } else {
      assert Without(net, at) == net[..n];
    }
  }

  lemma TotalReplaced(net: seq<Flight>, at: nat, f: Flight)
    requires at < |net|
    ensures TotalTtl(net[at := f]) == TotalTtl(net) - FlightTtl(net[at]) + FlightTtl(f)
  {
    TotalSplits(net, at);
    TotalSplits(net[at := f], at);
    assert Without(net[at := f], at) == Without(net, at);
  }

  /** Every relay step, and every drop, delivery or loss, lowers the total ttl of what is under way. */
  lemma TotalTtlFalls(net: seq<Flight>, e: Event)
    requires NetOk(net) && Possible(net, e) && (e.Hop? || e.Lose?)
    ensures TotalTtl(After(net, e)) < TotalTtl(net)
    ensures e.Hop? && Handled(e.client, net[e.at].packet, e.from).Forwarded? ==> TotalTtl(After(net, e)) == TotalTtl(net) - 1
  {
    hide Handled, TotalTtl;
    assert FlightOk(net[e.at]);
    TotalSplits(net, e.at);
    if e.Hop? && Handled(e.client, net[e.at].packet, e.from).Forwarded? {
      ForwardedPassesNextGuard(e.client, net[e.at].packet, e.from);
      NothingLeft(Handled(e.client, net[e.at].packet, e.from).packet);
      TotalReplaced(net, e.at, Flight(Handled(e.client, net[e.at].packet, e.from).packet, net[e.at].start, net[e.at].links + 1));
    }
  }

  /** So once nobody sends and nothing is duplicated, the network is quiet after at most that many steps. */
  lemma {:induction false} NetworkFallsQuiet(nets: seq<seq<Flight>>, events: seq<Event>)
    requires |nets| == |events| + 1 && NetOk(nets[0])
    requires forall k :: 0 <= k < |events| ==>
               && (events[k].Hop? || events[k].Lose?)
               && Possible(nets[k], events[k]) && nets[k + 1] == After(nets[k], events[k])
    ensures NetOk(nets[|events|]) && |events| + TotalTtl(nets[|events|]) <= TotalTtl(nets[0])
    decreases |events|
  {
    hide TotalTtl, NetOk, After, Possible;
    if |events| > 0 {
      var n := |events| - 1;
      NetworkFallsQuiet(nets[..n + 1], events[..n]);
      AfterIsOk(nets[n], events[n]);
      TotalTtlFalls(nets[n], events[n]);
      assert nets[n + 1] == After(nets[n], events[n]);
    }
  }

  /**
   * What a ping teaches its receiver: the route inserted for the sender is as long as the path it
   * came, and longer by what was spent before if it was not sent fresh.
   */
  lemma PingRecordsLinksCrossed(
    nets: seq<seq<Flight>>, events: seq<Event>, k: nat, i: nat, c: Config, t: Table, key: RouteKey, now: int)
    requires Run(nets, events) && k <= |events| && i < |nets[k]| && |nets[k][i].packet| >= HEAD_LEN
    requires DistinctTable(t) && PassesGuard(nets[k][i].packet)
    requires var f := nets[k][i];
             var route := Route(key, Metric(f.packet) as nat, DEFAULT_RT);
             Inserts(c, t, Add(Source(f.packet), route, now, true))
    ensures var f := nets[k][i];
            var route := Route(key, Metric(f.packet) as nat, DEFAULT_RT);
            && Entry(route, now) in ListOf(Apply(c, t, Add(Source(f.packet), route, now, true)), Source(f.packet))
            && route.metric == f.links + (SourceTtlOf(f.packet) - f.start)
            && (route.metric == f.links <==> Fresh(f))
  {
    hide PassesGuard, Metric;
    MetricIsLinksCrossed(nets, events, k, i);
    var f := nets[k][i];
    AddedElements(c, ListOf(t, Source(f.packet)), Route(key, Metric(f.packet) as nat, DEFAULT_RT), now, true);
  }

  ghost predicate DistinctTable(t: Table) {
    forall id :: DistinctBy(ListOf(t, id), KeyOf)
  }

  // ----- the handlers -----

  /** What `route_one` answers while a table stays as it is. */
  function FirstRoutes(t: Table): Ipv4Addr -> Option<Route> {
    (id: Ipv4Addr) => if id in t && |t[id]| > 0 then Some(t[id][0].route) else None
  }

  /** The first of the peer's list, if it has one. */
  lemma FirstRouteIs(t: Table, id: Ipv4Addr)
    ensures id in t && |t[id]| > 0 ==> FirstRoutes(t)(id) == Some(t[id][0].route)
    ensures id !in t || |t[id]| == 0 ==> FirstRoutes(t)(id) == None
  {}

  /** `TurnPacketHandler::handle`: the ttl is lowered in the buffer, then the packet goes out or not. */
  method TurnHandle(p: NetPacket, from: RouteKey, table: RouteTable, disableRelay: bool) returns (o: Outcome)
    requires p.Valid() && table.Valid() && Ttl(p.Raw()) != 0
    modifies p.buffer
    ensures Ttl(old(p.Bytes())) != 0 && o == Turned(disableRelay, FirstRoutes(table.table), old(p.Bytes()), from.addr)
    ensures p.Raw() == if disableRelay then old(p.Raw()) else Relayed(old(p.Raw()))
  {
    hide WithTtl, FromOctets, IsGateway, table.Valid;
    ghost var raw, w := p.Raw(), p.Bytes();
    RelayedPrefix(raw, p.dataLen);
    if disableRelay {
      return Dropped;
    }
    var ttl := p.IncrTtl();
    assert p.Bytes() == Relayed(w);
    if ttl > 0 {
      if IsGateway(p.buffer[..]) {
        return Dropped;
      }
      var destination := Destination(p.buffer[..]);
      var route := table.RouteOne(destination);
      if route.Some? {
        if route.value.key.addr == from.addr {
          return Dropped;
        }
        if route.value.metric <= ttl as nat {
          return Forwarded(p.buffer[..p.dataLen], route.value.key);
        }
      }
    }
    return Dropped;
  }

  /** `handle0`: guard, dispatch, relay. */
  method Handle(p: NetPacket, from: RouteKey, table: RouteTable, me: Info, disableRelay: bool) returns (o: Outcome)
    requires p.Valid() && table.Valid()
    modifies p.buffer
    ensures o == Handled(Client(me, disableRelay, FirstRoutes(table.table)), old(p.Bytes()), from.addr)
    ensures o.Mine? ==> p.Raw() == old(p.Raw())
  {
    hide Turned, FromOctets, table.Valid, FirstRoutes;
    HeaderOfPrefix(p.Raw(), p.dataLen);
    if Ttl(p.buffer[..]) == 0 || SourceTtl(p.buffer[..]) < Ttl(p.buffer[..]) {
      return Dropped;
    }
    var dest := Destination(p.buffer[..]);
    if IsForMe(dest, me) {
      return Mine(IsGateway(p.buffer[..]));
    }
    o := TurnHandle(p, from, table, disableRelay);
  }

  lemma HeaderOfPrefix(raw: seq<byte>, n: nat)
    requires HEAD_LEN <= n <= |raw|
    ensures Ttl(raw[..n]) == Ttl(raw) && SourceTtl(raw[..n]) == SourceTtl(raw)
    ensures Destination(raw[..n]) == Destination(raw) && IsGateway(raw[..n]) == IsGateway(raw)
  {
    assert raw[8..12] == raw[..n][8..12];
  }

  lemma RelayedPrefix(raw: seq<byte>, n: nat)
    requires HEAD_LEN <= n <= |raw| && Ttl(raw) != 0
    ensures Ttl(raw[..n]) == Ttl(raw) && Relayed(raw)[..n] == Relayed(raw[..n])
    ensures Destination(Relayed(raw)) == Destination(raw) == Destination(Relayed(raw[..n]))
    ensures IsGateway(Relayed(raw)) == IsGateway(raw) == IsGateway(Relayed(raw[..n]))
    ensures Ttl(Relayed(raw[..n])) == Ttl(Relayed(raw))
  {
    assert Relayed(raw)[8..12] == raw[8..12] == raw[..n][8..12] == Relayed(raw[..n])[8..12];
  }
}
