/** Routes to a peer: over which connection, how many links away, how fast. */
module Routes {
  import opened Bytes

  const DEFAULT_RT: int := 9999

  datatype ConnectProtocol = UDP | TCP | WS | WSS

  datatype SocketAddr = SocketAddr(ip: seq<byte>, port: nat)

  datatype RouteKey = RouteKey(protocol: ConnectProtocol, index: nat, addr: SocketAddr)

  datatype Route = Route(key: RouteKey, metric: nat, rt: int)

  predicate IsP2p(r: Route) {
    r.metric == 1
  }

  /** A route and the time something was last received over it. */
  datatype Entry = Entry(route: Route, time: int)

  function Rt(e: Entry): int { e.route.rt }

  /** The comparison by which lists are sorted. */
  predicate NoSlower(a: Entry, b: Entry) {
    Rt(a) <= Rt(b)
  }

  function KeyOf(e: Entry): RouteKey { e.route.key }

  predicate Direct(e: Entry) { IsP2p(e.route) }
}
