/** Control packets between clients: what they teach the route table, and how they are answered in place. */
module ClientControl {
  import opened Bytes
  import opened NetPackets
  import opened Primitives
  import opened Ciphers
  import opened CipherMethods
  import opened Routes
  import opened RouteTables
  import opened RouteTableClass
  import opened Relay

  const PING: byte := 1
  const PONG: byte := 2
  const PUNCH_REQUEST: byte := 3
  const PUNCH_RESPONSE: byte := 4
  const ADDR_REQUEST: byte := 5
  const ADDR_RESPONSE: byte := 6
  const PROTOCOL_CONTROL: byte := 3

  /** What the handler knows besides the packet. */
  datatype Context = Context(
    key: RouteKey, me: Ipv4Addr, now: int, now16: nat, onlyRelay: bool, isLocal: bool)

  /** `PingPacket::new` and its time. */
  predicate HasProbe(b: seq<byte>) {
    |b| >= HEAD_LEN + 4
  }

  function ProbeTime(b: seq<byte>): nat
    requires HasProbe(b)
  {
    Be16(b[12], b[13])
  }

  /** The route a decrypted control packet adds for its source, if any. */
  function Learned(b: seq<byte>, x: Context): (op: Option<Op>)
    requires |b| >= HEAD_LEN
    ensures op.Some? ==> op.value.Add? && op.value.id == Source(b) && op.value.route.key == x.key
  {
    var metric := Metric(b) as nat;
    if b[2] == PING && HasProbe(b) then Some(Add(Source(b), Route(x.key, metric, DEFAULT_RT), x.now, true))
    else if b[2] == PONG && HasProbe(b) && ProbeTime(b) <= x.now16 then
      Some(Add(Source(b), Route(x.key, metric, x.now16 - ProbeTime(b)), x.now, false))
    else if b[2] == PUNCH_RESPONSE && !x.onlyRelay && !x.isLocal then
      Some(Add(Source(b), Route(x.key, metric, DEFAULT_RT), x.now, true))
    else None
  }

  /** The route table after a control packet. */
  function Taught(c: Config, t: Table, b: seq<byte>, x: Context): Table
    requires |b| >= HEAD_LEN
  {
    var op := Learned(b, x);
    if op.Some? then Apply(c, t, op.value) else t
  }

  /** The list holds one route under `key`, with this path length and latency, heard of at `now`. */
  ghost predicate Holds(list: seq<Entry>, key: RouteKey, metric: nat, rt: int, now: int) {
    && Entry(Route(key, metric, rt), now) in list
    && forall e :: e in list && KeyOf(e) == key ==> e == Entry(Route(key, metric, rt), now)
  }

  /** Whether the table takes a route of that length: it may be one, and no shorter one comes before its key. */
  ghost predicate Takes(c: Config, list: seq<Entry>, key: RouteKey, metric: nat) {
    && (c.p2pOnly ==> metric == 1)
    && (c.firstLatency || !exists j :: ShorterBeforeKey(list, Route(key, metric, 0), 0, j))
  }

  /**
   * What control packets teach, in bytes. A pong whose time is not ahead of the clock: the way it came
   * is a route of the length travelled, and its latency and the time in the pong add up to the
   * clock. A ping, or a punch response that is not to be ignored: the same route with the default
   * latency, unless it is known. Where the table refuses the route, and for every other packet, it
   * stays as it is.
   */
  lemma ControlTeaches(c: Config, t: Table, b: seq<byte>, x: Context)
    requires |b| >= HEAD_LEN && PassesGuard(b) && DistinctTable(t)
    ensures var id, metric := FromOctets(b[4..8]), SourceTtlOf(b) - TtlOf(b) + 1;
            var before, after := ListOf(t, id), ListOf(Taught(c, t, b, x), id);
            var pong := b[2] == 2 && |b| >= 16 && Be16(b[12], b[13]) <= x.now16;
            var hello := (b[2] == 1 && |b| >= 16) || (b[2] == 4 && !x.onlyRelay && !x.isLocal);
            var known := exists e :: e in before && KeyOf(e) == x.key;
            var taken := Takes(c, before, x.key, metric);
            && (pong && taken ==> exists rt :: rt + Be16(b[12], b[13]) == x.now16 && Holds(after, x.key, metric, rt, x.now))
            && (hello && taken && !known ==> Holds(after, x.key, metric, 9999, x.now))
            && (!(pong && taken) && !(hello && taken && !known) ==> Taught(c, t, b, x) == t)
            && forall other :: other != id ==> ListOf(Taught(c, t, b, x), other) == ListOf(t, other)
  {
    hide FromOctets, PassesGuard, Apply, Metric, Be16, Holds, Takes;
    MetricDoesNotWrap(b);
    var id, metric := Source(b), Metric(b) as nat;
    if b[2] == 2 && HasProbe(b) && ProbeTime(b) <= x.now16 {
      AddTeaches(c, t, id, Route(x.key, metric, x.now16 - ProbeTime(b)), x.now, false);
    } else {
      AddTeaches(c, t, id, Route(x.key, metric, DEFAULT_RT), x.now, true);
    }
  }

  lemma AddTeaches(c: Config, t: Table, id: Ipv4Addr, route: Route, now: int, onlyIfAbsent: bool)
    requires DistinctTable(t)
    ensures var before, u := ListOf(t, id), Apply(c, t, Add(id, route, now, onlyIfAbsent));
            var known := exists e :: e in before && KeyOf(e) == route.key;
            && (Takes(c, before, route.key, route.metric) && !(onlyIfAbsent && known) ==>
                  Holds(ListOf(u, id), route.key, route.metric, route.rt, now))
            && (!Takes(c, before, route.key, route.metric) || (onlyIfAbsent && known) ==> u == t)
            && forall other :: other != id ==> ListOf(u, other) == ListOf(t, other)
  {
    var list := ListOf(t, id);
    ScanMeaning(list, route, c.firstLatency, 0);
    ScanRejects(list, route, c.firstLatency, 0);
    AddedElements(c, list, route, now, onlyIfAbsent);
    assert forall j :: ShorterBeforeKey(list, route, 0, j) <==> ShorterBeforeKey(list, Route(route.key, route.metric, 0), 0, j);
    var s := ScanFrom(list, route, c.firstLatency, 0);
    if s.Found? {
      assert list[s.at] in list;
    }
    if s.Shorter? || (s.Found? && onlyIfAbsent) {
      AddedUnchanged(c, list, route, now, onlyIfAbsent);
      assert id in t && t[id := t[id]] == t;
    }
  }

  /** The packet turned round: another code, a fresh ttl, from here to where it came from. */
  function TurnedRound(b: seq<byte>, transport: byte, ttl: byte, me: Ipv4Addr): (r: seq<byte>)
    requires |b| >= HEAD_LEN
    ensures |r| == |b|
  {
    [b[0], b[1], transport, FirstTtl(ttl)] + Octets(me) + b[4..8] + b[12..]
  }

  /** The answer, before encryption. */
  function Answer(b: seq<byte>, x: Context): (r: Option<seq<byte>>)
    requires |b| >= HEAD_LEN
    ensures r.Some? ==> |r.value| == |b|
  {
    if b[2] == PING && HasProbe(b) then Some(TurnedRound(b, PONG, MAX_TTL, x.me))
    else if b[2] == PUNCH_REQUEST && !x.onlyRelay && !x.isLocal then Some(TurnedRound(b, PUNCH_RESPONSE, 1, x.me))
    else None
  }

  /** To an address request over IPv4, a new packet: the address and port it was seen to come from. */
  function AddressAnswer(b: seq<byte>, x: Context): (r: Option<seq<byte>>)
    requires |b| >= HEAD_LEN && x.key.addr.port < 65536
    ensures r.Some? ==> |r.value| == HEAD_LEN + 6
  {
    if b[2] == ADDR_REQUEST && |x.key.addr.ip| == 4 then
      Some(FreshHead(0, PROTOCOL_CONTROL, ADDR_RESPONSE, MAX_TTL, x.me, Source(b)) + x.key.addr.ip + ToBe16(x.key.addr.port))
    else None
  }

  /** It opens at the one who asked, and tells that address and port. */
  lemma AddressAnswerTells(c: Cipher, b: seq<byte>, x: Context, slack: seq<byte>, random: seq<byte>)
    requires Laws(c) && |b| >= HEAD_LEN && x.key.addr.port < 65536 && |slack| == 12 && |random| == 16
    requires AddressAnswer(b, x).Some?
    ensures var r := AddressAnswer(b, x).value;
            && Open(c, Seal(c, r, slack, random)) == Some(r)
            && Encryptable(c, |r|, |r| + ENCRYPTION_RESERVED)
            && Source(r) == x.me && Destination(r) == Source(b)
            && r[12..16] == x.key.addr.ip && Be16(r[16], r[17]) == x.key.addr.port
            && r[1] == 3 && r[2] == 6
            && PassesGuard(r) && Metric(r) as nat == 1
  {
    hide Open, Seal, Octets, FromOctets, ByteOf, FreshHead, Be16;
    var r := AddressAnswer(b, x).value;
    var head := FreshHead(0, PROTOCOL_CONTROL, ADDR_RESPONSE, MAX_TTL, x.me, Source(b));
    var port := ToBe16(x.key.addr.port);
    assert r[..12] == head && r[12..16] == x.key.addr.ip && r[16] == port[0] && r[17] == port[1];
    FreshHeadIsPlain(PROTOCOL_CONTROL, ADDR_RESPONSE, x.me, Source(b));
    FieldsOfPrefix(r, head);
    SmallPacketFits(c, |r|);
    OpenOfSealed(c, r, slack, random);
    FlagOffTwice(r);
    assert r[4..8] == head[4..8] && r[8..12] == head[8..12];
    assert r[3] == head[3] && r[1] == head[1] && r[2] == head[2];
  }

  lemma FreshHeadIsPlain(protocol: byte, transport: byte, source: Ipv4Addr, destination: Ipv4Addr)
    ensures var head := FreshHead(0, protocol, transport, MAX_TTL, source, destination);
            !IsEncrypt(head) && PassesGuard(head) && Metric(head) as nat == 1
  {
    FirstTtlPasses(MAX_TTL);
  }

  lemma SmallPacketFits(c: Cipher, n: nat)
    requires HEAD_LEN <= n <= 64
    ensures WithinCap(c, n) && Encryptable(c, n, n + ENCRYPTION_RESERVED)
    ensures c.AesCbc? ==> EncryptedLen(c, n) - HEAD_LEN <= UDP_PAYLOAD_MAX
  {
    SpareBytesSuffice(c, n, n + ENCRYPTION_RESERVED);
  }

  /** Pings with room for a time are answered, punch requests unless they are to be ignored, address requests over IPv4. */
  lemma WhatIsAnswered(b: seq<byte>, x: Context)
    requires |b| >= HEAD_LEN && x.key.addr.port < 65536
    ensures Answer(b, x).Some? <==> (b[2] == 1 && |b| >= 16) || (b[2] == 3 && !x.onlyRelay && !x.isLocal)
    ensures AddressAnswer(b, x).Some? <==> b[2] == 5 && |x.key.addr.ip| == 4
  {}

  /** An answer goes back to the source, with the payload as it came, and starts at distance one. */
  lemma AnswerGoesBack(b: seq<byte>, x: Context)
    requires |b| >= HEAD_LEN && Answer(b, x).Some?
    ensures var r := Answer(b, x).value;
            && Destination(r) == Source(b) && Source(r) == x.me && r[HEAD_LEN..] == b[HEAD_LEN..]
            && r[0] == b[0] && IsEncrypt(r) == IsEncrypt(b) && IsExtension(r) == IsExtension(b)
            && r[1] == b[1] && r[2] == (if b[2] == 1 then 2 else 4)
            && TtlOf(r) == SourceTtlOf(r) == (if b[2] == 1 then 15 else 1)
            && PassesGuard(r) && Metric(r) as nat == 1
  {
    hide Octets, FromOctets;
    var r := Answer(b, x).value;
    OctetsRoundTrip(x.me);
    var transport, ttl := if b[2] == PING then PONG else PUNCH_RESPONSE, if b[2] == PING then MAX_TTL else 1;
    assert r == TurnedRound(b, transport, ttl, x.me);
    TurnedRoundFields(b, transport, ttl, x.me);
    FirstTtlPasses(ttl);
  }

  lemma TurnedRoundFields(b: seq<byte>, transport: byte, ttl: byte, me: Ipv4Addr)
    requires |b| >= HEAD_LEN
    ensures var r := TurnedRound(b, transport, ttl, me);
            && r[0] == b[0] && r[1] == b[1] && r[2] == transport && r[3] == FirstTtl(ttl) && r[4..8] == Octets(me) && r[8..12] == b[4..8] && r[12..] == b[12..]
  {
    hide Octets;
    var r, o := TurnedRound(b, transport, ttl, me), Octets(me);
    assert r[4..] == o + (b[4..8] + b[12..]);
    assert r[4..8] == r[4..][..4] == o;
    assert r[8..] == b[4..8] + b[12..];
    assert r[8..12] == r[8..][..4] == b[4..8];
    assert r[12..] == r[8..][4..] == b[12..];
  }

  lemma FirstTtlPasses(ttl: byte)
    requires 1 <= ttl <= 15
    ensures var v := FirstTtl(ttl);
            && !(v & MAX_TTL == 0 || v >> 4 < v & MAX_TTL) && ((v >> 4) - (v & MAX_TTL) + 1) as nat == 1
            && v & MAX_TTL == v >> 4 == ttl
  {}

  /**
   * Answering in the buffer the packet came in never fails for lack of room, and the answer
   * opens at the other end; only an SM4 packet its own sender could not have made is too long.
   */
  lemma AnswersFit(c: Cipher, w: seq<byte>, x: Context, slack: seq<byte>, random: seq<byte>)
    requires Laws(c) && |w| >= HEAD_LEN && Open(c, w).Some? && |slack| == 12 && |random| == 16
    requires Answer(Open(c, w).value, x).Some?
    ensures var r := Answer(Open(c, w).value, x).value;
            && (Encryptable(c, |r|, |w|) <==> !(c.Sm4Cbc? && |r| > SM4_SCRATCH - 32))
            && (Encryptable(c, |r|, |w|) ==> Open(c, Seal(c, r, slack, random)) == Some(r))
  {
    hide Open, Seal, Answer, Encryptable, Metric, PassesGuard;
    var b := Open(c, w).value;
    OpenKeepsHead(c, w);
    AnswerGoesBack(b, x);
    OpenedCanBeSealedInPlace(c, w);
    if !(c.Sm4Cbc? && |b| > SM4_SCRATCH - 32) {
      AnswerInPlace(c, w, Answer(b, x).value, slack, random);
    }
  }

  /** `set_transport_protocol`, `set_source`, `set_destination`, `first_set_ttl`. */
  method TurnRound(p: NetPacket, transport: byte, ttl: byte, me: Ipv4Addr)
    requires p.Valid()
    modifies p.buffer
    ensures p.Bytes() == TurnedRound(old(p.Bytes()), transport, ttl, me)
  {
    hide Octets, FromOctets, Splice;
    ghost var raw := p.Raw();
    var source := Source(p.buffer[..]);
    p.buffer[2] := transport;
    ghost var r1 := p.Raw();
    CopyInto(p.buffer, 4, Octets(me));
    ghost var r2 := p.Raw();
    CopyInto(p.buffer, 8, Octets(source));
    OctetsOfFromOctets(raw[4..8]);
    TurnedRoundLayout(raw, transport, Octets(me), raw[4..8], FirstTtl(ttl), p.dataLen);
    p.buffer[3] := (ttl << 4) | ttl;
  }

  lemma TurnedRoundLayout(raw: seq<byte>, transport: byte, me: seq<byte>, source: seq<byte>, b3: byte, n: nat)
    requires HEAD_LEN <= n <= |raw| && |me| == |source| == 4
    ensures Splice(Splice(raw[2 := transport], 4, me), 8, source)[3 := b3][..n]
            == [raw[0], raw[1], transport, b3] + me + source + raw[..n][12..]
  {}

  /** `control`: the route first, then the answer, encrypted over the packet that asked. */
  method Control(c: Cipher, p: NetPacket, table: RouteTable, x: Context, random: seq<byte>)
    returns (reply: Option<seq<byte>>, ghost slack: seq<byte>)
    requires p.Valid() && table.Valid() && Laws(c) && |random| == 16 && PassesGuard(p.Bytes())
    requires x.key.addr.port < 65536
    modifies p, p.buffer, table
    ensures table.Valid() && |slack| == 12
    ensures table.table == Taught(table.config, old(table.table), old(p.Bytes()), x)
    ensures var r, a := Answer(old(p.Bytes()), x), AddressAnswer(old(p.Bytes()), x);
            reply == if a.Some? then Some(Seal(c, a.value, slack, random))
                     else if r.Some? && Encryptable(c, |r.value|, p.buffer.Length) then Some(Seal(c, r.value, slack, random))
                     else None
  {
    hide TurnedRound, Apply, Seal, Encryptable, Metric, FromOctets, PassesGuard, RouteTables.Run, Octets;
    ghost var b := p.Bytes();
    HeaderOfPacket(p.Raw(), p.dataLen);
    slack := Zeros(12);
    reply := None;
    var metric := Metric(p.buffer[..]) as nat;
    var source := Source(p.buffer[..]);
    var code := p.buffer[2];
    if code == PING {
      if p.dataLen < HEAD_LEN + 4 {
        return;
      }
      var _ := table.AddRoute(source, Route(x.key, metric, DEFAULT_RT), x.now, true);
      TurnRound(p, PONG, MAX_TTL, x.me);
      reply, slack := EncryptAnswer(c, p, random);
    } else if code == PONG {
      if p.dataLen < HEAD_LEN + 4 || x.now16 < Be16(p.buffer[12], p.buffer[13]) {
        return;
      }
      var rt := x.now16 - Be16(p.buffer[12], p.buffer[13]);
      var _ := table.AddRoute(source, Route(x.key, metric, rt), x.now, false);
    } else if code == PUNCH_REQUEST {
      if x.onlyRelay || x.isLocal {
        return;
      }
      TurnRound(p, PUNCH_RESPONSE, 1, x.me);
      reply, slack := EncryptAnswer(c, p, random);
    } else if code == PUNCH_RESPONSE {
      if x.onlyRelay || x.isLocal {
        return;
      }
      var _ := table.AddRoute(source, Route(x.key, metric, DEFAULT_RT), x.now, true);
    } else if code == ADDR_REQUEST {
      if |x.key.addr.ip| != 4 {
        return;
      }
      reply, slack := AnswerAddress(c, b, x, source, random);
    }
  }

  /** The packet that tells the address, in a buffer of its own with room for any cipher. */
  method AnswerAddress(c: Cipher, ghost b: seq<byte>, x: Context, source: Ipv4Addr, random: seq<byte>)
    returns (reply: Option<seq<byte>>, ghost slack: seq<byte>)
    requires Laws(c) && |random| == 16 && x.key.addr.port < 65536 && |x.key.addr.ip| == 4
    requires |b| >= HEAD_LEN && b[2] == ADDR_REQUEST && source == Source(b)
    ensures |slack| == 12 && reply == Some(Seal(c, AddressAnswer(b, x).value, slack, random))
  {
    hide Seal, Encryptable, FreshHead, ByteOf, Octets, FromOctets, Splice;
    var buffer := new byte[12 + 6 + ENCRYPTION_RESERVED](_ => 0);
    ghost var raw := buffer[..];
    var packet := NetPacket.New0(buffer.Length - ENCRYPTION_RESERVED, buffer);
    packet.SetHead(PROTOCOL_CONTROL, ADDR_RESPONSE, MAX_TTL, x.me, source);
    CopyInto(buffer, HEAD_LEN, x.key.addr.ip);
    CopyInto(buffer, HEAD_LEN + 4, ToBe16(x.key.addr.port));
    ghost var head := FreshHead(0, PROTOCOL_CONTROL, ADDR_RESPONSE, MAX_TTL, x.me, source);
    AddressLayout(raw, head, x.key.addr.ip, ToBe16(x.key.addr.port));
    assert packet.Bytes() == AddressAnswer(b, x).value;
    SmallPacketFits(c, HEAD_LEN + 6);
    reply, slack := EncryptAnswer(c, packet, random);
  }

  lemma AddressLayout(raw: seq<byte>, head: seq<byte>, ip: seq<byte>, port: seq<byte>)
    requires |head| == HEAD_LEN && |ip| == 4 && |port| == 2 && |raw| >= HEAD_LEN + 6
    ensures Splice(Splice(Splice(raw, 0, head), HEAD_LEN, ip), HEAD_LEN + 4, port)[..HEAD_LEN + 6] == head + ip + port
  {}

  lemma HeaderOfPacket(raw: seq<byte>, n: nat)
    requires HEAD_LEN <= n <= |raw|
    ensures Source(raw[..n]) == Source(raw) && Metric(raw[..n]) == Metric(raw)
  {}
}
