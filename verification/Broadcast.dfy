/**
 * Broadcasts: some peers are served directly, the rest by the server, which is told in the
 * packet whom to leave out.
 */
module Broadcast {
  import opened Bytes
  import opened NetPackets
  import opened Primitives
  import opened Ciphers
  import opened CipherMethods
  import opened Sorting
  import opened Routes
  import opened RouteTables
  import opened RouteTableClass

  const MAX_COUNT := 8
  const IPV4_BROADCAST: byte := 201

  // ----- the wire format -----

  function Joined(addresses: seq<Ipv4Addr>): (s: seq<byte>)
    ensures |s| == 4 * |addresses|
  {
    if |addresses| == 0 then []
    else Joined(addresses[..|addresses| - 1]) + Octets(addresses[|addresses| - 1])
  }

  /** Number of addresses, the addresses, the inner packet. */
  function Encoded(addresses: seq<Ipv4Addr>, data: seq<byte>): (s: seq<byte>)
    requires |addresses| <= 255
    ensures |s| == 1 + 4 * |addresses| + |data|
  {
    [ByteOf(|addresses|)] + Joined(addresses) + data
  }

  /** `BroadcastPacket::new` accepts these. */
  predicate Acceptable(v: seq<byte>) {
    |v| >= 6 && v[0] != 0
  }

  /** The address at each of the places the count announces. */
  function AddressAt(v: seq<byte>, i: nat): Ipv4Addr
    requires 5 + 4 * i <= |v|
  {
    FromOctets(v[1 + 4 * i..5 + 4 * i])
  }

  function AddressesIn(v: seq<byte>, n: nat): (list: seq<Ipv4Addr>)
    requires 1 + 4 * n <= |v|
    ensures |list| == n && forall i :: 0 <= i < n ==> list[i] == AddressAt(v, i)
  {
    seq(n, i requires 0 <= i < n => AddressAt(v, i))
  }

  class BroadcastPacket {
    const buffer: array<byte>
    const from: nat
    const to: nat

    ghost predicate Valid() {
      from < to <= buffer.Length
    }

    ghost function View(): (v: seq<byte>)
      requires Valid()
      reads buffer
      ensures |v| == to - from
    {
      buffer[from..to]
    }

    constructor Unchecked(buffer: array<byte>, from: nat, to: nat)
      requires from < to <= buffer.Length
      ensures Valid() && this.buffer == buffer && this.from == from && this.to == to
    {
      this.buffer, this.from, this.to := buffer, from, to;
    }

    /** `addresses`; `None` is where it reads behind the buffer and panics. */
    method Addresses() returns (r: Option<seq<Ipv4Addr>>)
      requires Valid()
      ensures var n := View()[0] as nat;
              r == if 1 + 4 * n > |View()| then None else Some(AddressesIn(View(), n))
    {
      var num := buffer[from] as nat;
      if 1 + 4 * num > to - from {
        return None;
      }
      var list := [];
      for i := 0 to num
        invariant |list| == i
        invariant forall j :: 0 <= j < i ==> list[j] == AddressAt(View(), j)
      {
        var offset := 1 + 4 * i;
        SliceOfSlice(buffer[..], from, to, offset, offset + 4);
        list := list + [FromOctets(buffer[from + offset..from + offset + 4])];
      }
      assert list == AddressesIn(View(), num);
      r := Some(list);
    }

    method Data() returns (data: Option<seq<byte>>)
      requires Valid()
      ensures data == if 1 + 4 * View()[0] as nat > |View()| then None else Some(View()[1 + 4 * View()[0] as nat..])
    {
      var start := 1 + buffer[from] as nat * 4;
      if start > to - from {
        return None;
      }
      SliceOfSlice(buffer[..], from, to, start, to - from);
      data := Some(buffer[from + start..to]);
    }

    method SetAddress(addresses: seq<Ipv4Addr>) returns (ok: bool)
      requires Valid()
      modifies buffer
      ensures ok <==> 1 + 4 * |addresses| <= to - from && |addresses| <= 255
      ensures !ok ==> buffer[..] == old(buffer[..])
      ensures ok ==> buffer[..] == Splice(old(buffer[..]), from, [ByteOf(|addresses|)] + Joined(addresses))
    {
      hide Octets, ByteOf, Splice;
      if to - from < 1 + 4 * |addresses| || |addresses| > 255 {
        assert buffer[..] == old(buffer[..]);
        return false;
      }
      ghost var raw := buffer[..];
      CopyInto(buffer, from, [ByteOf(|addresses|)]);
      var i := 0;
      assert [ByteOf(|addresses|)] + Joined(addresses[..0]) == [ByteOf(|addresses|)];
      while i < |addresses|
        invariant 0 <= i <= |addresses|
        invariant buffer[..] == Splice(raw, from, [ByteOf(|addresses|)] + Joined(addresses[..i]))
      {
        SpliceOn(raw, from, [ByteOf(|addresses|)] + Joined(addresses[..i]), Octets(addresses[i]));
        CopyInto(buffer, from + 1 + 4 * i, Octets(addresses[i]));
        assert addresses[..i + 1][..i] == addresses[..i];
        assert [ByteOf(|addresses|)] + Joined(addresses[..i]) + Octets(addresses[i])
               == [ByteOf(|addresses|)] + (Joined(addresses[..i]) + Octets(addresses[i]));
        i := i + 1;
      }
      assert addresses[..i] == addresses;
      ok := true;
    }

    method SetData(data: seq<byte>) returns (ok: bool)
      requires Valid()
      modifies buffer
      ensures var start := 1 + 4 * old(View())[0] as nat;
              && (ok <==> start < to - from && start + |data| == to - from)
              && (ok ==> buffer[..] == Splice(old(buffer[..]), from + start, data))
      ensures !ok ==> buffer[..] == old(buffer[..])
    {
      var start := 1 + 4 * buffer[from] as nat;
      if start >= to - from || start + |data| != to - from {
        return false;
      }
      CopyInto(buffer, from + start, data);
      ok := true;
    }
  }

  lemma SliceOfSlice(s: seq<byte>, from: nat, to: nat, a: nat, b: nat)
    requires from <= to <= |s| && a <= b <= to - from
    ensures s[from..to][a..b] == s[from + a..from + b]
  {
    var x := s[from..to];
    forall i | 0 <= i < b - a ensures x[a..b][i] == s[from + a..from + b][i] {
      assert x[a..b][i] == x[a + i] == s[from + (a + i)];
    }
  }

  lemma SpliceOn(s: seq<byte>, at: nat, x: seq<byte>, y: seq<byte>)
    requires at + |x| + |y| <= |s|
    ensures Splice(Splice(s, at, x), at + |x|, y) == Splice(s, at, x + y)
  {}

  lemma {:induction false} JoinedAt(addresses: seq<Ipv4Addr>, i: nat)
    requires i < |addresses|
    ensures Joined(addresses)[4 * i..4 * i + 4] == Octets(addresses[i])
  {
    hide Octets;
    var n := |addresses| - 1;
    if i < n {
      JoinedAt(addresses[..n], i);
      assert Joined(addresses)[4 * i..4 * i + 4] == Joined(addresses[..n])[4 * i..4 * i + 4];
    }
  }

  /** What was encoded is decoded: the count, every address, and the inner packet. */
  lemma EncodedDecodes(addresses: seq<Ipv4Addr>, data: seq<byte>)
    requires |addresses| <= 255
    ensures var v := Encoded(addresses, data);
            && v[0] as nat == |addresses|
            && AddressesIn(v, |addresses|) == addresses
            && v[1 + 4 * |addresses|..] == data
            && (Acceptable(v) <==> |addresses| > 0 && 4 * |addresses| + |data| >= 5)
  {
    hide Octets, FromOctets, ByteOf;
    var v, n := Encoded(addresses, data), |addresses|;
    CountByte(v[0], n);
    assert v[1..] == Joined(addresses) + data;
    assert v[1 + 4 * n..] == v[1..][4 * n..] == data;
    forall i | 0 <= i < n ensures AddressAt(v, i) == addresses[i] {
      AddressStands(v, addresses, data, i);
      OctetsRoundTrip(addresses[i]);
    }
    assert AddressesIn(v, n) == addresses;
  }

  /** The format in bytes: the number of addresses, the octets of each, then the inner packet. */
  lemma EncodedBytes(addresses: seq<Ipv4Addr>, data: seq<byte>, i: nat)
    requires i < |addresses| <= 255
    ensures var v := Encoded(addresses, data);
            && v[0] as nat == |addresses|
            && v[1 + 4 * i..5 + 4 * i] == Octets(addresses[i])
            && v[1 + 4 * |addresses|..] == data
  {
    hide Octets, ByteOf;
    EncodedDecodes(addresses, data);
    var v := Encoded(addresses, data);
    assert v[1..] == Joined(addresses) + data;
    AddressStands(v, addresses, data, i);
  }

  lemma AddressStands(v: seq<byte>, addresses: seq<Ipv4Addr>, data: seq<byte>, i: nat)
    requires |v| > 0 && v[1..] == Joined(addresses) + data && i < |addresses|
    ensures v[1 + 4 * i..5 + 4 * i] == Octets(addresses[i])
  {
    hide Octets, Joined;
    JoinedAt(addresses, i);
    var joined := Joined(addresses);
    var x, y := v[1 + 4 * i..5 + 4 * i], joined[4 * i..4 * i + 4];
    forall k | 0 <= k < 4 ensures x[k] == y[k] {
      assert x[k] == v[1..][4 * i + k] == joined[4 * i + k];
    }
  }

  lemma CountByte(b: byte, n: nat)
    requires b as nat == n
    ensures b != 0 <==> n > 0
  {}

  // ----- who is served how -----

  datatype Peer = Peer(ip: Ipv4Addr, wireguard: bool, online: bool)

  /** The peers a broadcast is for. */
  function Audience(peers: seq<Peer>): (r: seq<Ipv4Addr>)
    ensures forall ip :: ip in r <==> exists p :: p in peers && !p.wireguard && p.online && p.ip == ip
  {
    if |peers| == 0 then []
    else
      var last := peers[|peers| - 1];
      assert peers == peers[..|peers| - 1] + [last];
      Audience(peers[..|peers| - 1]) + if !last.wireguard && last.online then [last.ip] else []
  }

  /** Only the first nine are tried directly. */
  function Tried(list: seq<Ipv4Addr>): seq<Ipv4Addr> {
    if |list| > MAX_COUNT + 1 then list[..MAX_COUNT + 1] else list
  }

  /** What a broadcast does: the peers sent to directly, then what goes to the server, if anything. */
  datatype ToServer = Nothing | Plain | WithList(wire: seq<byte>) | Unsendable

  datatype Outcome = Outcome(direct: seq<Ipv4Addr>, server: ToServer)

  /** Direct sends that succeed, for a given reachability. */
  function Direct(list: seq<Ipv4Addr>, reachable: Ipv4Addr -> bool): seq<Ipv4Addr> {
    Retain(Tried(list), reachable)
  }

  /** The packet for the server before encryption. */
  function ServerPacket(inner: seq<byte>, direct: seq<Ipv4Addr>): (p: seq<byte>)
    requires |inner| >= HEAD_LEN && |direct| <= 255
    ensures |p| == HEAD_LEN + 1 + 4 * |direct| + |inner|
  {
    WithGatewayFlag(
      FreshHead(0, PROTOCOL_IP_TURN, IPV4_BROADCAST, MAX_TTL, Source(inner), Destination(inner)), true)
    + Encoded(direct, inner)
  }

  /** What the server makes of a datagram with a list: whom to leave out, and the packet to pass on. */
  function ServerReads(c: Cipher, wire: seq<byte>): (r: Option<(seq<Ipv4Addr>, seq<byte>)>)
    requires Laws(c)
  {
    var p := if |wire| < HEAD_LEN then None else Open(c, wire);
    if p.None? || !Acceptable(p.value[HEAD_LEN..]) then None
    else
      var v := p.value[HEAD_LEN..];
      var n := v[0] as nat;
      if 1 + 4 * n > |v| then None else Some((AddressesIn(v, n), v[1 + 4 * n..]))
  }

  /** What a peer gets through the server, which passes a packet on to everybody it does not find listed. */
  function ThroughServer(c: Cipher, o: Outcome, inner: seq<byte>, list: seq<Ipv4Addr>, ip: Ipv4Addr): Option<seq<byte>>
    requires Laws(c)
  {
    match o.server
    case Nothing => None
    case Plain => if ip in list then Some(inner) else None
    case WithList(wire) =>
      var read := ServerReads(c, wire);
      if read.Some? && ip in list && ip !in read.value.0 then Some(read.value.1) else None
    case Unsendable => None
  }

  /** Whether the server's cipher agrees to encrypt a packet of `n` bytes and to decrypt it again. */
  predicate Listable(c: Cipher, n: nat)
    requires n >= HEAD_LEN
  {
    WithinCap(c, n) && (c.AesCbc? ==> EncryptedLen(c, n) - HEAD_LEN <= UDP_PAYLOAD_MAX)
  }

  /** The outcome when the device is online. */
  ghost predicate IsOutcome(list: seq<Ipv4Addr>, reachable: Ipv4Addr -> bool, inner: seq<byte>, c: Cipher, random: seq<byte>, o: Outcome)
    requires Laws(c) && |inner| >= HEAD_LEN && |random| == 16
  {
    && o.direct == Direct(list, reachable)
    && |o.direct| <= 9
    && var complete := |list| <= 9 && forall ip :: ip in list ==> reachable(ip);
       match o.server {
         case Nothing => complete
         case Plain => !complete && o.direct == []
         case WithList(wire) =>
           && !complete && o.direct != [] && WithinCap(c, |ServerPacket(inner, o.direct)|)
           && exists slack :: |slack| == 12 && wire == Seal(c, ServerPacket(inner, o.direct), slack, random)
         case Unsendable => !complete && o.direct != [] && !WithinCap(c, |ServerPacket(inner, o.direct)|)
       }
  }

  /** What the server reads: exactly the peers served directly, at most nine, and the packet as they got it. */
  lemma ServerReadsListAndPacket(
    list: seq<Ipv4Addr>, reachable: Ipv4Addr -> bool, inner: seq<byte>, c: Cipher, random: seq<byte>, o: Outcome)
    requires Laws(c) && |inner| >= HEAD_LEN && |random| == 16
    requires IsOutcome(list, reachable, inner, c, random, o)
    ensures o.server.WithList? ==>
            ServerReads(c, o.server.wire) ==
            if Listable(c, |ServerPacket(inner, o.direct)|) then Some((o.direct, inner)) else None
  {
    hide Seal, Open, ServerPacket, WithinCap, ServerReads;
    if o.server.WithList? {
      var p := ServerPacket(inner, o.direct);
      var slack :| |slack| == 12 && o.server.wire == Seal(c, p, slack, random);
      ServerPacketIsPlain(inner, o.direct);
      OpenOfSealed(c, p, slack, random);
      ServerReadsOpened(c, o.server.wire, inner, o.direct);
    }
  }

  lemma ServerReadsOpened(c: Cipher, wire: seq<byte>, inner: seq<byte>, direct: seq<Ipv4Addr>)
    requires Laws(c) && |wire| >= HEAD_LEN && |inner| >= HEAD_LEN && 0 < |direct| <= 9
    ensures Open(c, wire).None? ==> ServerReads(c, wire) == None
    ensures Open(c, wire) == Some(ServerPacket(inner, direct)) ==> ServerReads(c, wire) == Some((direct, inner))
  {
    hide Open, Encoded, ServerPacket, AddressesIn;
    ServerPacketIsPlain(inner, direct);
    EncodedDecodes(direct, inner);
  }

  /** Both sides of that limit are real: such a packet is encrypted and sent, and the server cannot open it. */
  lemma ListingCanBeUnreadable(inner: seq<byte>, direct: seq<Ipv4Addr>, c: Cipher)
    requires c.AesCbc? && c.finger.None? && |inner| >= HEAD_LEN && |direct| <= 9
    requires |inner| + 1 + 4 * |direct| == 65484
    ensures WithinCap(c, |ServerPacket(inner, direct)|) && !Listable(c, |ServerPacket(inner, direct)|)
  {}

  /**
   * For every peer of the audience: it is sent to directly, or gets the very same packet through the
   * server, and never both. It gets nothing exactly if it was not served directly although others were,
   * and the packet with their list is too long for the server's cipher, on either side.
   */
  lemma EverybodyIsServedOnce(
    list: seq<Ipv4Addr>, reachable: Ipv4Addr -> bool, inner: seq<byte>, c: Cipher, random: seq<byte>, o: Outcome, ip: Ipv4Addr)
    requires Laws(c) && |inner| >= HEAD_LEN && |random| == 16
    requires IsOutcome(list, reachable, inner, c, random, o)
    ensures ip in o.direct ==> ip in list && reachable(ip)
    ensures ip in list ==>
            ThroughServer(c, o, inner, list, ip) ==
            if ip in o.direct || (o.direct != [] && !Listable(c, |ServerPacket(inner, o.direct)|)) then None
            else Some(inner)
  {
    hide ServerReads, Seal, WithinCap, ServerPacket;
    RetainElements(Tried(list), reachable);
    match o.server
    case Nothing => assert Tried(list) == list;
    case Plain =>
    case WithList(wire) => ServerReadsListAndPacket(list, reachable, inner, c, random, o);
    case Unsendable =>
  }

  /** Whether nobody is left out. */
  ghost predicate AllServed(c: Cipher, o: Outcome, inner: seq<byte>, list: seq<Ipv4Addr>)
    requires Laws(c)
  {
    forall ip :: ip in list ==> ip in o.direct || ThroughServer(c, o, inner, list, ip) == Some(inner)
  }

  /** Nobody is, exactly if all are served directly, or none is, or the packet with the list is short enough. */
  lemma AllServedExactlyWhen(
    list: seq<Ipv4Addr>, reachable: Ipv4Addr -> bool, inner: seq<byte>, c: Cipher, random: seq<byte>, o: Outcome)
    requires Laws(c) && |inner| >= HEAD_LEN && |random| == 16
    requires IsOutcome(list, reachable, inner, c, random, o) && DistinctBy(list, (ip: Ipv4Addr) => ip)
    ensures AllServed(c, o, inner, list) <==>
            || (|list| <= 9 && forall ip :: ip in list ==> reachable(ip))
            || o.direct == []
            || Listable(c, |ServerPacket(inner, o.direct)|)
  {
    hide ThroughServer, ServerPacket, Listable, WithinCap, Seal;
    forall ip | ip in list
      ensures ip in o.direct || ThroughServer(c, o, inner, list, ip) == Some(inner)
              <==> ip in o.direct || o.direct == [] || Listable(c, |ServerPacket(inner, o.direct)|)
    {
      EverybodyIsServedOnce(list, reachable, inner, c, random, o, ip);
    }
    RetainElements(Tried(list), reachable);
    if |list| > 9 {
      assert list[9] in list;
      assert list[9] !in Tried(list);
    }
  }

  /** No peer gets two direct packets. */
  lemma NobodyIsServedTwice(list: seq<Ipv4Addr>, reachable: Ipv4Addr -> bool)
    requires DistinctBy(list, (ip: Ipv4Addr) => ip)
    ensures DistinctBy(Direct(list, reachable), (ip: Ipv4Addr) => ip)
  {
    RetainKeepsOrder(Tried(list), reachable, (x, y) => true, (ip: Ipv4Addr) => ip);
  }

  lemma ServerPacketIsPlain(inner: seq<byte>, direct: seq<Ipv4Addr>)
    requires |inner| >= HEAD_LEN && |direct| <= 255
    ensures var p := ServerPacket(inner, direct);
            !IsEncrypt(p) && IsGateway(p) && WithEncryptFlag(p, false) == p && p[HEAD_LEN..] == Encoded(direct, inner)
  {}

  /** Its header: source and destination of the inner packet, a tunnel broadcast for the server, with a fresh ttl of 15. */
  lemma ServerPacketHeader(inner: seq<byte>, direct: seq<Ipv4Addr>)
    requires |inner| >= HEAD_LEN && |direct| <= 255
    ensures var p := ServerPacket(inner, direct);
            && Source(p) == Source(inner) && Destination(p) == Destination(inner)
            && p[1] == 4 && p[2] == 201 && Ttl(p) == SourceTtl(p) == 15 && IsGateway(p)
  {
    hide FromOctets, Encoded;
    var head := FreshHead(0, PROTOCOL_IP_TURN, IPV4_BROADCAST, MAX_TTL, Source(inner), Destination(inner));
    var p := ServerPacket(inner, direct);
    var flagged := WithGatewayFlag(head, true);
    assert p[..HEAD_LEN] == flagged && flagged[1..] == head[1..];
    assert p[4..8] == flagged[1..][3..7] == head[4..8] && p[8..12] == flagged[1..][7..11] == head[8..12];
    assert p[1] == flagged[1..][0] == head[1] && p[2] == flagged[1..][1] == head[2] && p[3] == flagged[1..][2] == head[3];
  }

  // ----- the function -----

  /** Whether a peer can be served directly: its first direct route, and whether sending over it works. */
  function Reachable(t: Table, sends: (Ipv4Addr, RouteKey) -> bool): Ipv4Addr -> bool {
    (ip: Ipv4Addr) =>
      var route := FirstDirect(ListOf(t, ip), 0);
      route.Some? && sends(ip, route.value.key)
  }

  /** The peer's first route of length one is there, and the send over it succeeds. */
  ghost predicate ServedOver(t: Table, sends: (Ipv4Addr, RouteKey) -> bool, ip: Ipv4Addr) {
    var l := ListOf(t, ip);
    exists j :: 0 <= j < |l| && l[j].route.metric == 1 && (forall k :: 0 <= k < j ==> l[k].route.metric != 1)
                && sends(ip, l[j].route.key)
  }

  lemma DirectExactly(list: seq<Ipv4Addr>, t: Table, sends: (Ipv4Addr, RouteKey) -> bool)
    ensures forall ip :: ip in Direct(list, Reachable(t, sends)) <==>
              ip in (if |list| <= 9 then list else list[..9]) && ServedOver(t, sends, ip)
  {
    hide FirstDirect;
    RetainElements(Tried(list), Reachable(t, sends));
    forall ip ensures Reachable(t, sends)(ip) <==> ServedOver(t, sends, ip) {
      ReachableExactly(t, sends, ip);
    }
  }

  lemma ReachableExactly(t: Table, sends: (Ipv4Addr, RouteKey) -> bool, ip: Ipv4Addr)
    ensures Reachable(t, sends)(ip) <==> ServedOver(t, sends, ip)
  {
    hide FirstDirect;
    var l := ListOf(t, ip);
    if j :| 0 <= j < |l| && l[j].route.metric == 1 && (forall k :: 0 <= k < j ==> l[k].route.metric != 1) {
      FirstDirectIs(l, 0, j);
    } else {
      NoFirst(l, |l|);
      assert FirstDirect(l, 0).None?;
    }
  }

  lemma {:induction false} NoFirst(l: seq<Entry>, n: nat)
    requires n <= |l|
    requires !exists j :: 0 <= j < |l| && l[j].route.metric == 1 && (forall k :: 0 <= k < j ==> l[k].route.metric != 1)
    ensures forall k :: 0 <= k < n ==> l[k].route.metric != 1
  {
    if n > 0 {
      NoFirst(l, n - 1);
    }
  }

  /** The loop of `broadcast`: who is reached directly, and whether anybody is left for the server. */
  method ServeDirectly(list: seq<Ipv4Addr>, table: RouteTable, sends: (Ipv4Addr, RouteKey) -> bool)
    returns (direct: seq<Ipv4Addr>, relay: bool, overflow: bool)
    ensures direct == Direct(list, Reachable(table.table, sends)) && |direct| <= 9
    ensures forall ip :: ip in direct <==> ip in (if |list| <= 9 then list else list[..9]) && ServedOver(table.table, sends, ip)
    ensures overflow <==> |list| > 9
    ensures !overflow ==> (relay <==> exists ip :: ip in list && !Reachable(table.table, sends)(ip))
  {
    hide FirstDirect, ListOf, ServedOver;
    DirectExactly(list, table.table, sends);
    direct, relay, overflow := [], false, false;
    ghost var reachable := Reachable(table.table, sends);
    var index := 0;
    while index < |list|
      invariant 0 <= index <= |list| && index <= MAX_COUNT + 1
      invariant direct == Retain(list[..index], reachable) && !overflow
      invariant relay <==> exists ip :: ip in list[..index] && !reachable(ip)
    {
      var ip := list[index];
      if index > MAX_COUNT {
        overflow := true;
        break;
      }
      assert list[..index + 1] == list[..index] + [ip];
      assert list[..index + 1][..index] == list[..index];
      index := index + 1;
      var route := table.RouteOneP2p(ip);
      if route.Some? && sends(ip, route.value.key) {
        direct := direct + [ip];
        continue;
      }
      assert !reachable(ip);
      relay := true;
    }
    assert list[..|list|] == list;
  }

  /** The packet for the server, built in a buffer with room for any cipher. */
  method BuildServerPacket(inner: seq<byte>, direct: seq<Ipv4Addr>) returns (p: NetPacket)
    requires |inner| >= HEAD_LEN && 0 < |direct| <= 9
    ensures fresh(p) && fresh(p.buffer) && p.Valid()
    ensures p.buffer.Length == p.dataLen + ENCRYPTION_RESERVED
    ensures p.Bytes() == ServerPacket(inner, direct)
  {
    hide Encoded, FreshHead, Octets, FromOctets, ByteOf, Splice, WithGatewayFlag;
    var buffer := new byte[12 + 1 + |direct| * 4 + |inner| + ENCRYPTION_RESERVED](_ => 0);
    ghost var raw := buffer[..];
    var sp := NetPacket.New0(buffer.Length - ENCRYPTION_RESERVED, buffer);
    p := sp;
    p.SetHead(PROTOCOL_IP_TURN, IPV4_BROADCAST, MAX_TTL, Source(inner), Destination(inner));
    p.SetGatewayFlag(true);
    ghost var head := FreshHead(0, PROTOCOL_IP_TURN, IPV4_BROADCAST, MAX_TTL, Source(inner), Destination(inner));
    ghost var r1 := p.Raw();
    var broadcast := new BroadcastPacket.Unchecked(buffer, HEAD_LEN, p.dataLen);
    var ok := broadcast.SetAddress(direct);
    ghost var count := [ByteOf(|direct|)] + Joined(direct);
    CountIsStored(r1, HEAD_LEN, p.dataLen, count);
    ok := broadcast.SetData(inner);
    WholeServerPacket(raw, head, count, inner, p.dataLen);
    EncodedIs(direct, inner);
  }

  lemma CountIsStored(raw: seq<byte>, from: nat, to: nat, count: seq<byte>)
    requires |count| > 0 && from + |count| <= to <= |raw|
    ensures Splice(raw, from, count)[from..to][0] == count[0]
  {}

  lemma EncodedIs(direct: seq<Ipv4Addr>, inner: seq<byte>)
    requires |direct| <= 255
    ensures Encoded(direct, inner) == [ByteOf(|direct|)] + Joined(direct) + inner
  {}

  lemma WholeServerPacket(raw: seq<byte>, head: seq<byte>, count: seq<byte>, inner: seq<byte>, n: nat)
    requires |head| == HEAD_LEN && n == HEAD_LEN + |count| + |inner| <= |raw|
    ensures var r1 := WithGatewayFlag(Splice(raw, 0, head), true);
            Splice(Splice(r1, HEAD_LEN, count), HEAD_LEN + |count|, inner)[..n]
            == WithGatewayFlag(head, true) + (count + inner)
  {}

  /** `broadcast`, with the inner packet already encrypted for the peers. */
  method Broadcast(
    peers: seq<Peer>, table: RouteTable, sends: (Ipv4Addr, RouteKey) -> bool, online: bool,
    p: NetPacket, c: Cipher, random: seq<byte>
  ) returns (o: Outcome)
    requires p.Valid() && Laws(c) && |random| == 16
    ensures online ==> IsOutcome(Audience(peers), Reachable(table.table, sends), p.Bytes(), c, random, o)
    ensures !online ==> o == Outcome(Direct(Audience(peers), Reachable(table.table, sends)), Nothing)
  {
    hide Direct, Encoded, Audience, Seal, Reachable, WithinCap, Encryptable, ServerPacket;
    var list := Audience(peers);
    if |list| == 0 {
      NobodyToServe(list, Reachable(table.table, sends));
      return Outcome([], Nothing);
    }
    var direct, relay, overflow := ServeDirectly(list, table, sends);
    if !overflow && !relay {
      return Outcome(direct, Nothing);
    }
    if !online {
      return Outcome(direct, Nothing);
    }
    if |direct| == 0 {
      return Outcome(direct, Plain);
    }
    var inner := p.buffer[..p.dataLen];
    var sp := BuildServerPacket(inner, direct);
    ghost var slack := Slack(sp.Raw(), sp.dataLen);
    RoomForAnyCipher(c, sp.dataLen, sp.buffer.Length);
    var ok := EncryptIpv4(c, sp, random);
    if !ok {
      return Outcome(direct, Unsendable);
    }
    o := Outcome(direct, WithList(sp.buffer[..sp.dataLen]));
    assert |slack| == 12 && o.server.wire == Seal(c, ServerPacket(inner, direct), slack, random);
  }

  lemma NobodyToServe(list: seq<Ipv4Addr>, reachable: Ipv4Addr -> bool)
    requires |list| == 0
    ensures Direct(list, reachable) == []
  {}

  lemma RoomForAnyCipher(c: Cipher, n: nat, cap: nat)
    requires n >= HEAD_LEN && n + ENCRYPTION_RESERVED <= cap
    ensures Encryptable(c, n, cap) <==> WithinCap(c, n)
  {}
}
