/** The packet pipeline over an actual chain of relays. */
module EndToEnd {
  import opened Bytes
  import opened NetPackets
  import opened Primitives
  import opened Ciphers
  import opened Compression
  import opened Pipeline
  import opened Routes
  import opened Relay
  import opened DeviceInfo
  import opened Echo

  /** One client on the way, and the address the datagram reached it from. */
  datatype Stop = Stop(client: Client, from: SocketAddr)

  /** Every client of the chain forwards what the one before it sent. */
  predicate AllForward(w: seq<byte>, stops: seq<Stop>)
    requires |w| >= HEAD_LEN
    decreases |stops|
  {
    |stops| == 0 ||
    var o := Handled(stops[0].client, w, stops[0].from);
    o.Forwarded? && AllForward(o.packet, stops[1..])
  }

  /** What comes out at the end of the chain. */
  function Arriving(w: seq<byte>, stops: seq<Stop>): (r: seq<byte>)
    requires |w| >= HEAD_LEN && AllForward(w, stops)
    ensures |r| == |w|
    decreases |stops|
  {
    if |stops| == 0 then w
    else Arriving(Handled(stops[0].client, w, stops[0].from).packet, stops[1..])
  }

  /** However its clients decide, a chain that forwards is shorter than the ttl and only lowers it. */
  lemma {:induction false} ChainOnlyLowersTtl(w: seq<byte>, stops: seq<Stop>)
    requires |w| >= HEAD_LEN && PassesGuard(w) && AllForward(w, stops)
    ensures |stops| < TtlOf(w)
    ensures Arriving(w, stops) == RelayedBy(w, |stops|)
    ensures PassesGuard(Arriving(w, stops))
    ensures Metric(Arriving(w, stops)) as nat == Metric(w) as nat + |stops|
    decreases |stops|
  {
    hide Handled, PassesGuard, Metric, Relayed;
    MetricDoesNotWrap(w);
    if |stops| != 0 {
      ForwardedPassesNextGuard(stops[0].client, w, stops[0].from);
      ChainOnlyLowersTtl(Handled(stops[0].client, w, stops[0].from).packet, stops[1..]);
    }
  }

  /**
   * The whole way: compressed and encrypted by the sender, forwarded by any clients with any
   * routing tables, a packet is taken in by the client with the destination's address, decrypted and
   * expanded as it was meant, and the receiver measures exactly the links it crossed.
   */
  lemma TunnelToTunnel(
    s: Setup, source: Ipv4Addr, destination: Ipv4Addr, body: seq<byte>, stale: seq<byte>,
    slack: seq<byte>, random: seq<byte>, stops: seq<Stop>, room: nat, receiver: Client, from: SocketAddr)
    requires SetupLaws(s) && |stale| == HEAD_LEN && |slack| == 12 && |random| == 16
    requires Clean(s.cipher, stale[0]) && room >= HEAD_LEN + |body|
    requires receiver.me.virtualIp == destination
    requires Sent(s, source, destination, body, stale, slack, random).Some?
    requires var w := Sent(s, source, destination, body, stale, slack, random).value;
             |w| >= HEAD_LEN && AllForward(w, stops)
    ensures var w := Sent(s, source, destination, body, stale, slack, random).value;
            var r := Arriving(w, stops);
            && |stops| <= 5 && |r| == |w|
            && Handled(receiver, r, from) == Mine(false)
            && PassesGuard(r) && Metric(r) as nat == |stops| + 1
            && Received(s.cipher, s.codecs, r, room) ==
               if s.cipher.AesCbc? && |w| - HEAD_LEN > UDP_PAYLOAD_MAX then None
               else Some(RelayedBy(Intended(source, destination, body), |stops|))
  {
    hide Sent, Received, Intended, Handled, Clean, SetupLaws;
    var w := Sent(s, source, destination, body, stale, slack, random).value;
    Delivered(s, source, destination, body, stale, slack, random, 0, room);
    TunTtlIsSix(w);
    ChainOnlyLowersTtl(w, stops);
    Delivered(s, source, destination, body, stale, slack, random, |stops|, room);
    SentHead(s, source, destination, body, stale, slack, random);
    SameBeyondTtl(w, |stops|);
    TakenIn(receiver, Arriving(w, stops), from);
  }

  lemma TakenIn(c: Client, w: seq<byte>, from: SocketAddr)
    requires |w| >= HEAD_LEN && PassesGuard(w) && Destination(w) == c.me.virtualIp && !IsGateway(w)
    ensures Handled(c, w, from) == Mine(false)
  {}

  /** The addresses under which a datagram from the tunnel goes out. */
  lemma SentHead(
    s: Setup, source: Ipv4Addr, destination: Ipv4Addr, body: seq<byte>, stale: seq<byte>,
    slack: seq<byte>, random: seq<byte>)
    requires SetupLaws(s) && |stale| == HEAD_LEN && |slack| == 12 && |random| == 16 && Clean(s.cipher, stale[0])
    requires Sent(s, source, destination, body, stale, slack, random).Some?
    ensures var w := Sent(s, source, destination, body, stale, slack, random).value;
            |w| >= HEAD_LEN && Source(w) == source && Destination(w) == destination && !IsGateway(w)
  {
    hide Seal, Encryptable, Compress, TunHead, FromOctets;
    var q := ToEncrypt(s, source, destination, body, stale).value;
    CleanGateway(stale[0], source, destination);
    match Compress(s.codecs, s.compressor, Intended(source, destination, body), stale, s.extendCap) {
      case Compressed(z) =>
        CompressedKeepsByte0(s.codecs, s.compressor, Intended(source, destination, body), stale, s.extendCap);
        HeadOf(TunHead(z[0], source, destination), z[HEAD_LEN..]);
      case _ => HeadOf(TunHead(0, source, destination), body);
    }
    SealKeepsHead(s.cipher, q, slack, random);
  }

  lemma CleanGateway(byte0: byte, source: Ipv4Addr, destination: Ipv4Addr)
    requires byte0 & 0x50 == 0
    ensures !IsGateway(TunHead(byte0 | 0x20, source, destination)) && !IsGateway(TunHead(0, source, destination))
    ensures forall x :: Source(TunHead(x, source, destination)) == source
                        && Destination(TunHead(x, source, destination)) == destination
  {}

  lemma HeadOf(head: seq<byte>, rest: seq<byte>)
    requires |head| == HEAD_LEN
    ensures Source(head + rest) == Source(head) && Destination(head + rest) == Destination(head)
    ensures IsGateway(head + rest) == IsGateway(head)
  {
    hide FromOctets;
    var p := head + rest;
    assert p[4..8] == head[4..8] && p[8..12] == head[8..12];
  }

  /**
   * Clients that know the way to `destination`: none is it, all relay, each has a route that is no
   * longer than the way really is, and does not lead back.
   */
  predicate KnowTheWay(destination: Ipv4Addr, stops: seq<Stop>) {
    forall i :: 0 <= i < |stops| ==> Knows(destination, stops[i], |stops| - i)
  }

  predicate Knows(destination: Ipv4Addr, stop: Stop, links: nat) {
    && !IsForMe(destination, stop.client.me)
    && !stop.client.disableRelay
    && var route := stop.client.routeOne(destination);
       route.Some? && route.value.key.addr != stop.from && route.value.metric <= links
  }

  lemma WhoKnowsForwards(w: seq<byte>, stop: Stop, links: nat)
    requires |w| >= HEAD_LEN && PassesGuard(w) && !IsGateway(w)
    requires Knows(Destination(w), stop, links) && 1 <= links < TtlOf(w)
    ensures var o := Handled(stop.client, w, stop.from);
            o.Forwarded? && !IsGateway(o.packet) && Destination(o.packet) == Destination(w)
  {
    hide FromOctets, IsForMe;
    var r := Relayed(w);
    assert r[8..12] == w[8..12];
    assert r[0] == w[0];
    MetricDoesNotWrap(w);
    PredNat(Ttl(w));
    PredNat(Ttl(r));
  }

  /** Along such a chain a packet gets through exactly if the chain is shorter than its ttl. */
  lemma {:induction false} ForwardedExactlyWhen(w: seq<byte>, stops: seq<Stop>)
    requires |w| >= HEAD_LEN && PassesGuard(w) && !IsGateway(w) && KnowTheWay(Destination(w), stops)
    ensures AllForward(w, stops) <==> |stops| < TtlOf(w)
    decreases |stops|
  {
    hide Handled, PassesGuard, Knows, IsGateway;
    if AllForward(w, stops) {
      ChainOnlyLowersTtl(w, stops);
    } else if |stops| < TtlOf(w) {
      assert Knows(Destination(w), stops[0], |stops| - 0);
      WhoKnowsForwards(w, stops[0], |stops|);
      ForwardedPassesNextGuard(stops[0].client, w, stops[0].from);
      var rest := stops[1..];
      forall i | 0 <= i < |rest| ensures Knows(Destination(w), rest[i], |rest| - i) {
        assert rest[i] == stops[i + 1];
      }
      ForwardedExactlyWhen(Handled(stops[0].client, w, stops[0].from).packet, rest);
    }
  }

  /** `r` comes back over `k` relays, when the request `w` was passed on by `h`. */
  ghost predicate ComesBack(
    c: Cipher, cs: Codecs, answer: seq<byte>, w: seq<byte>, h: nat, room: nat, r: seq<byte>, k: nat, there: nat)
    requires Laws(c) && CodecLaws(cs) && |w| >= HEAD_LEN && |r| >= HEAD_LEN && |answer| >= HEAD_LEN && there >= HEAD_LEN
  {
    && PassesGuard(r) && Metric(r) as nat == (k + 1) + h
    && h + k <= Ttl(answer) as nat
    && Received(c, cs, r, there) == if Answerable(c, w, |answer|, room) then Some(RelayedBy(answer, h + k)) else None
  }

  /**
   * A ping and its answer. The answer leaves with what the relays of the request have left of the
   * ttl, so along clients that know the way back it arrives exactly if both ways together have at
   * most five relays; if the way back is as long as the way out, at most two each. Then it is
   * received as if the sender had answered itself, but for the ttl, and what would be taken
   * for its path length are the links back and the relays out together.
   */
  lemma PingComesBack(
    s: Setup, source: Ipv4Addr, destination: Ipv4Addr, body: seq<byte>, stale: seq<byte>,
    slack: seq<byte>, random: seq<byte>, w: seq<byte>, stops: seq<Stop>, cap: nat, room: nat,
    slack2: seq<byte>, random2: seq<byte>, a: seq<byte>, back: seq<Stop>, there: nat, home: Client, from: SocketAddr)
    requires SetupLaws(s) && |stale| == HEAD_LEN && |slack| == |slack2| == 12 && |random| == |random2| == 16
    requires Clean(s.cipher, stale[0]) && room >= HEAD_LEN + |body| && there >= HEAD_LEN
    requires Sent(s, source, destination, body, stale, slack, random) == Some(w)
    requires HEAD_LEN <= |w| <= cap && AllForward(w, stops)
    requires |a| >= HEAD_LEN && Answered(s.cipher, s.codecs, Arriving(w, stops), cap, room, slack2, random2) == Some(a)
    requires KnowTheWay(source, back) && home.me.virtualIp == source
    ensures |stops| <= 5 && TtlOf(a) == 6 - |stops| && SourceTtlOf(a) == 6
    ensures AllForward(a, back) <==> |stops| + |back| <= 5
    ensures |back| == |stops| ==> (AllForward(a, back) <==> |stops| <= 2)
    ensures EchoAnswer(Intended(source, destination, body)).Reply?
    ensures AllForward(a, back) ==>
            ComesBack(s.cipher, s.codecs, EchoAnswer(Intended(source, destination, body)).packet,
                      w, |stops|, room, Arriving(a, back), |back|, there)
            && Handled(home, Arriving(a, back), from) == Mine(false)
  {
    hide Sent, Received, Intended, Handled, Clean, SetupLaws, EchoAnswer, Answered, Answerable, PassesGuard, Metric;
    hide IsGateway, KnowTheWay, AllForward, Arriving, ComesBack, RelayedBy, Ttl, SourceTtl, SourceTtlOf;
    LawsOfSetup(s);
    var meant := Intended(source, destination, body);
    PingGetsThere(s, source, destination, body, stale, slack, random, w, stops, room);
    IntendedHead(source, destination, body);
    AnswerOnItsWay(s.cipher, s.codecs, w, meant, |stops|, cap, room, slack2, random2, a, there);
    WayBack(s.cipher, s.codecs, w, a, EchoAnswer(meant).packet, source, |stops|, back, room, there);
    if AllForward(a, back) {
      ComesHome(a, back, home, from);
    }
  }

  lemma ComesHome(a: seq<byte>, back: seq<Stop>, home: Client, from: SocketAddr)
    requires |a| >= HEAD_LEN && PassesGuard(a) && !IsGateway(a) && Destination(a) == home.me.virtualIp && AllForward(a, back)
    ensures Handled(home, Arriving(a, back), from) == Mine(false)
  {
    hide Handled, PassesGuard, IsGateway, Metric, AllForward, Arriving, RelayedBy;
    ChainOnlyLowersTtl(a, back);
    SameBeyondTtl(a, |back|);
    TakenIn(home, Arriving(a, back), from);
  }

  lemma WayBack(
    c: Cipher, cs: Codecs, w: seq<byte>, a: seq<byte>, answer: seq<byte>, source: Ipv4Addr, h: nat, back: seq<Stop>,
    room: nat, there: nat)
    requires Laws(c) && CodecLaws(cs) && |w| >= HEAD_LEN && |a| >= HEAD_LEN && there >= HEAD_LEN && |answer| >= HEAD_LEN
    requires PassesGuard(a) && !IsGateway(a) && Destination(a) == source && TtlOf(a) == 6 - h && TtlOf(answer) == 6
    requires Metric(a) as nat == h + 1 && h <= Ttl(answer) as nat
    requires Received(c, cs, a, there) == if Answerable(c, w, |answer|, room) then Some(RelayedBy(answer, h)) else None
    requires KnowTheWay(source, back)
    ensures AllForward(a, back) <==> h + |back| <= 5
    ensures AllForward(a, back) ==> ComesBack(c, cs, answer, w, h, room, Arriving(a, back), |back|, there)
  {
    hide Received, Answerable, PassesGuard, Metric, IsGateway, KnowTheWay, AllForward, Arriving, RelayedBy;
    ForwardedExactlyWhen(a, back);
    if AllForward(a, back) {
      AnswerArrives(c, cs, a, answer, h, back, there);
    }
  }

  lemma PingGetsThere(
    s: Setup, source: Ipv4Addr, destination: Ipv4Addr, body: seq<byte>, stale: seq<byte>,
    slack: seq<byte>, random: seq<byte>, w: seq<byte>, stops: seq<Stop>, room: nat)
    requires SetupLaws(s) && |stale| == HEAD_LEN && |slack| == 12 && |random| == 16
    requires Clean(s.cipher, stale[0]) && room >= HEAD_LEN + |body|
    requires Sent(s, source, destination, body, stale, slack, random) == Some(w)
    requires |w| >= HEAD_LEN && AllForward(w, stops)
    ensures TtlOf(w) == 6 && |stops| <= 5 && Arriving(w, stops) == RelayedBy(w, |stops|)
    ensures Received(s.cipher, s.codecs, RelayedBy(w, |stops|), room).Some? ==>
            Received(s.cipher, s.codecs, RelayedBy(w, |stops|), room).value
            == RelayedBy(Intended(source, destination, body), |stops|)
  {
    hide Sent, Received, Intended, Handled, Clean, SetupLaws, RelayedBy;
    var me := Unregistered(SocketAddr([], 0)).(virtualIp := destination);
    var receiver := Client(me, false, _ => None);
    TunnelToTunnel(s, source, destination, body, stale, slack, random, stops, room, receiver, me.server);
    Delivered(s, source, destination, body, stale, slack, random, 0, room);
    TunTtlIsSix(w);
    ChainOnlyLowersTtl(w, stops);
  }

  lemma AnswerArrives(
    c: Cipher, cs: Codecs, a: seq<byte>, answer: seq<byte>, h: nat, back: seq<Stop>, there: nat)
    requires Laws(c) && CodecLaws(cs) && |a| >= HEAD_LEN && there >= HEAD_LEN && |answer| >= HEAD_LEN
    requires PassesGuard(a) && AllForward(a, back) && TtlOf(a) == 6 - h && TtlOf(answer) == 6
    requires Received(c, cs, a, there).Some? ==> Received(c, cs, a, there).value == RelayedBy(answer, h)
    ensures h + |back| <= 5 && h + |back| <= Ttl(answer) as nat
    ensures var r := Arriving(a, back);
            && PassesGuard(r) && Metric(r) as nat == Metric(a) as nat + |back|
            && Received(c, cs, r, there) ==
               if Received(c, cs, a, there).None? then None else Some(RelayedBy(answer, h + |back|))
  {
    hide Received, PassesGuard, Metric, AllForward, Arriving, RelayedBy;
    ChainOnlyLowersTtl(a, back);
    ReceivedOfRelayedBy(c, cs, a, |back|, there);
    RelayedOn(answer, h, |back|);
  }

  lemma IntendedHead(source: Ipv4Addr, destination: Ipv4Addr, body: seq<byte>)
    ensures var p := Intended(source, destination, body);
            Source(p) == source && !IsGateway(p) && TtlOf(p) == SourceTtlOf(p) == 6
  {
    hide FromOctets, Octets;
    var head, p := TunHead(0, source, destination), Intended(source, destination, body);
    assert p[4..8] == head[4..8] && p[0] == head[0] && p[3] == head[3];
  }

  /** The answer to a request that `h` relays have passed on, as it leaves. */
  lemma AnswerOnItsWay(
    c: Cipher, cs: Codecs, w: seq<byte>, meant: seq<byte>, h: nat, cap: nat, room: nat,
    slack: seq<byte>, random: seq<byte>, a: seq<byte>, there: nat)
    requires Laws(c) && CodecLaws(cs) && HEAD_LEN <= |w| <= cap && room >= HEAD_LEN && there >= HEAD_LEN
    requires |slack| == 12 && |random| == 16 && h < 6 && |a| >= HEAD_LEN
    requires TtlOf(w) == 6 && |meant| >= HEAD_LEN && TtlOf(meant) == SourceTtlOf(meant) == 6 && !IsGateway(meant)
    requires Received(c, cs, RelayedBy(w, h), room).Some? ==> Received(c, cs, RelayedBy(w, h), room).value == RelayedBy(meant, h)
    requires Answered(c, cs, RelayedBy(w, h), cap, room, slack, random) == Some(a)
    ensures EchoAnswer(meant).Reply?
    ensures var answer := EchoAnswer(meant).packet;
            && TtlOf(a) == 6 - h && SourceTtlOf(a) == 6 && PassesGuard(a) && Metric(a) as nat == h + 1
            && !IsGateway(a) && Destination(a) == Source(meant)
            && TtlOf(answer) == 6
            && Received(c, cs, a, there) == if Answerable(c, w, |answer|, room) then Some(RelayedBy(answer, h)) else None
  {
    hide Received, EchoAnswer, Seal, Encryptable, EncryptedLen, RelayedBy, IsGateway, IsExtension, Source, Destination;
    hide PassesGuard, Metric, SourceTtl;
    var w2, p := RelayedBy(w, h), RelayedBy(meant, h);
    EchoOfRelayedBy(meant, h);
    AnsweredExactlyWhen(c, cs, w2, cap, room, slack, random, there);
    var r := EchoAnswer(p).packet;
    SameBeyondTtl(w, h);
    SameBeyondTtl(meant, h);
    AnswerHead(c, p, slack, random);
    GuardOf(a);
  }

  lemma SameBeyondTtl(b: seq<byte>, n: nat)
    requires |b| >= HEAD_LEN && n <= TtlOf(b)
    ensures var r := RelayedBy(b, n);
            && IsGateway(r) == IsGateway(b) && IsExtension(r) == IsExtension(b)
            && Source(r) == Source(b) && Destination(r) == Destination(b)
            && TtlOf(r) == TtlOf(b) - n && SourceTtlOf(r) == SourceTtlOf(b)
  {
    hide RelayedBy, FromOctets;
    var r := RelayedBy(b, n);
    assert r[0] == r[..3][0] == b[..3][0] == b[0];
    assert r[4..8] == r[4..][..4] == b[4..][..4] == b[4..8];
    assert r[8..12] == r[4..][4..8] == b[4..][4..8] == b[8..12];
  }

  /** The header under which an answer goes out. */
  lemma AnswerHead(c: Cipher, p: seq<byte>, slack: seq<byte>, random: seq<byte>)
    requires Laws(c) && |p| >= HEAD_LEN && EchoAnswer(p).Reply? && |slack| == 12 && |random| == 16
    ensures var a := Seal(c, EchoAnswer(p).packet, slack, random);
            && TtlOf(a) == TtlOf(p) && SourceTtlOf(a) == SourceTtlOf(p)
            && IsGateway(a) == IsGateway(p) && Destination(a) == Source(p)
  {
    hide EchoAnswer, Seal, FromOctets, AnswersPing;
    AnswerIsEchoReply(p);
    AnswerKeepsTtl(p);
    SealKeepsHead(c, EchoAnswer(p).packet, slack, random);
  }

  lemma GuardOf(w: seq<byte>)
    requires |w| >= HEAD_LEN
    ensures PassesGuard(w) <==> 0 < TtlOf(w) <= SourceTtlOf(w)
    ensures PassesGuard(w) ==> Metric(w) as nat == SourceTtlOf(w) - TtlOf(w) + 1
  {}

  lemma TunTtlIsSix(w: seq<byte>)
    requires |w| >= HEAD_LEN && Ttl(w) == SourceTtl(w) == TUN_TTL
    ensures TtlOf(w) == SourceTtlOf(w) == 6 && PassesGuard(w) && Metric(w) as nat == 1
  {}
}
