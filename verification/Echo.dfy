/** The answer a client gives to an ICMP echo request: turned round where it lies, and encrypted again. */
module Echo {
  import opened Bytes
  import opened NetPackets
  import opened Primitives
  import opened Ciphers
  import opened CipherMethods
  import opened Compression
  import opened Pipeline
  import opened Checksum
  import opened Ipv4

  const ICMP: byte := 1
  const ECHO_REQUEST: byte := 8
  const ECHO_REPLY: byte := 0
  const ICMP_CHECKSUM := 2
  const BUFFER_SIZE := 65536

  /** What becomes of a packet: not an echo request to this client, an error, a panic, or the answer. */
  datatype Verdict = NotAnEcho | Refused | Panicked | Reply(packet: seq<byte>)

  /** The IP packet that goes back: addresses replaced, kind changed, both checksums computed again. */
  function EchoedIp(b: seq<byte>, from: seq<byte>, to: seq<byte>): (r: seq<byte>)
    requires IpPacket(b) && |Payload(b)| >= 8 && |from| == |to| == 4
    ensures |r| == |b|
  {
    WithChecksum(Splice(Header(b), 12, from + to), 10) + WithChecksum(Payload(b)[0 := ECHO_REPLY], ICMP_CHECKSUM)
  }

  /** The echo branch of `ip_turn`. The ttl of the tunnel header stays what the relays have left of it. */
  function EchoAnswer(p: seq<byte>): (v: Verdict)
    requires |p| >= HEAD_LEN
    ensures v.Reply? ==> |v.packet| == |p|
  {
    if Protocol(p) != PROTOCOL_IP_TURN || TransportProtocol(p) != TRANSPORT_IPV4 then NotAnEcho
    else
      var b := p[HEAD_LEN..];
      if !Accepted(b) then Refused
      else if b[9] != ICMP || DestinationIp(b) != Destination(p) then NotAnEcho
      else if |Payload(b)| < 8 then Refused
      else if Payload(b)[0] != ECHO_REQUEST then NotAnEcho
      else if HeaderLen(b) < 20 then Panicked
      else Reply(p[..4] + p[8..12] + p[4..8] + EchoedIp(b, p[8..12], p[4..8]))
  }

  /**
   * Which packets are answered, in bytes: IPv4 in a tunnel packet, an echo request of at least eight
   * bytes to the destination of the tunnel packet. A packet that is none, or an ICMP message to that
   * address that is too short, gives an error, and a request behind a header of less than five words a panic.
   */
  lemma EchoAnswerExactly(p: seq<byte>)
    requires |p| >= 12
    ensures var v, b, tunnel := EchoAnswer(p), p[12..], p[1] == 4 && p[2] == 4;
            var packet := |b| >= 20 && b[0] as nat / 16 == 4 && 4 * (b[0] as nat % 16) <= |b|;
            var h := if packet then 4 * (b[0] as nat % 16) else 0;
            var icmp := packet && b[9] == 1 && b[16..20] == p[8..12];
            && (v.Reply? <==> tunnel && icmp && |b| - h >= 8 && b[h] == 8 && h >= 20)
            && (v.Panicked? <==> tunnel && icmp && |b| - h >= 8 && b[h] == 8 && h < 20)
            && (v.Refused? <==> tunnel && (!packet || (icmp && |b| - h < 8)))
  {
    hide EchoedIp, FromOctets, HeaderLen;
    var b := p[12..];
    AcceptedExactlyWhen(b);
    if |b| >= 20 {
      FromOctetsInjective(b[16..20], p[8..12]);
    }
  }

  /** The bytes of the IP packet that may differ. */
  predicate EchoChanges(h: nat, i: int) {
    10 <= i < 20 || i == h || h + 2 <= i < h + 4
  }

  predicate IcmpValid(seg: seq<byte>)
    requires |seg| >= 8
  {
    Be16(seg[2], seg[3]) == 0 || ChecksumOf(seg) == 0
  }

  /** `a` answers `b`: from and to these addresses, an echo reply, in order, and otherwise the same. */
  ghost predicate AnswersPing(b: seq<byte>, a: seq<byte>, from: Ipv4Addr, to: Ipv4Addr)
    requires IpPacket(b)
  {
    && |a| == |b| && IpPacket(a) && HeaderLen(a) == HeaderLen(b)
    && SourceIp(a) == from && DestinationIp(a) == to
    && |Payload(a)| >= 8 && Payload(a)[0] == ECHO_REPLY
    && IpValid(a) && IcmpValid(Payload(a))
    && forall i :: 0 <= i < |b| && !EchoChanges(HeaderLen(b), i) ==> a[i] == b[i]
  }

  lemma EchoedHead(head0: seq<byte>, from: seq<byte>, to: seq<byte>)
    requires |head0| >= 20 && |from| == |to| == 4
    ensures var head := WithChecksum(Splice(head0, 12, from + to), 10);
            && ChecksumOf(head) == 0 && head[12..16] == from && head[16..20] == to
            && (forall i :: 0 <= i < |head0| && !(10 <= i < 20) ==> head[i] == head0[i])
  {
    hide Splice, ChecksumOf, WithChecksum;
    RewrittenHead(head0, 12, from + to);
    var head := WithChecksum(Splice(head0, 12, from + to), 10);
    assert head[12..20] == from + to;
    assert head[12..16] == head[12..20][..4] == from;
    assert head[16..20] == head[12..20][4..] == to;
  }

  lemma EchoedSegment(seg0: seq<byte>)
    requires |seg0| >= 8
    ensures var seg := WithChecksum(seg0[0 := ECHO_REPLY], ICMP_CHECKSUM);
            && ChecksumOf(seg) == 0 && seg[0] == ECHO_REPLY
            && (forall i :: 0 <= i < |seg0| && !(i == 0 || 2 <= i < 4) ==> seg[i] == seg0[i])
  {
    hide Splice, ChecksumOf;
    var x := seg0[0 := ECHO_REPLY];
    StoredChecksumValidates(x, ICMP_CHECKSUM);
    SplicedAt(x, ICMP_CHECKSUM, ToBe16(ChecksumOf(Splice(x, ICMP_CHECKSUM, [0, 0]))));
  }

  /** For any request, whatever addresses are put in. */
  lemma EchoedIpAnswers(b: seq<byte>, from: seq<byte>, to: seq<byte>)
    requires IpPacket(b) && |Payload(b)| >= 8 && |from| == |to| == 4
    ensures AnswersPing(b, EchoedIp(b, from, to), FromOctets(from), FromOctets(to))
  {
    hide WithChecksum, ChecksumOf, FromOctets, Be16, HeaderLen;
    var head := WithChecksum(Splice(Header(b), 12, from + to), 10);
    var seg := WithChecksum(Payload(b)[0 := ECHO_REPLY], ICMP_CHECKSUM);
    EchoedHead(Header(b), from, to);
    EchoedSegment(Payload(b));
    Joined(b, head, seg);
    EchoedBytes(b, head, seg);
    var a := head + seg;
    assert a[12..16] == head[12..16] && a[16..20] == head[16..20];
  }

  lemma EchoedBytes(b: seq<byte>, head: seq<byte>, seg: seq<byte>)
    requires IpPacket(b) && |head| == HeaderLen(b) && |seg| == |b| - |head|
    requires forall i :: 0 <= i < |head| && !(10 <= i < 20) ==> head[i] == Header(b)[i]
    requires forall i :: 0 <= i < |seg| && !(i == 0 || 2 <= i < 4) ==> seg[i] == Payload(b)[i]
    ensures forall i :: 0 <= i < |b| && !EchoChanges(HeaderLen(b), i) ==> (head + seg)[i] == b[i]
  {}

  /**
   * What an answer is: the tunnel header with its addresses exchanged and every other byte kept,
   * the ttl included, around an echo reply in order. It is not answered in its turn.
   */
  lemma AnswerIsEchoReply(p: seq<byte>)
    requires |p| >= HEAD_LEN && EchoAnswer(p).Reply?
    ensures var r := EchoAnswer(p).packet;
            && IpPacket(p[HEAD_LEN..])
            && r[..4] == p[..4] && Source(r) == Destination(p) && Destination(r) == Source(p)
            && AnswersPing(p[HEAD_LEN..], r[HEAD_LEN..], Destination(p), Source(p))
            && EchoAnswer(r) == NotAnEcho
  {
    hide EchoedIp, FromOctets, HeaderLen, IpValid, IcmpValid;
    var b, r := p[HEAD_LEN..], EchoAnswer(p).packet;
    var a := EchoedIp(b, p[8..12], p[4..8]);
    EchoedIpAnswers(b, p[8..12], p[4..8]);
    AnswerParts(p, a);
    assert r == p[..4] + p[8..12] + p[4..8] + a;
    assert a[9] == b[9];
    assert r[1] == r[..4][1] && r[2] == r[..4][2] && p[1] == p[..4][1] && p[2] == p[..4][2];
  }

  lemma AnswerParts(p: seq<byte>, a: seq<byte>)
    requires |p| >= HEAD_LEN
    ensures var r := p[..4] + p[8..12] + p[4..8] + a;
            r[..4] == p[..4] && r[4..8] == p[8..12] && r[8..12] == p[4..8] && r[HEAD_LEN..] == a
  {}

  /** Answering commutes with a relay: what it does to a request it does to the answer. */
  lemma EchoOfRelayed(p: seq<byte>)
    requires |p| >= HEAD_LEN && Ttl(p) != 0
    ensures EchoAnswer(Relayed(p)).Reply? <==> EchoAnswer(p).Reply?
    ensures EchoAnswer(p).Reply? ==>
            var r := EchoAnswer(p).packet;
            Ttl(r) == Ttl(p) && EchoAnswer(Relayed(p)) == Reply(Relayed(r))
  {
    hide EchoedIp, FromOctets, HeaderLen;
    var q := Relayed(p);
    assert q[HEAD_LEN..] == p[HEAD_LEN..] && q[4..8] == p[4..8] && q[8..12] == p[8..12];
    assert q[1] == p[1] && q[2] == p[2];
    if EchoAnswer(p).Reply? {
      var a := EchoedIp(p[HEAD_LEN..], p[8..12], p[4..8]);
      AnswerParts(p, a);
      assert EchoAnswer(p).packet[3] == p[..4][3] == p[3];
      RelayedAnswer(p, a);
    }
  }

  lemma RelayedAnswer(p: seq<byte>, a: seq<byte>)
    requires |p| >= HEAD_LEN && Ttl(p) != 0
    ensures var r := p[..4] + p[8..12] + p[4..8] + a;
            Ttl(r) != 0 && Relayed(r) == Relayed(p)[..4] + p[8..12] + p[4..8] + a
  {}

  lemma {:induction false} EchoOfRelayedBy(p: seq<byte>, n: nat)
    requires |p| >= HEAD_LEN && n <= Ttl(p) as nat
    ensures EchoAnswer(RelayedBy(p, n)).Reply? <==> EchoAnswer(p).Reply?
    ensures EchoAnswer(p).Reply? ==>
            var r := EchoAnswer(p).packet;
            Ttl(r) == Ttl(p) && EchoAnswer(RelayedBy(p, n)) == Reply(RelayedBy(r, n))
    decreases n
  {
    hide EchoAnswer, Relayed;
    if EchoAnswer(p).Reply? {
      AnswerKeepsTtl(p);
    }
    if n > 0 {
      PredNat(Ttl(p));
      EchoOfRelayed(p);
      EchoOfRelayedBy(Relayed(p), n - 1);
    }
  }

  lemma AnswerKeepsTtl(p: seq<byte>)
    requires |p| >= HEAD_LEN && EchoAnswer(p).Reply?
    ensures var r := EchoAnswer(p).packet;
            Ttl(r) == Ttl(p) && SourceTtl(r) == SourceTtl(p)
            && IsEncrypt(r) == IsEncrypt(p) && IsExtension(r) == IsExtension(p) && IsGateway(r) == IsGateway(p)
  {
    hide EchoedIp;
    var r := EchoAnswer(p).packet;
    AnswerParts(p, EchoedIp(p[HEAD_LEN..], p[8..12], p[4..8]));
    assert r[3] == r[..4][3] == p[3] && r[0] == r[..4][0] == p[0];
  }

  // ----- received, answered, encrypted -----

  /** Where the answer lies: in the second buffer if the request came compressed, else where it arrived. */
  function RoomFor(w: seq<byte>, cap: nat, room: nat): nat
    requires |w| >= HEAD_LEN
  {
    if IsExtension(w) then room else cap
  }

  /** The datagram a client sends back for one that came in a buffer of `cap` bytes, beside a second one of `room`. */
  function Answered(c: Cipher, cs: Codecs, w: seq<byte>, cap: nat, room: nat, slack: seq<byte>, random: seq<byte>)
    : (r: Option<seq<byte>>)
    requires Laws(c) && CodecLaws(cs) && |w| >= HEAD_LEN && room >= HEAD_LEN && |slack| == 12 && |random| == 16
    ensures r.Some? ==> |r.value| >= HEAD_LEN
  {
    var p := Received(c, cs, w, room);
    if p.None? || |p.value| < HEAD_LEN || !EchoAnswer(p.value).Reply? then None
    else
      var r := EchoAnswer(p.value).packet;
      if Encryptable(c, |r|, RoomFor(w, cap, room)) then Some(Seal(c, r, slack, random)) else None
  }

  /** What arrives carries neither flag any more. */
  lemma ReceivedIsPlain(c: Cipher, cs: Codecs, w: seq<byte>, room: nat)
    requires Laws(c) && CodecLaws(cs) && |w| >= HEAD_LEN && room >= HEAD_LEN && Received(c, cs, w, room).Some?
    ensures var p := Received(c, cs, w, room).value;
            && |p| >= HEAD_LEN && !IsEncrypt(p) && !IsExtension(p)
            && (!IsExtension(w) ==> Open(c, w) == Some(p))
  {
    hide Open, Expand;
    OpenKeepsHead(c, w);
    var q := Open(c, w).value;
    if IsExtension(q) {
      var p := Received(c, cs, w, room).value;
      assert p[0] == WithExtensionFlag(q[..HEAD_LEN], false)[0];
      FieldsOfPrefix(q[..HEAD_LEN], q);
    }
  }

  /** The lengths for which an answer fits and can be decrypted by the one who asked. */
  predicate Answerable(c: Cipher, w: seq<byte>, n: nat, room: nat)
    requires |w| >= HEAD_LEN && n >= HEAD_LEN
  {
    if IsExtension(w) then Encryptable(c, n, room) && (c.AesCbc? ==> EncryptedLen(c, n) - HEAD_LEN <= UDP_PAYLOAD_MAX)
    else !(c.Sm4Cbc? && n > SM4_SCRATCH - 32)
  }

  /**
   * Every echo request that is received is answered, and the answer received as it was meant, if
   * and only if its length allows: for a request that came as it was, that is every length but
   * the few of SM4; for one that came compressed, what it was expanded to has to fit. In the case
   * left over nothing is sent, or with AES-CBC something that cannot be decrypted.
   */
  lemma AnsweredExactlyWhen(
    c: Cipher, cs: Codecs, w: seq<byte>, cap: nat, room: nat, slack: seq<byte>, random: seq<byte>, there: nat)
    requires Laws(c) && CodecLaws(cs) && HEAD_LEN <= |w| <= cap && room >= HEAD_LEN && there >= HEAD_LEN
    requires |slack| == 12 && |random| == 16
    requires Received(c, cs, w, room).Some? && |Received(c, cs, w, room).value| >= HEAD_LEN
    requires EchoAnswer(Received(c, cs, w, room).value).Reply?
    ensures var p := Received(c, cs, w, room).value;
            var r := EchoAnswer(p).packet;
            var a := Answered(c, cs, w, cap, room, slack, random);
            && (a.Some? <==> Encryptable(c, |p|, RoomFor(w, cap, room)))
            && (a.Some? ==> Received(c, cs, a.value, there) == if Answerable(c, w, |p|, room) then Some(r) else None)
            && (Answerable(c, w, |p|, room) ==> a.Some?)
  {
    hide Open, Seal, EchoAnswer, Received, EncryptedLen, WithinCap;
    var p := Received(c, cs, w, room).value;
    var r := EchoAnswer(p).packet;
    ReceivedIsPlain(c, cs, w, room);
    AnswerKeepsTtl(p);
    if !IsExtension(w) {
      FitsWhereItCame(c, w, cap);
    }
    if WithinCap(c, |r|) {
      SealedIsReceived(c, cs, r, slack, random, there);
    }
  }

  /** A request that was not compressed is answered where it lies. */
  lemma FitsWhereItCame(c: Cipher, w: seq<byte>, cap: nat)
    requires Laws(c) && HEAD_LEN <= |w| <= cap && Open(c, w).Some?
    ensures var n := |Open(c, w).value|;
            && (Encryptable(c, n, cap) <==> !(c.Sm4Cbc? && n > SM4_SCRATCH - 32))
            && (c.AesCbc? ==> EncryptedLen(c, n) - HEAD_LEN <= UDP_PAYLOAD_MAX)
  {
    hide Open, EncryptedLen;
    OpenedLength(c, w);
  }

  lemma SealedIsReceived(c: Cipher, cs: Codecs, r: seq<byte>, slack: seq<byte>, random: seq<byte>, room: nat)
    requires Laws(c) && CodecLaws(cs) && |r| >= HEAD_LEN && room >= HEAD_LEN && |slack| == 12 && |random| == 16
    requires WithinCap(c, |r|) && !IsEncrypt(r) && !IsExtension(r)
    ensures Received(c, cs, Seal(c, r, slack, random), room) ==
            if c.AesCbc? && EncryptedLen(c, |r|) - HEAD_LEN > UDP_PAYLOAD_MAX then None else Some(r)
  {
    hide Open, Seal, EncryptedLen, WithinCap;
    OpenOfSealed(c, r, slack, random);
    FlagOffTwice(r);
    NotExtended(cs, r, room);
  }

  /**
   * A request can be received and still have no answer: compressed it is within the limit of the
   * cipher, expanded it is not.
   */
  lemma CompressedEchoUnanswered(
    s: Setup, source: Ipv4Addr, destination: Ipv4Addr, body: seq<byte>, stale: seq<byte>,
    slack: seq<byte>, random: seq<byte>, cap: nat, room: nat)
    requires SetupLaws(s) && |stale| == HEAD_LEN && |slack| == 12 && |random| == 16
    requires Clean(s.cipher, stale[0]) && room >= HEAD_LEN + |body|
    requires !WithinCap(s.cipher, HEAD_LEN + |body|)
    requires Sent(s, source, destination, body, stale, slack, random).Some?
    ensures var w := Sent(s, source, destination, body, stale, slack, random).value;
            && |w| >= HEAD_LEN
            && (!s.cipher.AesCbc? || |w| - HEAD_LEN <= UDP_PAYLOAD_MAX ==>
                  Received(s.cipher, s.codecs, w, room) == Some(Intended(source, destination, body)))
            && Answered(s.cipher, s.codecs, w, cap, room, slack, random) == None
  {
    hide Seal, Open, Sent, Received, Intended, EchoAnswer;
    Delivered(s, source, destination, body, stale, slack, random, 0, room);
  }

  /** A compressor that makes one byte of `d`, and of everything else one byte more. */
  function PackerOf(d: seq<byte>): Codecs {
    var pack := (x: seq<byte>, room: nat) =>
      if x == d && room >= 1 then Some([0]) else if |x| + 1 <= room then Some([1] + x) else None;
    var unpack := (z: seq<byte>, room: nat) =>
      if z == [0] then (if |d| <= room then Some(d) else None)
      else if |z| > 0 && |z| - 1 <= room then Some(z[1..]) else None;
    Codecs(pack, unpack, (level: int, x: seq<byte>, room: nat) => pack(x, room), unpack)
  }

  lemma PackerIsLawful(d: seq<byte>)
    ensures CodecLaws(PackerOf(d))
  {
    var cs := PackerOf(d);
    forall x, room: nat, r: nat | cs.lz4(x, room).Some? && |x| <= r
      ensures cs.unlz4(cs.lz4(x, room).value, r) == Some(x)
    {
      if x != d {
        assert ([1 as byte] + x)[0] == 1 && ([1 as byte] + x)[1..] == x;
      }
    }
  }

  /** An echo request with 4100 bytes of data. */
  function LargePing(source: Ipv4Addr, destination: Ipv4Addr): (b: seq<byte>)
    ensures |b| == 4128
  {
    [0x45, 0, 0x10, 0x20, 0, 0, 0, 0, 64, ICMP, 0, 0] + Octets(source) + Octets(destination)
    + [ECHO_REQUEST, 0, 0, 0, 0, 0, 0, 0] + Zeros(4100)
  }

  lemma LargePingIsEchoRequest(source: Ipv4Addr, destination: Ipv4Addr)
    ensures EchoAnswer(Intended(source, destination, LargePing(source, destination))).Reply?
  {
    hide Octets, FromOctets, EchoedIp;
    var b := LargePing(source, destination);
    var head := TunHead(0, source, destination);
    var p := Intended(source, destination, b);
    assert b[0] == 0x45 && b[9] == ICMP && b[20] == ECHO_REQUEST;
    assert b[16..20] == Octets(destination);
    OctetsRoundTrip(destination);
    assert p[HEAD_LEN..] == b && p[8..12] == head[8..12] && p[1] == head[1] && p[2] == head[2];
    LargePingHeader(b);
  }

  lemma LargePingHeader(b: seq<byte>)
    requires |b| >= 28 && b[0] == 0x45
    ensures Accepted(b) && HeaderLen(b) == 20
  {
    assert b[0] & 0x0F == 5;
  }

  /** It happens with SM4, under every key: a request that is sent, received, and never answered. */
  lemma LargePingUnanswered(c: Cipher, source: Ipv4Addr, destination: Ipv4Addr, slack: seq<byte>, random: seq<byte>)
    returns (s: Setup)
    requires Laws(c) && c.Sm4Cbc? && |slack| == 12 && |random| == 16
    ensures SetupLaws(s) && s.cipher == c && s.bufCap == s.extendCap == BUFFER_SIZE
    ensures var body := LargePing(source, destination);
            && Sent(s, source, destination, body, Zeros(HEAD_LEN), slack, random).Some?
            && var w := Sent(s, source, destination, body, Zeros(HEAD_LEN), slack, random).value;
            && |w| >= HEAD_LEN
            && Received(c, s.codecs, w, BUFFER_SIZE) == Some(Intended(source, destination, body))
            && EchoAnswer(Intended(source, destination, body)).Reply?
            && Answered(c, s.codecs, w, BUFFER_SIZE, BUFFER_SIZE, slack, random) == None
  {
    hide Seal, Open, Received, EchoAnswer, LargePing, Laws, CodecLaws, TunHead, WithExtensionFlag;
    var body := LargePing(source, destination);
    PackerIsLawful(body);
    s := Setup(c, PackerOf(body), Lz4, BUFFER_SIZE, BUFFER_SIZE);
    assert Intended(source, destination, body)[HEAD_LEN..] == body;
    LargePingIsEchoRequest(source, destination);
    CompressedEchoUnanswered(s, source, destination, body, Zeros(HEAD_LEN), slack, random, BUFFER_SIZE, BUFFER_SIZE);
  }

  // ----- in place -----

  /** `handle` and the echo branch behind it: decryption, extension handling, the answer, encryption. */
  method AnswerEcho(c: Cipher, cs: Codecs, p: NetPacket, extend: NetPacket, random: seq<byte>)
    returns (reply: Option<seq<byte>>, ghost slack: seq<byte>)
    requires Laws(c) && CodecLaws(cs) && |random| == 16
    requires p.Valid() && extend.Valid() && p.buffer != extend.buffer && p != extend
    requires p.buffer.Length <= BUFFER_SIZE && extend.buffer.Length <= BUFFER_SIZE
    modifies p, p.buffer, extend, extend.buffer
    ensures |slack| == 12
    ensures reply == Answered(c, cs, old(p.Bytes()), p.buffer.Length, extend.buffer.Length, slack, random)
  {
    hide Seal, Encryptable, Received, EchoAnswer;
    slack := Zeros(12);
    reply := None;
    var q := Receive(c, cs, p, extend);
    if q == null {
      return;
    }
    var v := TurnEcho(q);
    if v.Reply? {
      reply, slack := EncryptAnswer(c, q, random);
    }
  }

  /** The setters of the echo branch, in its order. */
  method TurnEcho(p: NetPacket) returns (v: Verdict)
    requires p.Valid() && p.buffer.Length <= BUFFER_SIZE
    modifies p.buffer
    ensures v == EchoAnswer(old(p.Bytes()))
    ensures v.Reply? ==> p.Bytes() == v.packet
    ensures v.NotAnEcho? || v.Refused? ==> p.Raw() == old(p.Raw())
  {
    hide EchoedIp, FromOctets, HeaderLen;
    ghost var w := p.Bytes();
    var n := p.dataLen;
    SlicesOfFirst(p.Raw(), n);
    if p.buffer[1] != PROTOCOL_IP_TURN || p.buffer[2] != TRANSPORT_IPV4 {
      return NotAnEcho;
    }
    var destination, source := Destination(p.buffer[..]), Source(p.buffer[..]);
    var b := p.buffer[HEAD_LEN..n];
    if !Accepted(b) {
      return Refused;
    }
    if b[9] != ICMP || DestinationIp(b) != destination {
      return NotAnEcho;
    }
    var h := HeaderLen(b);
    if |b| - h < 8 {
      return Refused;
    }
    if b[h] != ECHO_REQUEST {
      return NotAnEcho;
    }
    OctetsOfFromOctets(w[8..12]);
    OctetsOfFromOctets(w[4..8]);
    v := TurnFound(p, h, b, Octets(destination), Octets(source));
  }

  lemma SlicesOfFirst(raw: seq<byte>, n: nat)
    requires HEAD_LEN <= n <= |raw|
    ensures var w := raw[..n];
            w[..4] == raw[..4] && w[4..8] == raw[4..8] && w[8..12] == raw[8..12] && w[HEAD_LEN..] == raw[HEAD_LEN..n]
  {}

  method TurnFound(p: NetPacket, h: nat, ghost b: seq<byte>, from: seq<byte>, to: seq<byte>) returns (v: Verdict)
    requires p.Valid() && p.buffer.Length <= BUFFER_SIZE && |from| == |to| == 4
    requires b == p.buffer[HEAD_LEN..p.dataLen] && Accepted(b) && h == HeaderLen(b) && |b| - h >= 8
    modifies p.buffer
    ensures v == if h < 20 then Panicked
                 else Reply(old(p.buffer[..4]) + from + to + EchoedIp(b, from, to))
    ensures v.Reply? ==> p.Bytes() == v.packet
  {
    hide Splice, WithChecksum, HeaderLen;
    var n, o := p.dataLen, HEAD_LEN + h;
    ghost var a := p.Raw();
    SplitAt(a, o, n, h);
    TurnIcmp(p.buffer, o, n);
    if h < 20 {
      return Panicked;
    }
    SliceOutside(p.Raw(), a, o, n, 0, 4);
    SliceOutside(p.Raw(), a, o, n, HEAD_LEN, o);
    TurnHeaders(p.buffer, o, n, from, to);
    v := Reply(p.buffer[..n]);
  }

  lemma SplitAt(raw: seq<byte>, o: nat, n: nat, h: nat)
    requires HEAD_LEN <= o <= n <= |raw| && o == HEAD_LEN + h
    ensures raw[HEAD_LEN..n][..h] == raw[HEAD_LEN..o] && raw[HEAD_LEN..n][h..] == raw[o..n]
    ensures raw[..4] == raw[0..4]
  {}

  method TurnIcmp(buffer: array<byte>, o: nat, n: nat)
    requires o + 8 <= n <= buffer.Length <= BUFFER_SIZE && n - o <= 65535
    modifies buffer
    ensures buffer[o..n] == WithChecksum(old(buffer[o..n])[0 := ECHO_REPLY], ICMP_CHECKSUM)
    ensures buffer[..o] == old(buffer[..o]) && buffer[n..] == old(buffer[n..])
  {
    hide WithChecksum;
    buffer[o] := ECHO_REPLY;
    assert buffer[o..n] == old(buffer[o..n])[0 := ECHO_REPLY];
    assert buffer[..o] == old(buffer[..o]) && buffer[n..] == old(buffer[n..]);
    UpdateChecksum(buffer, o, n, ICMP_CHECKSUM);
  }

  /** The addresses of both headers, and the checksum of the inner one. */
  method TurnHeaders(buffer: array<byte>, o: nat, n: nat, from: seq<byte>, to: seq<byte>)
    requires HEAD_LEN + 20 <= o <= n <= buffer.Length <= BUFFER_SIZE && |from| == |to| == 4
    modifies buffer
    ensures buffer[..n] == old(buffer[0..4]) + from + to
                           + (WithChecksum(Splice(old(buffer[HEAD_LEN..o]), 12, from + to), 10) + old(buffer[o..n]))
  {
    hide Splice, WithChecksum;
    ghost var a := buffer[..];
    TurnInner(buffer, o, from, to);
    ghost var raw := buffer[..];
    SliceOutside(raw, a, HEAD_LEN, o, 0, 4);
    SliceOutside(raw, a, HEAD_LEN, o, o, n);
    CopyInto(buffer, 4, from);
    CopyInto(buffer, 8, to);
    AnswerLayout(raw, from, to, n);
    assert raw[..4] == raw[0..4];
    assert raw[HEAD_LEN..n] == raw[HEAD_LEN..o] + raw[o..n];
  }

  method TurnInner(buffer: array<byte>, o: nat, from: seq<byte>, to: seq<byte>)
    requires HEAD_LEN + 20 <= o <= buffer.Length <= BUFFER_SIZE && |from| == |to| == 4
    modifies buffer
    ensures buffer[HEAD_LEN..o] == WithChecksum(Splice(old(buffer[HEAD_LEN..o]), 12, from + to), 10)
    ensures buffer[..HEAD_LEN] == old(buffer[..HEAD_LEN]) && buffer[o..] == old(buffer[o..])
  {
    hide Splice, WithChecksum;
    BothAddresses(buffer[HEAD_LEN..o], from, to);
    PutIn(buffer, HEAD_LEN, o, 12, from);
    PutIn(buffer, HEAD_LEN, o, 16, to);
    UpdateChecksum(buffer, HEAD_LEN, o, 10);
  }

  lemma AnswerLayout(raw: seq<byte>, from: seq<byte>, to: seq<byte>, n: nat)
    requires HEAD_LEN <= n <= |raw| && |from| == |to| == 4
    ensures Splice(Splice(raw, 4, from), 8, to)[..n] == raw[..4] + from + to + raw[HEAD_LEN..n]
  {}

  lemma BothAddresses(head: seq<byte>, from: seq<byte>, to: seq<byte>)
    requires |head| >= 20 && |from| == |to| == 4
    ensures Splice(Splice(head, 12, from), 16, to) == Splice(head, 12, from + to)
  {}
}
