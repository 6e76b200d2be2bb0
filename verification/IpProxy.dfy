/**
 * The TCP and UDP proxies: packets for addresses outside the network are turned to a local
 * port, replies are turned back to come from the address the client last asked for.
 */
module IpProxy {
  import opened Bytes
  import opened Checksum
  import opened Ipv4

  datatype Kind = Tcp | Udp

  function Code(k: Kind): byte {
    if k.Tcp? then 6 else 17
  }

  /** Where the checksum of a segment is, section 3.1 of RFC 793 and RFC 768. */
  function ChecksumAt(k: Kind): (at: nat)
    ensures at % 2 == 0 && 4 <= at
  {
    if k.Tcp? then 16 else 6
  }

  /** `TcpPacket::new` and `UdpPacket::new` accept these. */
  predicate Segment(k: Kind, seg: seq<byte>) {
    match k
    case Tcp => |seg| >= 20 && |seg| >= (seg[12] >> 4) as nat * 4
    case Udp => |seg| >= 8
  }

  /** The segments the parsers accept, and where their checksum lies, in numbers. */
  lemma SegmentExactly(seg: seq<byte>)
    ensures Segment(Tcp, seg) <==> |seg| >= 20 && |seg| >= 4 * (seg[12] as nat / 16)
    ensures Segment(Udp, seg) <==> |seg| >= 8
    ensures ChecksumAt(Tcp) == 16 && ChecksumAt(Udp) == 6 && Code(Tcp) == 6 && Code(Udp) == 17
  {
    if |seg| >= 20 {
      Nibbles(seg[12]);
    }
  }

  lemma SegmentHoldsChecksum(k: Kind, seg: seq<byte>)
    requires Segment(k, seg)
    ensures |seg| >= ChecksumAt(k) + 2
  {}

  function SourcePort(seg: seq<byte>): (p: nat)
    requires |seg| >= 4
    ensures p < 65536
  {
    Be16(seg[0], seg[1])
  }

  function DestinationPort(seg: seq<byte>): (p: nat)
    requires |seg| >= 4
    ensures p < 65536
  {
    Be16(seg[2], seg[3])
  }

  /** `is_valid` of a segment under the addresses of a header. */
  predicate SegmentValid(k: Kind, seg: seq<byte>, source: Ipv4Addr, destination: Ipv4Addr)
    requires |seg| >= ChecksumAt(k) + 2
  {
    || Be16(seg[ChecksumAt(k)], seg[ChecksumAt(k) + 1]) == 0
    || PseudoChecksumOf(seg, source, destination, Code(k)) == 0
  }

  /** A packet whose checksums, recomputed with its own addresses, both give zero. */
  predicate Sound(k: Kind, b: seq<byte>)
    requires IpPacket(b)
  {
    && ChecksumOf(Header(b)) == 0
    && PseudoChecksumOf(Payload(b), SourceIp(b), DestinationIp(b), Code(k)) == 0
  }

  /** What the validity tests accept: a field of zero, or a sum that is a positive multiple of 65535. */
  lemma ValidExactly(k: Kind, b: seq<byte>, source: Ipv4Addr, destination: Ipv4Addr)
    requires IpPacket(b) && |Payload(b)| >= ChecksumAt(k) + 2
    ensures IpValid(b) <==>
            || (b[10] == 0 && b[11] == 0)
            || (WordSum(Header(b)) > 0 && WordSum(Header(b)) % 65535 == 0)
    ensures var seg, at := Payload(b), ChecksumAt(k);
            var sum := PseudoSum(source, destination, Code(k), |seg|) + WordSum(seg);
            SegmentValid(k, seg, source, destination) <==> (seg[at] == 0 && seg[at + 1] == 0) || (sum > 0 && sum % 65535 == 0)
  {
    hide Octets, WordSum, Complement;
    ComplementIsZero(WordSum(Header(b)));
    var seg, at := Payload(b), ChecksumAt(k);
    ComplementIsZero(PseudoSum(source, destination, Code(k), |seg|) + WordSum(seg));
    WordIsZero(b[10], b[11]);
    WordIsZero(seg[at], seg[at + 1]);
  }

  lemma WordIsZero(hi: byte, lo: byte)
    ensures Be16(hi, lo) == 0 <==> hi == 0 && lo == 0
  {}

  lemma SoundIsValid(k: Kind, b: seq<byte>)
    requires IpPacket(b) && |Payload(b)| >= ChecksumAt(k) + 2 && Sound(k, b)
    ensures IpValid(b) && SegmentValid(k, Payload(b), SourceIp(b), DestinationIp(b))
  {}

  // ----- one rewriting -----

  /** Both proxies and both directions: one address and the port beside it, then both checksums. */
  function Rewritten(
    k: Kind, b: seq<byte>, addressAt: nat, address: Ipv4Addr, portAt: nat, port: nat,
    source: Ipv4Addr, destination: Ipv4Addr
  ): (r: seq<byte>)
    requires Accepted(b) && Segment(k, Payload(b)) && addressAt in {12, 16} && portAt in {0, 2} && port < 65536
    requires addressAt + 4 <= HeaderLen(b)
    ensures |r| == |b|
  {
    SegmentHoldsChecksum(k, Payload(b));
    var seg := WithPseudoChecksum(Splice(Payload(b), portAt, ToBe16(port)), ChecksumAt(k), source, destination, Code(k));
    var head := WithChecksum(Splice(Header(b), addressAt, Octets(address)), 10);
    head + seg
  }

  /** The bytes a rewriting may change: address, header checksum, port, segment checksum. */
  predicate MayChange(k: Kind, h: nat, addressAt: nat, portAt: nat, i: int) {
    || addressAt <= i < addressAt + 4
    || 10 <= i < 12
    || h + portAt <= i < h + portAt + 2
    || h + ChecksumAt(k) <= i < h + ChecksumAt(k) + 2
  }

  lemma RewrittenSegment(k: Kind, seg0: seq<byte>, portAt: nat, port: nat, source: Ipv4Addr, destination: Ipv4Addr)
    requires |seg0| >= ChecksumAt(k) + 2 && portAt in {0, 2} && port < 65536
    ensures var at := ChecksumAt(k);
            var seg := WithPseudoChecksum(Splice(seg0, portAt, ToBe16(port)), at, source, destination, Code(k));
            && PseudoChecksumOf(seg, source, destination, Code(k)) == 0
            && Be16(seg[portAt], seg[portAt + 1]) == port
            && (forall i :: 0 <= i < |seg0| && !(portAt <= i < portAt + 2 || at <= i < at + 2) ==> seg[i] == seg0[i])
  {
    hide Splice, PseudoChecksumOf, ByteOf, Be16;
    var at := ChecksumAt(k);
    var x := Splice(seg0, portAt, ToBe16(port));
    var word := ToBe16(PseudoChecksumOf(Splice(x, at, [0, 0]), source, destination, Code(k)));
    StoredPseudoChecksumValidates(x, at, source, destination, Code(k));
    SpliceHas(seg0, portAt, ToBe16(port));
    SpliceKeeps(x, at, word, portAt, portAt + 2);
    SplicedAt(seg0, portAt, ToBe16(port));
    SplicedAt(x, at, word);
    assert x[portAt..portAt + 2] == ToBe16(port);
    assert Splice(x, at, word)[portAt..portAt + 2][0] == ToBe16(port)[0];
    assert Splice(x, at, word)[portAt..portAt + 2][1] == ToBe16(port)[1];
  }

  /** What a rewriting leaves: one address and port replaced, nothing else but the checksums changed. */
  lemma RewrittenMeans(
    k: Kind, b: seq<byte>, addressAt: nat, address: Ipv4Addr, portAt: nat, port: nat,
    source: Ipv4Addr, destination: Ipv4Addr)
    requires IpPacket(b) && Segment(k, Payload(b)) && addressAt in {12, 16} && portAt in {0, 2} && port < 65536
    ensures var r := Rewritten(k, b, addressAt, address, portAt, port, source, destination);
            && |r| == |b| && IpPacket(r) && HeaderLen(r) == HeaderLen(b)
            && ChecksumOf(Header(r)) == 0
            && PseudoChecksumOf(Payload(r), source, destination, Code(k)) == 0
            && |Payload(r)| >= 4
            && (if portAt == 0 then SourcePort(Payload(r)) == port && DestinationPort(Payload(r)) == DestinationPort(Payload(b))
                else DestinationPort(Payload(r)) == port && SourcePort(Payload(r)) == SourcePort(Payload(b)))
            && (if addressAt == 12 then SourceIp(r) == address && DestinationIp(r) == DestinationIp(b)
                else DestinationIp(r) == address && SourceIp(r) == SourceIp(b))
            && (forall i :: 0 <= i < |b| && !MayChange(k, HeaderLen(b), addressAt, portAt, i) ==> r[i] == b[i])
  {
    hide Splice, ChecksumOf, PseudoChecksumOf, ByteOf, Be16, WithChecksum, WithPseudoChecksum, SourceIp, DestinationIp, MayChange;
    SegmentHoldsChecksum(k, Payload(b));
    RewrittenHead(Header(b), addressAt, Octets(address));
    RewrittenSegment(k, Payload(b), portAt, port, source, destination);
    var seg := WithPseudoChecksum(Splice(Payload(b), portAt, ToBe16(port)), ChecksumAt(k), source, destination, Code(k));
    var head := WithChecksum(Splice(Header(b), addressAt, Octets(address)), 10);
    Joined(b, head, seg);
    JoinedAddresses(b, head, seg, addressAt, address);
    JoinedKeeps(k, b, head, seg, addressAt, portAt);
  }

  lemma JoinedAddresses(b: seq<byte>, head: seq<byte>, seg: seq<byte>, addressAt: nat, address: Ipv4Addr)
    requires IpPacket(b) && |head| == HeaderLen(b) && |seg| == |b| - |head| && addressAt in {12, 16}
    requires head[addressAt..addressAt + 4] == Octets(address)
    requires forall i :: 0 <= i < |head| && !(addressAt <= i < addressAt + 4 || 10 <= i < 12) ==> head[i] == Header(b)[i]
    ensures if addressAt == 12 then SourceIp(head + seg) == address && DestinationIp(head + seg) == DestinationIp(b)
            else DestinationIp(head + seg) == address && SourceIp(head + seg) == SourceIp(b)
  {
    hide Octets, FromOctets, HeaderLen;
    var r := head + seg;
    OctetsRoundTrip(address);
    assert r[12..16] == head[12..16] && r[16..20] == head[16..20];
    var at := if addressAt == 12 then 16 else 12;
    var x, y := head[at..at + 4], b[at..at + 4];
    forall i | 0 <= i < 4 ensures x[i] == y[i] {
      assert head[at + i] == Header(b)[at + i];
    }
    assert x == y;
  }

  lemma JoinedKeeps(k: Kind, b: seq<byte>, head: seq<byte>, seg: seq<byte>, addressAt: nat, portAt: nat)
    requires IpPacket(b) && |head| == HeaderLen(b) && |seg| == |b| - |head|
    requires forall i :: 0 <= i < |head| && !(addressAt <= i < addressAt + 4 || 10 <= i < 12) ==> head[i] == Header(b)[i]
    requires forall i :: 0 <= i < |seg| && !(portAt <= i < portAt + 2 || ChecksumAt(k) <= i < ChecksumAt(k) + 2)
                         ==> seg[i] == Payload(b)[i]
    ensures forall i :: 0 <= i < |b| && !MayChange(k, HeaderLen(b), addressAt, portAt, i) ==> (head + seg)[i] == b[i]
  {}

  // ----- out to the local port -----

  /** `recv_handle`: `source` and `destination` are the addresses of the tunnel packet. */
  function Proxied(k: Kind, b: seq<byte>, source: Ipv4Addr, destination: Ipv4Addr, port: nat): (r: seq<byte>)
    requires IpPacket(b) && Segment(k, Payload(b)) && port < 65536
  {
    Rewritten(k, b, 16, destination, 2, port, source, destination)
  }

  /** `r` is `b` with that destination, sound checksums, and nothing else changed. */
  ghost predicate GoesTo(k: Kind, b: seq<byte>, r: seq<byte>, destination: Ipv4Addr, port: nat)
    requires IpPacket(b) && |Payload(b)| >= 4
  {
    && |r| == |b| && IpPacket(r) && Sound(k, r)
    && |Payload(r)| >= 4 && DestinationIp(r) == destination && DestinationPort(Payload(r)) == port
    && SourceIp(r) == SourceIp(b) && SourcePort(Payload(r)) == SourcePort(Payload(b))
    && forall i :: 0 <= i < |b| && !MayChange(k, HeaderLen(b), 16, 2, i) ==> r[i] == b[i]
  }

  /** For a packet that names the tunnel source as its own, everything fits afterwards. */
  lemma ProxiedIsSound(k: Kind, b: seq<byte>, source: Ipv4Addr, destination: Ipv4Addr, port: nat)
    requires IpPacket(b) && Segment(k, Payload(b)) && port < 65536
    requires SourceIp(b) == source
    ensures |Payload(b)| >= 4 && GoesTo(k, b, Proxied(k, b, source, destination, port), destination, port)
  {
    hide Rewritten, ChecksumOf, PseudoChecksumOf, SourceIp, DestinationIp;
    RewrittenMeans(k, b, 16, destination, 2, port, source, destination);
  }

  /**
   * For any other packet the segment was summed with an address the header does not carry:
   * it recomputes to zero exactly if both addresses have the same word sum modulo 65535.
   */
  lemma ProxiedNeedsItsSource(k: Kind, b: seq<byte>, source: Ipv4Addr, destination: Ipv4Addr, port: nat)
    requires IpPacket(b) && Segment(k, Payload(b)) && port < 65536
    ensures var r := Proxied(k, b, source, destination, port);
            && |r| == |b| && IpPacket(r)
            && (Sound(k, r) <==> WordSum(Octets(source)) % MAX_WORD == WordSum(Octets(SourceIp(b))) % MAX_WORD)
  {
    hide Rewritten, Octets, SourceIp, DestinationIp, WordSum, Complement, MAX_WORD;
    RewrittenMeans(k, b, 16, destination, 2, port, source, destination);
    var r := Proxied(k, b, source, destination, port);
    var rest := WordSum(Octets(destination)) + Code(k) as nat + |Payload(r)| + WordSum(Payload(r));
    CodeIsPositive(k);
    SwappedSource(WordSum(Octets(source)), WordSum(Octets(SourceIp(b))), rest);
  }

  /** Such packets exist: one from 10.0.0.1 in a tunnel packet from 10.0.0.2 is turned into one that does not check. */
  lemma ForeignSourceDoesNotCheck(k: Kind, b: seq<byte>, destination: Ipv4Addr, port: nat)
    requires IpPacket(b) && Segment(k, Payload(b)) && port < 65536
    requires SourceIp(b) == Ipv4Addr(0x0A00_0001)
    ensures var r := Proxied(k, b, Ipv4Addr(0x0A00_0002), destination, port);
            |r| == |b| && IpPacket(r) && !Sound(k, r)
  {
    hide Proxied, Sound, SourceIp;
    ProxiedNeedsItsSource(k, b, Ipv4Addr(0x0A00_0002), destination, port);
    AddressSums();
  }

  lemma AddressSums()
    ensures WordSum(Octets(Ipv4Addr(0x0A00_0001))) == 2561
    ensures WordSum(Octets(Ipv4Addr(0x0A00_0002))) == 2562
    ensures WordSum(Octets(Ipv4Addr(0x0A00_0003))) == 2563
  {
    hide WordSum;
    FourOctets([10, 0, 0, 1]);
    FourOctets([10, 0, 0, 2]);
    FourOctets([10, 0, 0, 3]);
    assert Octets(Ipv4Addr(0x0A00_0001)) == [10, 0, 0, 1];
    assert Octets(Ipv4Addr(0x0A00_0002)) == [10, 0, 0, 2];
    assert Octets(Ipv4Addr(0x0A00_0003)) == [10, 0, 0, 3];
  }

  /** A whole one, whose new checksum is there and wrong, so that the validity test refuses it. */
  lemma ForeignSourceIsRefused()
    ensures var b := [0x45, 0, 0, 28, 0, 0, 0, 0, 64, 17, 0, 0, 10, 0, 0, 1, 10, 0, 0, 9, 0, 5, 0, 6, 0, 8, 0, 0];
            && IpPacket(b) && Segment(Udp, Payload(b))
            && var r := Proxied(Udp, b, Ipv4Addr(0x0A00_0002), Ipv4Addr(0x0A00_0003), 80);
            && |r| == 28 && IpPacket(r) && |Payload(r)| == 8
            && !SegmentValid(Udp, Payload(r), SourceIp(r), DestinationIp(r))
  {
    hide Rewritten, Sound, Be16, FromOctets, Octets, PseudoChecksumOf, SegmentValid;
    var b: seq<byte> := [0x45, 0, 0, 28, 0, 0, 0, 0, 64, 17, 0, 0, 10, 0, 0, 1, 10, 0, 0, 9, 0, 5, 0, 6, 0, 8, 0, 0];
    ExampleIsPacket(b);
    var source, destination := Ipv4Addr(0x0A00_0002), Ipv4Addr(0x0A00_0003);
    RewrittenMeans(Udp, b, 16, destination, 2, 80, source, destination);
    ForeignSourceDoesNotCheck(Udp, b, destination, 80);
    var r := Proxied(Udp, b, source, destination, 80);
    assert Payload(r)[4] == r[24] == b[24] && Payload(r)[5] == r[25] == b[25];
    assert Payload(b)[0] == b[20] && Payload(b)[1] == b[21];
    ExampleIsRefused(Payload(r), source, destination, SourceIp(r));
    FailsItsOwnAddresses(r);
  }

  lemma ExampleIsPacket(b: seq<byte>)
    requires b == [0x45, 0, 0, 28, 0, 0, 0, 0, 64, 17, 0, 0, 10, 0, 0, 1, 10, 0, 0, 9, 0, 5, 0, 6, 0, 8, 0, 0]
    ensures IpPacket(b) && HeaderLen(b) == 20 && SourceIp(b) == Ipv4Addr(0x0A00_0001)
    ensures |Payload(b)| == 8 && Segment(Udp, Payload(b)) && SourcePort(Payload(b)) == 5 && Be16(b[24], b[25]) == 8
  {
    assert b[0] & 0x0F == 5;
    assert b[12..16] == [10, 0, 0, 1];
  }

  /** Its checksum field cannot be zero: the rest of the sum is 5243. */
  lemma ExampleIsRefused(seg: seq<byte>, source: Ipv4Addr, destination: Ipv4Addr, own: Ipv4Addr)
    requires |seg| == 8 && source == Ipv4Addr(0x0A00_0002) && destination == Ipv4Addr(0x0A00_0003)
    requires SourcePort(seg) == 5 && DestinationPort(seg) == 80 && Be16(seg[4], seg[5]) == 8
    requires PseudoChecksumOf(seg, source, destination, Code(Udp)) == 0
    ensures Be16(seg[6], seg[7]) != 0
  {
    hide Octets, Be16;
    AddressSums();
    EightBytes(seg);
    UdpCode();
    ComplementIsZero(PseudoSum(source, destination, Code(Udp), 8) + WordSum(seg));
  }

  lemma UdpCode()
    ensures Code(Udp) as nat == 17
  {}

  /** A header in order and no sound packet: then it is the segment that fails. */
  lemma FailsItsOwnAddresses(r: seq<byte>)
    requires IpPacket(r) && |Payload(r)| >= 8 && ChecksumOf(Header(r)) == 0 && !Sound(Udp, r)
    requires Be16(Payload(r)[6], Payload(r)[7]) != 0
    ensures !SegmentValid(Udp, Payload(r), SourceIp(r), DestinationIp(r))
  {}

  lemma CodeIsPositive(k: Kind)
    ensures Code(k) as nat > 0
  {}

  lemma SwappedSource(a: nat, b: nat, rest: nat)
    requires rest > 0 && Complement(a + rest) == 0
    ensures Complement(b + rest) == 0 <==> a % MAX_WORD == b % MAX_WORD
  {
    ComplementIsZero(a + rest);
    ComplementIsZero(b + rest);
    if a % MAX_WORD == b % MAX_WORD {
      CongruentSums(a, b, rest);
    }
    if (b + rest) % MAX_WORD == 0 {
      CongruentSums(a + rest, b + rest, MAX_WORD * rest - rest);
      MultiplesVanish(a, rest);
      MultiplesVanish(b, rest);
    }
  }

  // ----- back to the client -----

  datatype Endpoint = Endpoint(ip: Ipv4Addr, port: nat)

  /** `send_handle` for a packet whose receiver has an entry. */
  function Restored(k: Kind, b: seq<byte>, target: Endpoint): (r: seq<byte>)
    requires Accepted(b) && HeaderLen(b) >= 16 && Segment(k, Payload(b)) && target.port < 65536
  {
    Rewritten(k, b, 12, target.ip, 0, target.port, target.ip, DestinationIp(b))
  }

  /** `r` is `b` with that source, sound checksums, and nothing else changed. */
  ghost predicate ComesFrom(k: Kind, b: seq<byte>, r: seq<byte>, target: Endpoint)
    requires IpPacket(b) && |Payload(b)| >= 4
  {
    && |r| == |b| && IpPacket(r) && Sound(k, r)
    && |Payload(r)| >= 4 && SourceIp(r) == target.ip && SourcePort(Payload(r)) == target.port
    && DestinationIp(r) == DestinationIp(b) && DestinationPort(Payload(r)) == DestinationPort(Payload(b))
    && forall i :: 0 <= i < |b| && !MayChange(k, HeaderLen(b), 12, 0, i) ==> r[i] == b[i]
  }

  lemma RestoredIsSound(k: Kind, b: seq<byte>, target: Endpoint)
    requires IpPacket(b) && Segment(k, Payload(b)) && target.port < 65536
    ensures |Payload(b)| >= 4 && ComesFrom(k, b, Restored(k, b, target), target)
  {
    hide Rewritten, ChecksumOf, PseudoChecksumOf, SourceIp, DestinationIp;
    RewrittenMeans(k, b, 12, target.ip, 0, target.port, target.ip, DestinationIp(b));
  }

  // ----- the address map over a run -----

  /** A client aims at a target, or its idle relay is taken down, which only the UDP proxy does. */
  datatype NatEvent = Aims(client: Endpoint, target: Endpoint) | Forgets(client: Endpoint)

  function LastTarget(history: seq<NatEvent>, client: Endpoint): Option<Endpoint> {
    if |history| == 0 then None
    else
      var e := history[|history| - 1];
      if e.client != client then LastTarget(history[..|history| - 1], client)
      else if e.Aims? then Some(e.target)
      else None
  }

  /** `Ok`, an error, or a panic on a slice behind the header. */
  datatype Handled = Done | Refused | Panicked

  class Proxy {
    const kind: Kind
    const port: nat
    var natMap: map<Endpoint, Endpoint>
    ghost var history: seq<NatEvent>

    ghost predicate Valid()
      reads this
    {
      && port < 65536
      && (forall c :: c in natMap ==> natMap[c].port < 65536)
      && forall c :: LastTarget(history, c) == if c in natMap then Some(natMap[c]) else None
    }

    constructor (kind: Kind, port: nat)
      requires port < 65536
      ensures Valid() && this.kind == kind && this.port == port && history == []
    {
      this.kind, this.port := kind, port;
      natMap := map[];
      history := [];
    }

    /** `recv_handle`: an error for a short segment; for a short header it panics when it sets the address. */
    method RecvHandle(buffer: array<byte>, source: Ipv4Addr, destination: Ipv4Addr) returns (r: Handled)
      requires Valid() && Accepted(buffer[..]) && buffer.Length <= 65535
      modifies this, buffer
      ensures Valid()
      ensures var b := old(buffer[..]);
              r == if !Segment(kind, Payload(b)) then Refused else if HeaderLen(b) < 20 then Panicked else Done
      ensures r.Refused? ==> buffer[..] == old(buffer[..])
      ensures !r.Done? ==> history == old(history)
      ensures var b := old(buffer[..]);
              r.Done? ==>
                && buffer[..] == Proxied(kind, b, source, destination, port)
                && |Payload(b)| >= 4
                && history == old(history) + [Aims(Endpoint(source, SourcePort(Payload(b))),
                                                   Endpoint(DestinationIp(b), DestinationPort(Payload(b))))]
                && (IpPacket(b) && SourceIp(b) == source ==> GoesTo(kind, b, buffer[..], destination, port))
    {
      hide Rewritten, Segment, GoesTo, HeaderLen, Be16, FromOctets, LastTarget;
      ghost var b := buffer[..];
      var h := HeaderLen(buffer[..]);
      var destIp := DestinationIp(buffer[..]);
      var seg := buffer[h..];
      if !Segment(kind, seg) {
        return Refused;
      }
      SegmentHoldsChecksum(kind, seg);
      var sourcePort, destPort := SourcePort(seg), DestinationPort(seg);
      var ok := Rewrite(kind, buffer, 16, destination, 2, port, source, destination);
      if !ok {
        return Panicked;
      }
      if SourceIp(b) == source {
        ProxiedIsSound(kind, b, source, destination, port);
      }
      Record(Aims(Endpoint(source, sourcePort), Endpoint(destIp, destPort)));
      r := Done;
    }

    method Record(e: NatEvent)
      requires Valid() && (e.Aims? ==> e.target.port < 65536)
      modifies this
      ensures Valid() && history == old(history) + [e]
    {
      ghost var h := history + [e];
      assert h[..|h| - 1] == history;
      history := h;
      natMap := if e.Aims? then natMap[e.client := e.target] else natMap - {e.client};
    }

    /** The clean-up behind the UDP proxy's relay task. */
    method Forget(client: Endpoint)
      requires Valid()
      modifies this
      ensures Valid() && history == old(history) + [Forgets(client)]
    {
      Record(Forgets(client));
    }

    /**
     * `send_handle`: a reply to a client leaves as if it came from where that client last aimed
     * at, with sound checksums; a packet for nobody known is left as it is.
     */
    method SendHandle(buffer: array<byte>) returns (r: Handled)
      requires Valid() && Accepted(buffer[..]) && buffer.Length <= 65535
      modifies buffer
      ensures Valid()
      ensures r.Refused? <==> !Segment(kind, Payload(old(buffer[..])))
      ensures r.Refused? ==> buffer[..] == old(buffer[..])
      ensures !r.Refused? ==>
        var b := old(buffer[..]);
        && |Payload(b)| >= 4
        && match LastTarget(history, Endpoint(DestinationIp(b), DestinationPort(Payload(b)))) {
             case None => r.Done? && buffer[..] == b
             case Some(target) =>
               && (r.Done? <==> HeaderLen(b) >= 16)
               && (r.Done? ==> target.port < 65536 && buffer[..] == Restored(kind, b, target))
               && (r.Done? && IpPacket(b) ==> ComesFrom(kind, b, buffer[..], target))
           }
    {
      hide Rewritten, Segment, ComesFrom, HeaderLen, Be16, FromOctets, LastTarget;
      ghost var b := buffer[..];
      var h := HeaderLen(buffer[..]);
      var destIp := DestinationIp(buffer[..]);
      var seg := buffer[h..];
      if !Segment(kind, seg) {
        return Refused;
      }
      SegmentHoldsChecksum(kind, seg);
      var client := Endpoint(destIp, DestinationPort(seg));
      r := Done;
      if client in natMap {
        var target := natMap[client];
        if IpPacket(buffer[..]) {
          RestoredIsSound(kind, b, target);
        }
        var ok := Rewrite(kind, buffer, 12, target.ip, 0, target.port, target.ip, destIp);
        if !ok {
          return Panicked;
        }
      }
    }
  }

  /** Setters and `update_checksum` of segment and header, in the order in which both handlers call them. */
  method Rewrite(
    k: Kind, buffer: array<byte>, addressAt: nat, address: Ipv4Addr, portAt: nat, port: nat,
    source: Ipv4Addr, destination: Ipv4Addr
  ) returns (ok: bool)
    requires Accepted(buffer[..]) && Segment(k, Payload(buffer[..])) && buffer.Length <= 65535
    requires addressAt in {12, 16} && portAt in {0, 2} && port < 65536
    modifies buffer
    ensures ok <==> addressAt + 4 <= HeaderLen(old(buffer[..]))
    ensures ok ==> buffer[..] == Rewritten(k, old(buffer[..]), addressAt, address, portAt, port, source, destination)
  {
    hide Splice, Octets, ByteOf, Be16, ChecksumOf, PseudoChecksumOf, Segment;
    ghost var b := buffer[..];
    var h := HeaderLen(buffer[..]);
    ghost var head, seg := b[..h], b[h..];
    SegmentHoldsChecksum(k, seg);
    PutInSegment(buffer, h, portAt, ToBe16(port), head, seg);
    UpdateSegmentChecksum(k, buffer, h, source, destination, head, Splice(seg, portAt, ToBe16(port)));
    ghost var seg2 := WithPseudoChecksum(Splice(seg, portAt, ToBe16(port)), ChecksumAt(k), source, destination, Code(k));
    if addressAt + 4 > h {
      return false;
    }
    PutInHeader(buffer, h, addressAt, Octets(address), head, seg2);
    assert buffer[..][..h] == Splice(head, addressAt, Octets(address)) && buffer[..][h..] == seg2;
    UpdateChecksum(buffer, 0, h, 10);
    assert buffer[..] == buffer[..h] + buffer[h..];
    ok := true;
  }

  method PutInSegment(buffer: array<byte>, h: nat, at: nat, piece: seq<byte>, ghost head: seq<byte>, ghost seg: seq<byte>)
    requires |head| == h && buffer[..] == head + seg && at + |piece| <= |seg|
    modifies buffer
    ensures buffer[..] == head + Splice(seg, at, piece)
  {
    hide Splice;
    CopyInto(buffer, h + at, piece);
    SpliceJoined(head, seg, at, piece);
  }

  lemma SpliceJoined(head: seq<byte>, seg: seq<byte>, at: nat, piece: seq<byte>)
    ensures at + |piece| <= |seg| ==> Splice(head + seg, |head| + at, piece) == head + Splice(seg, at, piece)
    ensures at + |piece| <= |head| ==> Splice(head + seg, at, piece) == Splice(head, at, piece) + seg
  {}

  method PutInHeader(buffer: array<byte>, h: nat, at: nat, piece: seq<byte>, ghost head: seq<byte>, ghost seg: seq<byte>)
    requires |head| == h && buffer[..] == head + seg && at + |piece| <= h
    modifies buffer
    ensures buffer[..] == Splice(head, at, piece) + seg
  {
    hide Splice;
    CopyInto(buffer, at, piece);
    SpliceJoined(head, seg, at, piece);
  }

  method UpdateSegmentChecksum(
    k: Kind, buffer: array<byte>, h: nat, source: Ipv4Addr, destination: Ipv4Addr,
    ghost head: seq<byte>, ghost seg: seq<byte>)
    requires |head| == h && buffer[..] == head + seg && |seg| >= ChecksumAt(k) + 2 && buffer.Length <= 65535
    modifies buffer
    ensures buffer[..] == head + WithPseudoChecksum(seg, ChecksumAt(k), source, destination, Code(k))
  {
    hide Splice, PseudoChecksumOf, ByteOf, Be16;
    var at := ChecksumAt(k);
    PutInSegment(buffer, h, at, [0, 0], head, seg);
    ghost var zeroed := Splice(seg, at, [0, 0]);
    assert buffer[h..] == zeroed;
    var c := Ipv4CalChecksum(buffer[h..], source, destination, Code(k));
    PutInSegment(buffer, h, at, ToBe16(c), head, zeroed);
    StoredWordTwice(seg, at, ToBe16(c));
  }
}
