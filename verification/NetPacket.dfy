/** The 12-byte VNT header in front of every datagram, and the packet that owns a buffer. */
module NetPackets {
  import opened Bytes

  const HEAD_LEN := 12
  const MAX_TTL: byte := 0x0F
  const MAX_SOURCE: byte := 0xF0
  const VERSION_2: byte := 2
  const PROTOCOL_IP_TURN: byte := 4
  const TRANSPORT_IPV4: byte := 4

  predicate IsEncrypt(b: seq<byte>)
    requires |b| >= HEAD_LEN
  {
    b[0] & 0x80 == 0x80
  }

  predicate IsGateway(b: seq<byte>)
    requires |b| >= HEAD_LEN
  {
    b[0] & 0x40 == 0x40
  }

  predicate IsExtension(b: seq<byte>)
    requires |b| >= HEAD_LEN
  {
    b[0] & 0x20 == 0x20
  }

  function Protocol(b: seq<byte>): byte
    requires |b| >= HEAD_LEN
  {
    b[1]
  }

  function TransportProtocol(b: seq<byte>): byte
    requires |b| >= HEAD_LEN
  {
    b[2]
  }

  function Ttl(b: seq<byte>): (t: byte)
    requires |b| >= HEAD_LEN
    ensures t <= 15
  {
    b[3] & MAX_TTL
  }

  function SourceTtl(b: seq<byte>): (t: byte)
    requires |b| >= HEAD_LEN
    ensures t <= 15
  {
    b[3] >> 4
  }

  function Source(b: seq<byte>): Ipv4Addr
    requires |b| >= HEAD_LEN
  {
    FromOctets(b[4..8])
  }

  function Destination(b: seq<byte>): Ipv4Addr
    requires |b| >= HEAD_LEN
  {
    FromOctets(b[8..12])
  }

  function WithEncryptFlag(b: seq<byte>, on: bool): (r: seq<byte>)
    requires |b| >= HEAD_LEN
    ensures |r| == |b| && IsEncrypt(r) == on
    ensures IsGateway(r) == IsGateway(b) && IsExtension(r) == IsExtension(b)
    ensures r[1..] == b[1..]
  {
    b[0 := if on then b[0] | 0x80 else b[0] & 0x7F]
  }

  function WithGatewayFlag(b: seq<byte>, on: bool): (r: seq<byte>)
    requires |b| >= HEAD_LEN
    ensures |r| == |b| && IsGateway(r) == on
    ensures IsEncrypt(r) == IsEncrypt(b) && IsExtension(r) == IsExtension(b)
    ensures r[1..] == b[1..]
  {
    b[0 := if on then b[0] | 0x40 else b[0] & 0xBF]
  }

  function WithExtensionFlag(b: seq<byte>, on: bool): (r: seq<byte>)
    requires |b| >= HEAD_LEN
    ensures |r| == |b| && IsExtension(r) == on
    ensures IsEncrypt(r) == IsEncrypt(b) && IsGateway(r) == IsGateway(b)
    ensures r[1..] == b[1..]
  {
    b[0 := if on then b[0] | 0x20 else b[0] & 0xDF]
  }

  function WithTtl(b: seq<byte>, ttl: byte): (r: seq<byte>)
    requires |b| >= HEAD_LEN
    ensures |r| == |b| && SourceTtl(r) == SourceTtl(b)
    ensures ttl <= 15 ==> Ttl(r) == ttl
    ensures r[..3] == b[..3] && r[4..] == b[4..]
  {
    b[3 := (b[3] & MAX_SOURCE) | (MAX_TTL & ttl)]
  }

  /** What one relay does to a packet before it sends it on: `incr_ttl` lowers the low nibble of byte 3. */
  function Relayed(b: seq<byte>): (r: seq<byte>)
    requires |b| >= HEAD_LEN && Ttl(b) != 0
    ensures |r| == |b| && Ttl(r) == Ttl(b) - 1 && SourceTtl(r) == SourceTtl(b)
    ensures r[..3] == b[..3] && r[4..] == b[4..]
  {
    WithTtl(b, Ttl(b) - 1)
  }

  /** The head a freshly built packet carries in byte 3. */
  function FirstTtl(ttl: byte): (v: byte)
    ensures ttl <= 15 ==> v & MAX_TTL == ttl && v >> 4 == ttl
  {
    (ttl << 4) | ttl
  }

  /**
   * The part of the header that keys the nonce and the fingerprint: addresses, protocols,
   * gateway flag and source ttl.
   */
  function HeadTag(b: seq<byte>): (tag: seq<byte>)
    requires |b| >= HEAD_LEN
    ensures |tag| == 12
  {
    b[4..8] + b[8..12] + [Protocol(b), TransportProtocol(b), if IsGateway(b) then 1 else 0, SourceTtl(b)]
  }

  /** The six header comparisons that a cipher which seals the header makes after opening it. */
  predicate SameIdentity(inner: seq<byte>, outer: seq<byte>)
    requires |inner| >= HEAD_LEN && |outer| >= HEAD_LEN
  {
    && Source(inner) == Source(outer)
    && Destination(inner) == Destination(outer)
    && Protocol(inner) == Protocol(outer)
    && TransportProtocol(inner) == TransportProtocol(outer)
    && IsGateway(inner) == IsGateway(outer)
    && SourceTtl(inner) == SourceTtl(outer)
  }

  /** Those comparisons accept exactly the headers with the same tag. */
  lemma SameIdentityIsSameTag(inner: seq<byte>, outer: seq<byte>)
    requires |inner| >= HEAD_LEN && |outer| >= HEAD_LEN
    ensures SameIdentity(inner, outer) <==> HeadTag(inner) == HeadTag(outer)
  {
    FromOctetsInjective(inner[4..8], outer[4..8]);
    FromOctetsInjective(inner[8..12], outer[8..12]);
    TagFields(inner, outer);
  }

  lemma TagFields(inner: seq<byte>, outer: seq<byte>)
    requires |inner| >= HEAD_LEN && |outer| >= HEAD_LEN
    ensures HeadTag(inner) == HeadTag(outer) <==>
            && inner[4..8] == outer[4..8]
            && inner[8..12] == outer[8..12]
            && Protocol(inner) == Protocol(outer)
            && TransportProtocol(inner) == TransportProtocol(outer)
            && IsGateway(inner) == IsGateway(outer)
            && SourceTtl(inner) == SourceTtl(outer)
  {
    var t, u := HeadTag(inner), HeadTag(outer);
    assert t[..4] == inner[4..8] && t[4..8] == inner[8..12];
    assert u[..4] == outer[4..8] && u[4..8] == outer[8..12];
    if t == u {
      assert t[8] == u[8] && t[9] == u[9] && t[10] == u[10] && t[11] == u[11];
    }
  }

  /** Relaying, encrypting and extending change no byte the tag reads. */
  lemma TagIgnoresTtlAndFlags(b: seq<byte>, on: bool)
    requires |b| >= HEAD_LEN
    ensures Ttl(b) != 0 ==> HeadTag(Relayed(b)) == HeadTag(b)
    ensures HeadTag(WithEncryptFlag(b, on)) == HeadTag(b)
    ensures HeadTag(WithExtensionFlag(b, on)) == HeadTag(b)
  {}

  /** `n` relays in a row. */
  function RelayedBy(b: seq<byte>, n: nat): (r: seq<byte>)
    requires |b| >= HEAD_LEN && n <= Ttl(b) as nat
    ensures |r| == |b| && Ttl(r) as nat == Ttl(b) as nat - n && SourceTtl(r) == SourceTtl(b)
    ensures r[..3] == b[..3] && r[4..] == b[4..]
    decreases n
  {
    if n == 0 then b else
      PredNat(Ttl(b));
      RelayedBy(Relayed(b), n - 1)
  }

  lemma {:induction false} RelayedOn(b: seq<byte>, n: nat, m: nat)
    requires |b| >= HEAD_LEN && n + m <= Ttl(b) as nat
    ensures RelayedBy(RelayedBy(b, n), m) == RelayedBy(b, n + m)
    decreases n
  {
    hide Relayed;
    if n > 0 {
      PredNat(Ttl(b));
      RelayedOn(Relayed(b), n - 1, m);
    }
  }

  lemma PredNat(t: byte)
    ensures t != 0 ==> (t - 1) as nat == t as nat - 1
    ensures t as nat == 0 <==> t == 0
  {}

  /** A packet: `data_len` bytes of a buffer that may hold more. */
  class NetPacket {
    const buffer: array<byte>
    var dataLen: nat

    ghost predicate Valid()
      reads this
    {
      HEAD_LEN <= dataLen <= buffer.Length
    }

    ghost function Raw(): seq<byte>
      reads buffer
    {
      buffer[..]
    }

    /** The visible packet: header and payload. */
    ghost function Bytes(): (b: seq<byte>)
      requires Valid()
      reads this, buffer
      ensures |b| == dataLen
    {
      buffer[..dataLen]
    }

    /** `NetPacket::unchecked`. */
    constructor Unchecked(buffer: array<byte>)
      ensures this.buffer == buffer && dataLen == buffer.Length
    {
      this.buffer := buffer;
      dataLen := buffer.Length;
    }

    /** `NetPacket::new0`, which refuses a length outside the buffer or below the header. */
    static method New0(dataLen: nat, buffer: array<byte>) returns (p: NetPacket?)
      ensures p == null <==> dataLen > buffer.Length || dataLen < HEAD_LEN
      ensures p != null ==> fresh(p) && p.Valid() && p.buffer == buffer && p.dataLen == dataLen
    {
      if dataLen > buffer.Length || dataLen < HEAD_LEN {
        return null;
      }
      p := new NetPacket.Unchecked(buffer);
      p.dataLen := dataLen;
    }

    method SetDataLen(n: nat) returns (ok: bool)
      modifies this
      ensures ok <==> HEAD_LEN <= n <= buffer.Length
      ensures dataLen == if ok then n else old(dataLen)
    {
      ok := !(n > buffer.Length || n < HEAD_LEN);
      if ok {
        dataLen := n;
      }
    }

    method SetEncryptFlag(on: bool)
      requires Valid()
      modifies buffer
      ensures buffer[..] == WithEncryptFlag(old(buffer[..]), on)
    {
      buffer[0] := if on then buffer[0] | 0x80 else buffer[0] & 0x7F;
    }

    method SetGatewayFlag(on: bool)
      requires Valid()
      modifies buffer
      ensures buffer[..] == WithGatewayFlag(old(buffer[..]), on)
    {
      buffer[0] := if on then buffer[0] | 0x40 else buffer[0] & 0xBF;
    }

    method SetExtensionFlag(on: bool)
      requires Valid()
      modifies buffer
      ensures buffer[..] == WithExtensionFlag(old(buffer[..]), on)
    {
      buffer[0] := if on then buffer[0] | 0x20 else buffer[0] & 0xDF;
    }

    /** `incr_ttl`: the relay guard has already refused a zero ttl. */
    method IncrTtl() returns (ttl: byte)
      requires Valid() && Ttl(Raw()) != 0
      modifies buffer
      ensures buffer[..] == Relayed(old(buffer[..]))
      ensures ttl == Ttl(buffer[..]) && ttl == Ttl(old(buffer[..])) - 1
    {
      ttl := (buffer[3] & MAX_TTL) - 1;
      buffer[3] := (buffer[3] & MAX_SOURCE) | (MAX_TTL & ttl);
    }

    /**
     * The header a sender writes over whatever the buffer holds: version 2 keeps the high
     * nibble of byte 0, every other byte is set.
     */
    method SetHead(protocol: byte, transport: byte, ttl: byte, source: Ipv4Addr, destination: Ipv4Addr)
      requires Valid()
      modifies buffer
      ensures buffer[..] == Splice(old(buffer[..]), 0,
                                   FreshHead(old(buffer[0]), protocol, transport, ttl, source, destination))
    {
      hide Octets, FromOctets;
      ghost var raw := buffer[..];
      buffer[0] := (buffer[0] & 0xF0) | (0x0F & VERSION_2);
      buffer[1] := protocol;
      buffer[2] := transport;
      buffer[3] := (ttl << 4) | ttl;
      assert buffer[..] == raw[0 := buffer[0]][1 := buffer[1]][2 := buffer[2]][3 := buffer[3]];
      CopyInto(buffer, 4, Octets(source));
      CopyInto(buffer, 8, Octets(destination));
      HeadLayout(raw, (raw[0] & 0xF0) | (0x0F & VERSION_2), protocol, transport,
                 FirstTtl(ttl), Octets(source), Octets(destination));
    }
  }

  lemma HeadLayout(raw: seq<byte>, b0: byte, b1: byte, b2: byte, b3: byte, source: seq<byte>, destination: seq<byte>)
    requires |raw| >= HEAD_LEN && |source| == |destination| == 4
    ensures Splice(Splice(raw[0 := b0][1 := b1][2 := b2][3 := b3], 4, source), 8, destination)
            == Splice(raw, 0, [b0, b1, b2, b3] + source + destination)
  {}

  /** `set_default_version`, `set_protocol`, `set_transport_protocol`, `first_set_ttl`, `set_source`, `set_destination`. */
  function FreshHead(
    byte0: byte, protocol: byte, transport: byte, ttl: byte, source: Ipv4Addr, destination: Ipv4Addr
  ): (head: seq<byte>)
    ensures |head| == HEAD_LEN
    ensures Source(head) == source && Destination(head) == destination
    ensures Protocol(head) == protocol && TransportProtocol(head) == transport
    ensures ttl <= 15 ==> Ttl(head) == ttl && SourceTtl(head) == ttl
  {
    hide Octets, FromOctets;
    var head := [(byte0 & 0xF0) | (0x0F & VERSION_2), protocol, transport, FirstTtl(ttl)]
                + Octets(source) + Octets(destination);
    OctetsRoundTrip(source);
    OctetsRoundTrip(destination);
    assert head[4..8] == Octets(source) && head[8..12] == Octets(destination);
    head
  }
}
