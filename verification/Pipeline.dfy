/**
 * A packet from the tunnel of one client to the tunnel of another: header, compression,
 * encryption, any relays, decryption, extension handling.
 */
module Pipeline {
  import opened Bytes
  import opened NetPackets
  import opened Primitives
  import opened Ciphers
  import opened CipherMethods
  import opened Compression

  const TUN_TTL: byte := 6

  /** What a client is configured with, and the sizes of its two packet buffers. */
  datatype Setup = Setup(cipher: Cipher, codecs: Codecs, compressor: Compressor, bufCap: nat, extendCap: nat)

  ghost predicate SetupLaws(s: Setup) {
    Laws(s.cipher) && CodecLaws(s.codecs) && s.bufCap >= HEAD_LEN && s.extendCap >= HEAD_LEN
  }

  function TunHead(byte0: byte, source: Ipv4Addr, destination: Ipv4Addr): (head: seq<byte>)
    ensures |head| == HEAD_LEN && Ttl(head) == TUN_TTL && SourceTtl(head) == TUN_TTL
  {
    FreshHead(byte0, PROTOCOL_IP_TURN, TRANSPORT_IPV4, TUN_TTL, source, destination)
  }

  /** The packet the sender means: a clean header and the bytes read from the tunnel. */
  function Intended(source: Ipv4Addr, destination: Ipv4Addr, body: seq<byte>): (p: seq<byte>)
    ensures |p| == HEAD_LEN + |body| && Ttl(p) == TUN_TTL
  {
    var p := TunHead(0, source, destination) + body;
    assert p[3] == TunHead(0, source, destination)[3];
    p
  }

  /**
   * The packet that goes to the cipher: the original, or the compressed one in the second
   * buffer, whose first byte still holds flags of the packet it carried before.
   */
  function ToEncrypt(s: Setup, source: Ipv4Addr, destination: Ipv4Addr, body: seq<byte>, stale: seq<byte>)
    : (r: Option<seq<byte>>)
    requires SetupLaws(s) && |stale| == HEAD_LEN
    ensures r.Some? ==> |r.value| >= HEAD_LEN
  {
    var p := Intended(source, destination, body);
    match Compress(s.codecs, s.compressor, p, stale, s.extendCap)
    case Failed => None
    case NotWorthIt => Some(p)
    case Compressed(q) => Some(TunHead(q[0], source, destination) + q[HEAD_LEN..])
  }

  /** Whether it is the compressed one. */
  predicate UsesExtend(s: Setup, source: Ipv4Addr, destination: Ipv4Addr, body: seq<byte>, stale: seq<byte>)
    requires SetupLaws(s) && |stale| == HEAD_LEN
  {
    Compress(s.codecs, s.compressor, Intended(source, destination, body), stale, s.extendCap).Compressed?
  }

  /** The datagram that leaves, or `None` where the source returns an error. */
  function Sent(
    s: Setup, source: Ipv4Addr, destination: Ipv4Addr, body: seq<byte>, stale: seq<byte>,
    slack: seq<byte>, random: seq<byte>
  ): (w: Option<seq<byte>>)
    requires SetupLaws(s) && |stale| == HEAD_LEN && |slack| == 12 && |random| == 16
  {
    var q := ToEncrypt(s, source, destination, body, stale);
    var cap := if UsesExtend(s, source, destination, body, stale) then s.extendCap else s.bufCap;
    if q.Some? && Encryptable(s.cipher, |q.value|, cap) then Some(Seal(s.cipher, q.value, slack, random)) else None
  }

  /** What the receiving client hands on: decryption, then extension handling. */
  function Received(c: Cipher, cs: Codecs, w: seq<byte>, room: nat): (r: Option<seq<byte>>)
    requires Laws(c) && CodecLaws(cs) && |w| >= HEAD_LEN && room >= HEAD_LEN
  {
    var p := Open(c, w);
    if p.None? then None else Extended(cs, p.value, room)
  }

  /**
   * The flags a stale second buffer may carry: what the last packet left there is the version,
   * the extension flag and, unless encryption is off, the encryption flag.
   */
  predicate Clean(c: Cipher, byte0: byte) {
    byte0 & 0x50 == 0 && (c.NoCipher? ==> byte0 & 0x80 == 0)
  }

  // ----- end to end -----

  /** What is sent at all: nothing when compression fails; otherwise what the cipher agrees to encrypt where it lies. */
  lemma SentExactlyWhen(
    s: Setup, source: Ipv4Addr, destination: Ipv4Addr, body: seq<byte>, stale: seq<byte>,
    slack: seq<byte>, random: seq<byte>)
    requires SetupLaws(s) && |stale| == HEAD_LEN && |slack| == 12 && |random| == 16
    ensures var w := Sent(s, source, destination, body, stale, slack, random);
            match Compress(s.codecs, s.compressor, Intended(source, destination, body), stale, s.extendCap) {
              case Failed => w.None?
              case NotWorthIt =>
                && (w.Some? <==> Encryptable(s.cipher, HEAD_LEN + |body|, s.bufCap))
                && (w.Some? ==> |w.value| == EncryptedLen(s.cipher, HEAD_LEN + |body|))
              case Compressed(q) =>
                && (w.Some? <==> Encryptable(s.cipher, |q|, s.extendCap))
                && (w.Some? ==> |w.value| == EncryptedLen(s.cipher, |q|))
            }
  {
    hide Compress, Seal, Encryptable, EncryptedLen, TunHead;
  }

  lemma CleanHeads(byte0: byte, source: Ipv4Addr, destination: Ipv4Addr)
    requires byte0 & 0x50 == 0
    ensures var x := byte0 | 0x20;
            && IsExtension(TunHead(x, source, destination))
            && IsEncrypt(TunHead(x, source, destination)) == (byte0 & 0x80 == 0x80)
            && WithExtensionFlag(WithEncryptFlag(TunHead(x, source, destination), false), false)
               == TunHead(0, source, destination)
    ensures !IsEncrypt(TunHead(0, source, destination)) && !IsExtension(TunHead(0, source, destination))
    ensures WithEncryptFlag(TunHead(0, source, destination), false) == TunHead(0, source, destination)
  {}

  /** Decryption of what was chosen, followed by extension handling, is the intended packet. */
  lemma ChosenBecomesIntended(
    s: Setup, source: Ipv4Addr, destination: Ipv4Addr, body: seq<byte>, stale: seq<byte>, room: nat)
    requires SetupLaws(s) && |stale| == HEAD_LEN && Clean(s.cipher, stale[0])
    requires ToEncrypt(s, source, destination, body, stale).Some?
    requires room >= HEAD_LEN + |body|
    ensures var q := ToEncrypt(s, source, destination, body, stale).value;
            && (s.cipher.NoCipher? ==> !IsEncrypt(q))
            && Extended(s.codecs, WithEncryptFlag(q, false), room) == Some(Intended(source, destination, body))
  {
    hide TunHead, Compress, Extended;
    var p := Intended(source, destination, body);
    var q := ToEncrypt(s, source, destination, body, stale).value;
    CleanHeads(stale[0], source, destination);
    match Compress(s.codecs, s.compressor, p, stale, s.extendCap)
    case Failed =>
    case NotWorthIt =>
      FlagOfPrefix(TunHead(0, source, destination), body);
      NotExtended(s.codecs, p, room);
    case Compressed(z) =>
      CompressedKeepsByte0(s.codecs, s.compressor, p, stale, s.extendCap);
      var head := TunHead(z[0], source, destination);
      FlagOfPrefix(head, z[HEAD_LEN..]);
      assert p[HEAD_LEN..] == body;
      ExtendedOfCompressed(s.codecs, s.compressor, p, stale, s.extendCap, WithEncryptFlag(head, false), room);
  }

  lemma NotExtended(cs: Codecs, p: seq<byte>, room: nat)
    requires |p| >= HEAD_LEN && room >= HEAD_LEN && !IsExtension(p)
    ensures Extended(cs, p, room) == Some(p)
  {}

  lemma FlagOfPrefix(head: seq<byte>, rest: seq<byte>)
    requires |head| == HEAD_LEN
    ensures WithEncryptFlag(head + rest, false) == WithEncryptFlag(head, false) + rest
    ensures IsEncrypt(head + rest) == IsEncrypt(head) && IsExtension(head + rest) == IsExtension(head)
  {}

  lemma CompressedKeepsByte0(cs: Codecs, comp: Compressor, p: seq<byte>, head: seq<byte>, cap: nat)
    requires |p| >= HEAD_LEN && |head| == HEAD_LEN <= cap && Compress(cs, comp, p, head, cap).Compressed?
    ensures Compress(cs, comp, p, head, cap).packet[0] == head[0] | 0x20
  {}

  /** What a client receives commutes with any number of relays, for every datagram. */
  lemma ReceivedOfRelayedBy(c: Cipher, cs: Codecs, w: seq<byte>, n: nat, room: nat)
    requires Laws(c) && CodecLaws(cs) && |w| >= HEAD_LEN && room >= HEAD_LEN && n <= Ttl(w) as nat
    ensures Received(c, cs, w, room).None? ==> Received(c, cs, RelayedBy(w, n), room).None?
    ensures Received(c, cs, w, room).Some? ==>
            && Ttl(Received(c, cs, w, room).value) == Ttl(w)
            && Received(c, cs, RelayedBy(w, n), room) == Some(RelayedBy(Received(c, cs, w, room).value, n))
  {
    hide Open, Extended;
    OpenOfRelayedBy(c, w, n);
    if Open(c, w).Some? {
      ExtendedOfRelayedBy(cs, Open(c, w).value, n, room);
    }
  }

  /**
   * End to end, for every cipher, compressor and payload and any number of relays the ttl
   * allows: a packet that was sent arrives as it was meant, the ttl lowered once per relay, if
   * and only if the datagram is one the receiving cipher will look at. Only AES-CBC without a
   * finger can send one that it will not.
   */
  lemma Delivered(
    s: Setup, source: Ipv4Addr, destination: Ipv4Addr, body: seq<byte>, stale: seq<byte>,
    slack: seq<byte>, random: seq<byte>, k: nat, room: nat)
    requires SetupLaws(s) && |stale| == HEAD_LEN && |slack| == 12 && |random| == 16
    requires Clean(s.cipher, stale[0]) && room >= HEAD_LEN + |body| && k < 6
    requires Sent(s, source, destination, body, stale, slack, random).Some?
    ensures var w := Sent(s, source, destination, body, stale, slack, random).value;
            && |w| >= HEAD_LEN && Ttl(w) == SourceTtl(w) == TUN_TTL
            && Received(s.cipher, s.codecs, RelayedBy(w, k), room) ==
               if s.cipher.AesCbc? && |w| - HEAD_LEN > UDP_PAYLOAD_MAX then None
               else Some(RelayedBy(Intended(source, destination, body), k))
    ensures s.cipher.AesCbc? && s.cipher.finger.Some? ==>
              |Sent(s, source, destination, body, stale, slack, random).value| - HEAD_LEN <= UDP_PAYLOAD_MAX
  {
    hide Seal, Open, ToEncrypt, Extended, Intended, TunHead;
    var q := ToEncrypt(s, source, destination, body, stale).value;
    var w := Seal(s.cipher, q, slack, random);
    SealKeepsTtl(s, source, destination, body, stale, slack, random);
    ChosenBecomesIntended(s, source, destination, body, stale, room);
    OpenOfSealed(s.cipher, q, slack, random);
    ReceivedOfRelayedBy(s.cipher, s.codecs, w, k, room);
  }

  lemma SealKeepsTtl(
    s: Setup, source: Ipv4Addr, destination: Ipv4Addr, body: seq<byte>, stale: seq<byte>,
    slack: seq<byte>, random: seq<byte>)
    requires SetupLaws(s) && |stale| == HEAD_LEN && |slack| == 12 && |random| == 16
    requires ToEncrypt(s, source, destination, body, stale).Some?
    ensures var w := Seal(s.cipher, ToEncrypt(s, source, destination, body, stale).value, slack, random);
            Ttl(w) == SourceTtl(w) == TUN_TTL && Ttl(w) as nat == 6
  {
    hide SealPayload, Compress, TunHead;
    var q := ToEncrypt(s, source, destination, body, stale).value;
    var w := Seal(s.cipher, q, slack, random);
    assert w[3] == q[3];
  }

  // ----- the loop that reads the tunnel -----

  /** The two buffers `start_simple0` keeps over all packets. */
  class TunSender {
    const setup: Setup
    const buf: array<byte>
    const extend: array<byte>

    ghost predicate Valid()
      reads this, buf, extend
    {
      && SetupLaws(setup)
      && buf != extend && buf.Length == setup.bufCap && extend.Length == setup.extendCap
      && Clean(setup.cipher, extend[0])
    }

    constructor (setup: Setup)
      requires SetupLaws(setup)
      ensures Valid() && this.setup == setup && fresh(buf) && fresh(extend)
    {
      this.setup := setup;
      buf := new byte[setup.bufCap](_ => 0);
      extend := new byte[setup.extendCap](_ => 0);
    }

    /** The tail of `handle`: headers, compression, encryption. `slack` is what lay behind the chosen packet. */
    method Send(source: Ipv4Addr, destination: Ipv4Addr, dataLen: nat, random: seq<byte>)
      returns (wire: Option<seq<byte>>, ghost slack: seq<byte>)
      requires Valid() && HEAD_LEN <= dataLen <= buf.Length && |random| == 16
      modifies buf, extend
      ensures Valid() && |slack| == 12
      ensures wire == Sent(setup, source, destination, old(buf[HEAD_LEN..dataLen]), old(extend[..HEAD_LEN]), slack, random)
    {
      hide Seal, Encryptable, Compress, TunHead, SetupLaws, Clean, SameUpToEncryption, SameUpToExtension;
      LawsOfSetup(setup);
      ghost var body, stale := buf[HEAD_LEN..dataLen], extend[..HEAD_LEN];
      var p := new NetPacket.Unchecked(buf);
      p.dataLen := dataLen;
      assert p.Bytes()[HEAD_LEN..] == body;
      ClearAndWriteHead(p, source, destination);
      var out := new NetPacket.Unchecked(extend);
      var r := CompressInto(setup.codecs, setup.compressor, p, out);
      assert SameUpToExtension(old(extend[..]), out.Raw());
      CompressingStaysClean(setup.cipher, old(extend[..]), out.Raw());
      match r
      case Failed =>
        wire, slack := None, Zeros(12);
      case NotWorthIt =>
        FreshHeadStaysClean(setup.cipher, 0, source, destination);
        assert p.buffer[0] == p.Bytes()[0] == TunHead(0, source, destination)[0];
        wire, slack := EncryptChosen(setup.cipher, p, random);
      case Compressed(q) =>
        assert out.buffer[0] == out.Bytes()[0] == q[0];
        WriteHead(out, source, destination);
        assert out.buffer[0] == out.Bytes()[0] == TunHead(q[0], source, destination)[0];
        FreshHeadStaysClean(setup.cipher, q[0], source, destination);
        wire, slack := EncryptChosen(setup.cipher, out, random);
    }
  }

  /** Encryption of the chosen packet, which leaves no flag behind that could spoil a later one. */
  method EncryptChosen(c: Cipher, p: NetPacket, random: seq<byte>) returns (wire: Option<seq<byte>>, ghost slack: seq<byte>)
    requires Laws(c) && p.Valid() && |random| == 16 && Clean(c, p.buffer[0])
    modifies p, p.buffer
    ensures Clean(c, p.buffer[0]) && |slack| == 12
    ensures wire == if Encryptable(c, old(p.dataLen), p.buffer.Length) then Some(Seal(c, old(p.Bytes()), slack, random))
                    else None
  {
    hide Seal, Encryptable, Clean, SameUpToEncryption;
    ghost var raw, plain := p.Raw(), p.Bytes();
    slack := Slack(raw, p.dataLen);
    var ok := EncryptIpv4(c, p, random);
    if ok {
      SealingStaysClean(c, plain, slack, random);
      assert p.buffer[0] == p.Bytes()[0];
      wire := Some(p.buffer[..p.dataLen]);
    } else {
      FailingStaysClean(c, raw, p.Raw(), |plain|);
      wire := None;
    }
  }

  lemma LawsOfSetup(s: Setup)
    requires SetupLaws(s)
    ensures Laws(s.cipher) && CodecLaws(s.codecs) && s.extendCap >= HEAD_LEN
  {}

  method WriteHead(p: NetPacket, source: Ipv4Addr, destination: Ipv4Addr)
    requires p.Valid()
    modifies p.buffer
    ensures p.Bytes() == TunHead(old(p.Bytes())[0], source, destination) + old(p.Bytes())[HEAD_LEN..]
  {
    hide FreshHead, Splice;
    ghost var raw := p.Raw();
    p.SetHead(PROTOCOL_IP_TURN, TRANSPORT_IPV4, TUN_TTL, source, destination);
    HeadReplaced(raw, TunHead(raw[0], source, destination), p.dataLen);
  }

  lemma HeadReplaced(raw: seq<byte>, head: seq<byte>, n: nat)
    requires |head| == HEAD_LEN <= n <= |raw|
    ensures Splice(raw, 0, head)[..n] == head + raw[..n][HEAD_LEN..]
  {}

  /** The head is zeroed for every packet before it is written. */
  method ClearAndWriteHead(p: NetPacket, source: Ipv4Addr, destination: Ipv4Addr)
    requires p.Valid()
    modifies p.buffer
    ensures p.Bytes() == Intended(source, destination, old(p.Bytes())[HEAD_LEN..])
  {
    hide TunHead;
    ghost var body := p.Bytes()[HEAD_LEN..];
    forall i | 0 <= i < HEAD_LEN {
      p.buffer[i] := 0;
    }
    assert p.Bytes()[HEAD_LEN..] == body;
    WriteHead(p, source, destination);
  }

  lemma CompressingStaysClean(c: Cipher, before: seq<byte>, after: seq<byte>)
    requires |before| >= HEAD_LEN && |after| >= HEAD_LEN
    requires Clean(c, before[0]) && SameUpToExtension(before, after)
    ensures Clean(c, after[0])
  {}

  lemma FreshHeadStaysClean(c: Cipher, byte0: byte, source: Ipv4Addr, destination: Ipv4Addr)
    requires Clean(c, byte0)
    ensures Clean(c, TunHead(byte0, source, destination)[0])
  {}

  lemma SealingStaysClean(c: Cipher, p: seq<byte>, slack: seq<byte>, random: seq<byte>)
    requires Laws(c) && |p| >= HEAD_LEN && |slack| == 12 && |random| == 16 && Clean(c, p[0])
    ensures Clean(c, Seal(c, p, slack, random)[0])
  {}

  lemma FailingStaysClean(c: Cipher, before: seq<byte>, after: seq<byte>, n: nat)
    requires HEAD_LEN <= n <= |before| == |after|
    requires Clean(c, before[0]) && SameUpToEncryption(before, after) && !Encryptable(c, n, |before|)
    ensures Clean(c, after[0])
  {}

  // ----- the receiver -----

  /** The head of `ClientPacketHandler::handle`: the packet it goes on with, or `null` for an error. */
  method Receive(c: Cipher, cs: Codecs, p: NetPacket, extend: NetPacket) returns (q: NetPacket?)
    requires Laws(c) && CodecLaws(cs) && p.Valid() && extend.Valid() && p.buffer != extend.buffer && p != extend
    modifies p, p.buffer, extend, extend.buffer
    ensures q == null || q == if IsExtension(old(p.Bytes())) then extend else p
    ensures var r := Received(c, cs, old(p.Bytes()), extend.buffer.Length);
            && (q == null <==> r.None?)
            && (q != null ==> q.Valid() && q.Bytes() == r.value)
  {
    hide Open, Extended;
    ghost var w := p.Bytes();
    var ok := DecryptIpv4(c, p);
    if !ok {
      return null;
    }
    OpenKeepsHead(c, w);
    q := HandleExtension(cs, p, extend);
  }
}
