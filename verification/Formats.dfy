/**
 * The formats on the wire, byte by byte, as another implementation has to read and write them:
 * the header, what is behind it under each cipher, and the compression tail.
 */
module Formats {
  import opened Bytes
  import opened NetPackets
  import opened Primitives
  import opened Ciphers
  import opened Compression

  /** Bit `k` of a byte. */
  predicate Bit(b: byte, k: nat)
    requires k < 8
  {
    (b >> k) & 1 == 1
  }

  // ----- the header -----

  /** Flags in the high bits of byte 0, protocols, both ttl nibbles in byte 3, then source and destination. */
  lemma HeaderBytes(b: seq<byte>)
    requires |b| >= 12
    ensures IsEncrypt(b) <==> Bit(b[0], 7)
    ensures IsGateway(b) <==> Bit(b[0], 6)
    ensures IsExtension(b) <==> Bit(b[0], 5)
    ensures Protocol(b) == b[1] && TransportProtocol(b) == b[2]
    ensures SourceTtl(b) as nat == b[3] as nat / 16 && Ttl(b) as nat == b[3] as nat % 16
    ensures Octets(Source(b)) == b[4..8] && Octets(Destination(b)) == b[8..12]
  {
    hide Octets, FromOctets;
    FlagBits(b[0]);
    Nibbles(b[3]);
    OctetsOfFromOctets(b[4..8]);
    OctetsOfFromOctets(b[8..12]);
  }

  lemma FlagBits(x: byte)
    ensures x & 0x80 == 0x80 <==> Bit(x, 7)
    ensures x & 0x40 == 0x40 <==> Bit(x, 6)
    ensures x & 0x20 == 0x20 <==> Bit(x, 5)
  {}

  /** An address, octet by octet. */
  lemma AddressBytes(ip: Ipv4Addr)
    ensures var o := Octets(ip);
            ip.bits == ((o[0] as bv32) << 24) | ((o[1] as bv32) << 16) | ((o[2] as bv32) << 8) | (o[3] as bv32)
    ensures Octets(Ipv4Addr(0x0A1A_0002)) == [10, 26, 0, 2]
  {}

  /** What a fresh header is, and what survives of an old byte 0 under it: the flags and nothing else. */
  lemma FreshHeaderBytes(byte0: byte, protocol: byte, transport: byte, ttl: byte, source: Ipv4Addr, destination: Ipv4Addr)
    requires ttl <= 15
    ensures var h := FreshHead(byte0, protocol, transport, ttl, source, destination);
            && |h| == 12
            && h[0] & 0xF0 == byte0 & 0xF0 && h[0] & 0x0F == 2
            && h[1] == protocol && h[2] == transport && h[3] >> 4 == ttl && h[3] & 0x0F == ttl
            && h[4..8] == Octets(source) && h[8..12] == Octets(destination)
  {
    hide Octets, FromOctets;
  }

  /** The tag: both addresses, both protocols, the gateway flag, the source ttl. */
  lemma TagBytes(b: seq<byte>)
    requires |b| >= 12
    ensures var t := HeadTag(b);
            && |t| == 12 && t[..8] == b[4..12] && t[8] == b[1] && t[9] == b[2]
            && t[10] == (if Bit(b[0], 6) then 1 else 0) && t[11] as nat == b[3] as nat / 16
  {
    FlagBits(b[0]);
    Nibbles(b[3]);
    assert HeadTag(b)[..8] == b[4..8] + b[8..12];
  }

  /** The nonce of the ChaCha20 ciphers: the tag, its last four bytes mixed with the random word. */
  lemma NonceBytes(tag: seq<byte>, word: seq<byte>)
    requires |tag| == 12 && |word| == 4
    ensures var n := GenNonce(tag, word);
            |n| == 12 && forall i :: 0 <= i < 12 ==> n[i] == if i < 8 then tag[i] else tag[i] ^ word[i - 8]
  {}

  // ----- what opens -----

  /** The fingerprint a cipher was given, if any. */
  function FingerOf(c: Cipher): Option<Finger> {
    match c
    case AesGcm(_, f) => f
    case ChaCha20Poly1305(_, f) => f
    case ChaCha20(_, f) => f
    case AesCbc(_, f) => f
    case AesEcb(_, f) => f
    case Sm4Cbc(_, f) => f
    case XorKey(_) => None
    case NoCipher => None
  }

  /** A datagram opens only if its encryption flag says that it is encrypted, or, without a cipher, that it is not. */
  lemma OpenedWasFlagged(c: Cipher, w: seq<byte>)
    requires Laws(c) && |w| >= 12 && Open(c, w).Some?
    ensures Bit(w[0], 7) <==> !c.NoCipher?
  {
    FlagBits(w[0]);
  }

  /**
   * Whatever opens under a fingerprint ends with the last 12 bytes of the hash of its tag, the
   * ciphertext - without the random word of the ChaCha20 ciphers - and the hash of the token.
   */
  lemma OpenedCarriesFinger(c: Cipher, w: seq<byte>)
    requires Laws(c) && |w| >= 12 && Open(c, w).Some? && FingerOf(c).Some?
    ensures var f, word := FingerOf(c).value, if c.ChaCha20? || c.ChaCha20Poly1305? then 4 else 0;
            && |w| >= 24 + word
            && w[|w| - 12..] == f.sha256(HeadTag(w) + w[12..|w| - 12 - word] + f.hash)[20..]
  {
    hide HeadTag;
    PayloadCarriesFinger(c, HeadTag(w), w[12..]);
    var word := if c.ChaCha20? || c.ChaCha20Poly1305? then 4 else 0;
    SubslicesOf(w, 12, |w| - 12 - word);
    SubslicesOf(w, |w| - 12, |w|);
  }

  lemma SubslicesOf(w: seq<byte>, i: nat, j: nat)
    requires 12 <= i <= j <= |w|
    ensures w[12..][i - 12..j - 12] == w[i..j]
    ensures w[12..][..j - 12] == w[12..j] && w[12..][i - 12..] == w[i..]
  {
    SliceOfTail(w, 12, i, j);
    SliceOfTail(w, 12, 12, j);
    SliceOfTail(w, 12, i, |w|);
    assert w[12..][0..j - 12] == w[12..][..j - 12];
    assert w[12..][i - 12..|w| - 12] == w[12..][i - 12..];
    assert w[i..|w|] == w[i..];
  }

  lemma PayloadCarriesFinger(c: Cipher, tag: seq<byte>, payload: seq<byte>)
    requires Laws(c) && |tag| == 12 && OpenPayload(c, tag, payload).Some? && FingerOf(c).Some?
    ensures var f, word := FingerOf(c).value, if c.ChaCha20? || c.ChaCha20Poly1305? then 4 else 0;
            && |payload| >= 12 + word
            && payload[|payload| - 12..] == f.sha256(tag + payload[..|payload| - 12 - word] + f.hash)[20..]
  {
    match c
    case AesGcm(_, f) => assert CheckedSecret(f, tag, payload).Some?;
    case ChaCha20Poly1305(_, f) => assert CheckedIvSecret(f, tag, payload, TAG_RESERVED).Some?;
    case ChaCha20(_, f) => assert CheckedIvSecret(f, tag, payload, 0).Some?;
    case AesCbc(_, f) => assert CheckedSecret(f, tag, payload).Some?;
    case AesEcb(_, f) => assert CheckedSecret(f, tag, payload).Some?;
    case Sm4Cbc(_, f) => assert CheckedSecret(f, tag, payload).Some?;
  }

  /** A payload without its fingerprint. */
  function Unfingered(f: Option<Finger>, payload: seq<byte>): seq<byte> {
    if f.Some? && |payload| >= 12 then payload[..|payload| - 12] else payload
  }

  /**
   * `body` is what the primitive makes of the bytes behind the header, under a nonce or IV that
   * is made of the header: AES-GCM the tag; the ChaCha20 ciphers tag and random word, which comes
   * last; AES-CBC the tag and four bytes of the token hash or zeros, with a random word at the
   * end of the text; SM4 an IV that comes last; both it and AES-ECB with the header in
   * front of the text, which has to have the same tag.
   */
  ghost predicate ByPrimitive(c: Cipher, tag: seq<byte>, s: seq<byte>, body: seq<byte>)
    requires Laws(c) && |tag| == 12
  {
    var n, m := |body|, |s|;
    match c {
      case AesGcm(a, _) =>
        && m >= 16 + n
        && var data := a.open(tag, s[..m - 16], s[m - 16..]);
           data.Some? && |data.value| == m - 16 && data.value[..n] == body
      case ChaCha20Poly1305(a, _) =>
        m == n + 20 && a.open(GenNonce(tag, s[n + 16..]), s[..n], s[n..n + 16]) == Some(body)
      case ChaCha20(k, _) =>
        && m == n + 4
        && var mask := k(GenNonce(tag, s[n..]), n);
           |mask| == n && forall i :: 0 <= i < n ==> body[i] == s[i] ^ mask[i]
      case AesCbc(b, f) =>
        && var text := Unpad(b.dec(tag + (if f.Some? then f.value.hash[..4] else [0, 0, 0, 0]), s));
           text.Some? && |text.value| == n + 4 && text.value[..n] == body
      case AesEcb(b, _) =>
        && var text := Unpad(b.dec([], s));
           text.Some? && |text.value| == n + 12 && text.value[12..] == body && HeadTag(text.value) == tag
      case Sm4Cbc(b, _) =>
        && m >= 16
        && var text := Unpad(b.dec(s[m - 16..], s[..m - 16]));
           text.Some? && |text.value| == n + 12 && text.value[12..] == body && HeadTag(text.value) == tag
      case XorKey(key) =>
        m == n && forall i :: 0 <= i < n ==> body[i] == s[i] ^ key[i % 32]
      case NoCipher => body == s
    }
  }

  lemma OpenedByPrimitive(c: Cipher, w: seq<byte>)
    requires Laws(c) && |w| >= 12 && Open(c, w).Some?
    ensures ByPrimitive(c, HeadTag(w), Unfingered(FingerOf(c), w[12..]), Open(c, w).value[12..])
  {
    hide HeadTag, ByPrimitive, OpenPayload;
    var payload := w[12..];
    SlicesOfHeadAndRest(WithEncryptFlag(w[..12], false), OpenPayload(c, HeadTag(w), payload).value);
    PayloadByPrimitive(c, HeadTag(w), payload);
  }

  lemma PayloadByPrimitive(c: Cipher, tag: seq<byte>, payload: seq<byte>)
    requires Laws(c) && |tag| == 12 && OpenPayload(c, tag, payload).Some?
    ensures ByPrimitive(c, tag, Unfingered(FingerOf(c), payload), OpenPayload(c, tag, payload).value)
  {
    hide OpenGcm, OpenPoly, OpenStream, OpenCbc, OpenEcb, OpenSm4, ByPrimitive, Unfingered;
    match c
    case AesGcm(a, f) => GcmByPrimitive(a, f, tag, payload);
    case ChaCha20Poly1305(a, f) => PolyByPrimitive(a, f, tag, payload);
    case ChaCha20(k, f) => StreamByPrimitive(k, f, tag, payload);
    case AesCbc(m, f) => CbcByPrimitive(m, f, tag, payload);
    case AesEcb(m, f) => EcbByPrimitive(m, f, tag, payload);
    case Sm4Cbc(m, f) => Sm4ByPrimitive(m, f, tag, payload);
    case XorKey(key) => XorByPrimitive(key, payload, tag);
    case NoCipher => NothingByPrimitive(payload, tag);
  }

  lemma XorByPrimitive(key: seq<byte>, payload: seq<byte>, tag: seq<byte>)
    requires |key| == 32 && |tag| == 12
    ensures ByPrimitive(XorKey(key), tag, Unfingered(None, payload), Xor(payload, RepeatedKey(key, |payload|)))
  {}

  lemma NothingByPrimitive(payload: seq<byte>, tag: seq<byte>)
    requires |tag| == 12
    ensures ByPrimitive(NoCipher, tag, Unfingered(None, payload), payload)
  {}

  lemma GcmByPrimitive(a: Aead, f: Option<Finger>, tag: seq<byte>, payload: seq<byte>)
    requires AeadLaws(a) && FingerOptLaws(f) && |tag| == 12 && OpenGcm(a, f, tag, payload).Some?
    ensures ByPrimitive(AesGcm(a, f), tag, Unfingered(f, payload), OpenGcm(a, f, tag, payload).value)
  {
    hide CalculateFinger;
    assert Unfingered(f, payload) == CheckedSecret(f, tag, payload).value;
  }

  lemma PolyByPrimitive(a: Aead, f: Option<Finger>, tag: seq<byte>, payload: seq<byte>)
    requires AeadLaws(a) && FingerOptLaws(f) && |tag| == 12 && OpenPoly(a, f, tag, payload).Some?
    ensures ByPrimitive(ChaCha20Poly1305(a, f), tag, Unfingered(f, payload), OpenPoly(a, f, tag, payload).value)
  {
    hide CalculateFinger, GenNonce;
    var (secret, word) := CheckedIvSecret(f, tag, payload, TAG_RESERVED).value;
    var s := Unfingered(f, payload);
    assert s[..|secret|] == secret && s[|secret|..] == word;
    assert s[..|secret| - 16] == secret[..|secret| - 16] && s[|secret| - 16..|secret|] == secret[|secret| - 16..];
  }

  lemma StreamByPrimitive(k: KeyStream, f: Option<Finger>, tag: seq<byte>, payload: seq<byte>)
    requires StreamLaws(k) && FingerOptLaws(f) && |tag| == 12 && OpenStream(k, f, tag, payload).Some?
    ensures ByPrimitive(ChaCha20(k, f), tag, Unfingered(f, payload), OpenStream(k, f, tag, payload).value)
  {
    hide CalculateFinger, GenNonce;
    var (secret, word) := CheckedIvSecret(f, tag, payload, 0).value;
    var s := Unfingered(f, payload);
    assert s[..|secret|] == secret && s[|secret|..] == word;
  }

  lemma CbcByPrimitive(m: BlockMode, f: Option<Finger>, tag: seq<byte>, payload: seq<byte>)
    requires BlockLaws(m) && FingerOptLaws(f) && |tag| == 12 && OpenCbc(m, f, tag, payload).Some?
    ensures ByPrimitive(AesCbc(m, f), tag, Unfingered(f, payload), OpenCbc(m, f, tag, payload).value)
  {
    hide CalculateFinger, Unpad;
    assert Zeros(4) == [0, 0, 0, 0];
    assert Unfingered(f, payload) == CheckedSecret(f, tag, payload).value;
  }

  lemma EcbByPrimitive(m: BlockMode, f: Option<Finger>, tag: seq<byte>, payload: seq<byte>)
    requires BlockLaws(m) && FingerOptLaws(f) && |tag| == 12 && OpenEcb(m, f, tag, payload).Some?
    ensures ByPrimitive(AesEcb(m, f), tag, Unfingered(f, payload), OpenEcb(m, f, tag, payload).value)
  {
    hide CalculateFinger, Unpad, HeadTag;
    assert Unfingered(f, payload) == CheckedSecret(f, tag, payload).value;
  }

  lemma Sm4ByPrimitive(m: BlockMode, f: Option<Finger>, tag: seq<byte>, payload: seq<byte>)
    requires BlockLaws(m) && FingerOptLaws(f) && |tag| == 12 && OpenSm4(m, f, tag, payload).Some?
    ensures ByPrimitive(Sm4Cbc(m, f), tag, Unfingered(f, payload), OpenSm4(m, f, tag, payload).value)
  {
    hide CalculateFinger, Unpad, HeadTag;
    assert Unfingered(f, payload) == CheckedSecret(f, tag, payload).value;
  }

  /** The check without a key: encryption flag, room for a fingerprint, and the fingerprint of all that is before it. */
  lemma CheckFingerExactly(f: Finger, w: seq<byte>)
    requires FingerLaws(f) && |w| >= 12
    ensures CheckFinger(f, w) <==>
            && Bit(w[0], 7) && |w| >= 24
            && w[|w| - 12..] == f.sha256(HeadTag(w) + w[12..|w| - 12] + f.hash)[20..]
  {
    hide HeadTag;
    FlagBits(w[0]);
  }

  /** The size limits in numbers, for a packet of `n` bytes with its header. */
  lemma LimitsExactly(c: Cipher, n: nat)
    requires n >= 12
    ensures var finger := if FingerOf(c).Some? then 12 else 0;
            WithinCap(c, n) <==>
            match c {
              case AesGcm(_, _) => n + 20 <= 65495
              case ChaCha20Poly1305(_, _) => n + 8 + finger <= 65495
              case ChaCha20(_, _) => n - 8 + finger <= 65495
              case AesCbc(_, f) => if f.Some? then (n - 8) / 16 * 16 + 28 <= 65495 else n - 8 <= 65495
              case AesEcb(_, _) => n < 5120
              case Sm4Cbc(_, _) => n <= 4064
              case _ => true
            }
  {}

  /** Padding: at least one byte, at most sixteen, each with the number of them as its value. */
  lemma PadBytes(d: seq<byte>)
    ensures var p := Pad(d);
            && |p| % 16 == 0 && |d| < |p| <= |d| + 16 && p[..|d|] == d
            && forall i :: |d| <= i < |p| ==> p[i] as nat == |p| - |d|
  {}

  /**
   * Where the random bytes of a sealed packet are: in the clear behind the ciphertext for the ChaCha20
   * ciphers and SM4, inside the text, at its end, for AES-GCM and AES-CBC.
   */
  lemma SealedCarriesRandom(c: Cipher, p: seq<byte>, slack: seq<byte>, random: seq<byte>)
    requires Laws(c) && |p| >= 12 && |slack| == 12 && |random| == 16
    ensures var w := Seal(c, p, slack, random);
            var s := Unfingered(FingerOf(c), w[12..]);
            match c {
              case AesGcm(a, _) =>
                && |s| >= 20
                && var text := a.open(HeadTag(p), s[..|s| - 16], s[|s| - 16..]);
                   text.Some? && |text.value| >= 4 && text.value[|text.value| - 4..] == random[..4]
              case ChaCha20Poly1305(_, _) => |s| >= 4 && s[|s| - 4..] == random[..4]
              case ChaCha20(_, _) => |s| >= 4 && s[|s| - 4..] == random[..4]
              case AesCbc(m, f) =>
                && var text := Unpad(m.dec(CbcIv(HeadTag(p), f), s));
                   text.Some? && |text.value| >= 4 && text.value[|text.value| - 4..] == random[..4]
              case Sm4Cbc(_, _) => |s| >= 16 && s[|s| - 16..] == random
              case _ => true
            }
  {
    hide HeadTag, Unpad, Pad, CalculateFinger, GenNonce;
    var head := if c.NoCipher? then p[..12] else WithEncryptFlag(p[..12], true);
    SlicesOfHeadAndRest(head, SealPayload(c, p, slack, random));
    var tag, body, word := HeadTag(p), p[12..], random[..4];
    match c {
      case AesGcm(a, f) =>
        var data := body + (if f.Some? then [] else slack) + word;
        var secret := a.seal(tag, data) + a.tag(tag, data);
        AeadOpensSealed(a, tag, data);
        WithoutFinger(f, secret, FingerTail(f, tag, secret));
        assert data[|data| - 4..] == word;
      case ChaCha20Poly1305(a, f) =>
        var nonce := GenNonce(tag, word);
        var secret := a.seal(nonce, body) + a.tag(nonce, body);
        WithoutFinger(f, secret + word, FingerTail(f, tag, secret));
      case ChaCha20(k, f) =>
        var secret := Xor(body, k(GenNonce(tag, word), |body|));
        WithoutFinger(f, secret + word, FingerTail(f, tag, secret));
      case AesCbc(m, f) =>
        var data := body + word;
        BlockUnsealsPadded(m, CbcIv(tag, f), data);
        var secret := m.enc(CbcIv(tag, f), Pad(data));
        WithoutFinger(f, secret, FingerTail(f, tag, secret));
        assert data[|data| - 4..] == word;
      case Sm4Cbc(m, f) =>
        var secret := m.enc(random, Pad(p)) + random;
        WithoutFinger(f, secret, FingerTail(f, tag, secret));
      case _ =>
    }
  }

  lemma WithoutFinger(f: Option<Finger>, secret: seq<byte>, tail: seq<byte>)
    requires |tail| == FingerLen(f)
    ensures Unfingered(f, secret + tail) == secret
  {}

  // ----- the compression tail -----

  /** A compressed packet ends with the number of the algorithm, 1 for lz4 and 2 for zstd, two zeros, and the type 0. */
  lemma TailBytes(cs: Codecs, comp: Compressor, p: seq<byte>, head: seq<byte>, cap: nat)
    requires |p| >= 12 && |head| == 12 <= cap && Compress(cs, comp, p, head, cap).Compressed?
    ensures var q := Compress(cs, comp, p, head, cap).packet;
            |q| >= 16 && q[|q| - 4..] == [if comp.Lz4? then 1 else 2, 0, 0, 0] && Bit(q[0], 5)
  {
    FlagBits(Compress(cs, comp, p, head, cap).packet[0]);
  }

  /**
   * Which packets travel compressed: those of at least 128 bytes, header included, for which it saves
   * more than 16 bytes with the tail; an error comes exactly for lack of room, or from the library.
   */
  lemma CompressedExactlyWhen(cs: Codecs, comp: Compressor, p: seq<byte>, head: seq<byte>, cap: nat)
    requires CodecLaws(cs) && |p| >= 12 && |head| == 12 <= cap
    ensures var tried := !comp.NoCompression? && |p| >= 128;
            var z := match comp {
                       case Lz4 => cs.lz4(p[12..], cap - 12)
                       case Zstd(level) => cs.zstd(level, p[12..], cap - 12)
                       case NoCompression => None
                     };
            var r := Compress(cs, comp, p, head, cap);
            && (r.Failed? <==> tried && (z.None? || |z.value| + 16 > cap))
            && (r.Compressed? <==> tried && z.Some? && |z.value| + 16 <= cap && |z.value| + 16 < |p| - 16)
            && (r.Compressed? ==> r.packet[12..|z.value| + 12] == z.value && r.packet[1..12] == head[1..])
  {}

  /** Of packets that say they are compressed, exactly those with a whole tail of type 0 and a known algorithm that gives a result are taken. */
  lemma ExtendedExactlyWhen(cs: Codecs, w: seq<byte>, room: nat)
    requires |w| >= 12 && room >= 12
    ensures var r, n := Extended(cs, w, room), |w|;
            if !Bit(w[0], 5) then r == Some(w)
            else if n < 16 || w[n - 1] != 0 then r == None
            else
              var d := if w[n - 4] == 1 then cs.unlz4(w[12..n - 4], room - 12)
                       else if w[n - 4] == 2 then cs.unzstd(w[12..n - 4], room - 12)
                       else None;
              r.None? == d.None? && (r.Some? ==> |r.value| >= 12 && r.value[12..] == d.value && r.value[1..12] == w[1..12])
  {
    FlagBits(w[0]);
  }
}
