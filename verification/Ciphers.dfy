/** What each cipher does to a whole packet, stated on byte sequences, and the laws that follow. */
module Ciphers {
  import opened Bytes
  import opened NetPackets
  import opened Primitives

  /** A payload may not exceed what fits in a UDP datagram behind the header. */
  const UDP_PAYLOAD_MAX := 65535 - 20 - 8 - 12
  const AES_GCM_ENCRYPTION_RESERVED := 32
  const ENCRYPTION_RESERVED := 16 + 32 + 12
  const ECB_SCRATCH := 1024 * 5
  const SM4_SCRATCH := 1024 * 4

  datatype Cipher =
    | AesGcm(aead: Aead, finger: Option<Finger>)
    | ChaCha20Poly1305(aead: Aead, finger: Option<Finger>)
    | ChaCha20(stream: KeyStream, finger: Option<Finger>)
    | AesCbc(block: BlockMode, finger: Option<Finger>)
    | AesEcb(block: BlockMode, finger: Option<Finger>)
    | Sm4Cbc(block: BlockMode, finger: Option<Finger>)
    | XorKey(key: seq<byte>)
    | NoCipher

  ghost predicate FingerOptLaws(f: Option<Finger>) {
    f.Some? ==> FingerLaws(f.value)
  }

  ghost predicate Laws(c: Cipher) {
    match c
    case AesGcm(a, f) => AeadLaws(a) && FingerOptLaws(f)
    case ChaCha20Poly1305(a, f) => AeadLaws(a) && FingerOptLaws(f)
    case ChaCha20(k, f) => StreamLaws(k) && FingerOptLaws(f)
    case AesCbc(m, f) => BlockLaws(m) && FingerOptLaws(f)
    case AesEcb(m, f) => BlockLaws(m) && FingerOptLaws(f)
    case Sm4Cbc(m, f) => BlockLaws(m) && FingerOptLaws(f)
    case XorKey(key) => |key| == 32
    case NoCipher => true
  }

  function FingerLen(f: Option<Finger>): nat {
    if f.Some? then FINGER_RESERVED else 0
  }

  /** The fingerprint at the end of the packet, if the cipher has one. */
  function FingerTail(f: Option<Finger>, tag: seq<byte>, body: seq<byte>): (t: seq<byte>)
    requires FingerOptLaws(f)
    ensures |t| == FingerLen(f)
  {
    if f.Some? then CalculateFinger(f.value, tag, body) else []
  }

  function CbcIv(tag: seq<byte>, f: Option<Finger>): (iv: seq<byte>)
    requires |tag| == 12 && FingerOptLaws(f)
    ensures |iv| == 16
  {
    tag + if f.Some? then f.value.hash[..4] else Zeros(4)
  }

  // ----- sealing -----

  /** Without a finger AES-GCM still makes room for one, and encrypts whatever the buffer holds there. */
  function SealGcm(a: Aead, f: Option<Finger>, tag: seq<byte>, body: seq<byte>, slack: seq<byte>, word: seq<byte>): (s: seq<byte>)
    requires AeadLaws(a) && FingerOptLaws(f) && |slack| == 12 && |word| == RANDOM_RESERVED
    ensures |s| == |body| + AES_GCM_ENCRYPTION_RESERVED
  {
    var data := body + (if f.Some? then [] else slack) + word;
    var secret := a.seal(tag, data) + a.tag(tag, data);
    secret + FingerTail(f, tag, secret)
  }

  function SealPoly(a: Aead, f: Option<Finger>, tag: seq<byte>, body: seq<byte>, word: seq<byte>): (s: seq<byte>)
    requires AeadLaws(a) && FingerOptLaws(f) && |tag| == 12 && |word| == RANDOM_RESERVED
    ensures |s| == |body| + TAG_RESERVED + RANDOM_RESERVED + FingerLen(f)
  {
    var nonce := GenNonce(tag, word);
    var secret := a.seal(nonce, body) + a.tag(nonce, body);
    secret + word + FingerTail(f, tag, secret)
  }

  function SealStream(k: KeyStream, f: Option<Finger>, tag: seq<byte>, body: seq<byte>, word: seq<byte>): (s: seq<byte>)
    requires StreamLaws(k) && FingerOptLaws(f) && |tag| == 12 && |word| == RANDOM_RESERVED
    ensures |s| == |body| + RANDOM_RESERVED + FingerLen(f)
  {
    var secret := Xor(body, k(GenNonce(tag, word), |body|));
    secret + word + FingerTail(f, tag, secret)
  }

  function SealCbc(m: BlockMode, f: Option<Finger>, tag: seq<byte>, body: seq<byte>, word: seq<byte>): (s: seq<byte>)
    requires BlockLaws(m) && FingerOptLaws(f) && |tag| == 12 && |word| == RANDOM_RESERVED
    ensures |s| == PaddedLen(|body| + RANDOM_RESERVED) + FingerLen(f)
  {
    var secret := m.enc(CbcIv(tag, f), Pad(body + word));
    secret + FingerTail(f, tag, secret)
  }

  /** AES-ECB seals the header together with the payload. */
  function SealEcb(m: BlockMode, f: Option<Finger>, tag: seq<byte>, p: seq<byte>): (s: seq<byte>)
    requires BlockLaws(m) && FingerOptLaws(f)
    ensures |s| == PaddedLen(|p|) + FingerLen(f)
  {
    var secret := m.enc([], Pad(p));
    secret + FingerTail(f, tag, secret)
  }

  /** SM4 seals the header together with the payload and appends its IV. */
  function SealSm4(m: BlockMode, f: Option<Finger>, tag: seq<byte>, p: seq<byte>, iv: seq<byte>): (s: seq<byte>)
    requires BlockLaws(m) && FingerOptLaws(f) && |iv| == BLOCK
    ensures |s| == PaddedLen(|p|) + BLOCK + FingerLen(f)
  {
    var secret := m.enc(iv, Pad(p)) + iv;
    secret + FingerTail(f, tag, secret)
  }

  /**
   * The payload after encryption. `p` is the whole visible packet; `slack` is what the buffer
   * happens to hold right after it; `random` is the source of the random word (first four
   * bytes) or of the whole IV.
   */
  function SealPayload(c: Cipher, p: seq<byte>, slack: seq<byte>, random: seq<byte>): (s: seq<byte>)
    requires Laws(c) && |p| >= HEAD_LEN && |slack| == 12 && |random| == 16
    ensures HEAD_LEN + |s| == EncryptedLen(c, |p|)
  {
    hide SealGcm, SealPoly, SealStream, SealCbc, SealEcb, SealSm4, HeadTag, PaddedLen, FingerLen;
    var tag, body, word := HeadTag(p), p[HEAD_LEN..], random[..4];
    match c
    case AesGcm(a, f) => SealGcm(a, f, tag, body, slack, word)
    case ChaCha20Poly1305(a, f) => SealPoly(a, f, tag, body, word)
    case ChaCha20(k, f) => SealStream(k, f, tag, body, word)
    case AesCbc(m, f) => SealCbc(m, f, tag, body, word)
    case AesEcb(m, f) => SealEcb(m, f, tag, p)
    case Sm4Cbc(m, f) => SealSm4(m, f, tag, p, random)
    case XorKey(key) => Xor(body, RepeatedKey(key, |body|))
    case NoCipher => body
  }

  function Seal(c: Cipher, p: seq<byte>, slack: seq<byte>, random: seq<byte>): (w: seq<byte>)
    requires Laws(c) && |p| >= HEAD_LEN && |slack| == 12 && |random| == 16
    ensures |w| == EncryptedLen(c, |p|)
  {
    hide SealPayload, EncryptedLen;
    (if c.NoCipher? then p[..HEAD_LEN] else WithEncryptFlag(p[..HEAD_LEN], true)) + SealPayload(c, p, slack, random)
  }

  /** Encryption leaves the header as it is, but for its own flag. */
  lemma SealKeepsHead(c: Cipher, p: seq<byte>, slack: seq<byte>, random: seq<byte>)
    requires Laws(c) && |p| >= HEAD_LEN && |slack| == 12 && |random| == 16
    ensures var w := Seal(c, p, slack, random);
            && Ttl(w) == Ttl(p) && SourceTtl(w) == SourceTtl(p)
            && IsGateway(w) == IsGateway(p) && IsExtension(w) == IsExtension(p)
            && Source(w) == Source(p) && Destination(w) == Destination(p)
  {
    hide SealPayload, FromOctets;
    var head := if c.NoCipher? then p[..HEAD_LEN] else WithEncryptFlag(p[..HEAD_LEN], true);
    var w := Seal(c, p, slack, random);
    SlicesOfHeadAndRest(head, SealPayload(c, p, slack, random));
    FieldsOfPrefix(w, head);
    FieldsOfPrefix(p, p[..HEAD_LEN]);
    SlicesOfPrefix(w, head);
    SlicesOfPrefix(p, p[..HEAD_LEN]);
    SlicesBehindFlags(head, p[..HEAD_LEN]);
  }

  lemma SlicesOfPrefix(p: seq<byte>, head: seq<byte>)
    requires |p| >= HEAD_LEN == |head| && p[..HEAD_LEN] == head
    ensures p[4..8] == head[4..8] && p[8..12] == head[8..12]
  {}

  lemma SlicesBehindFlags(h: seq<byte>, k: seq<byte>)
    requires |h| == |k| == HEAD_LEN && h[1..] == k[1..]
    ensures h[3] == k[3] && h[4..8] == k[4..8] && h[8..12] == k[8..12]
  {
    assert h[3] == h[1..][2] && h[4..8] == h[1..][3..7] && h[8..12] == h[1..][7..11];
    assert k[3] == k[1..][2] && k[4..8] == k[1..][3..7] && k[8..12] == k[1..][7..11];
  }

  /** The length of an encrypted packet depends on the cipher and the plain length alone. */
  function EncryptedLen(c: Cipher, n: nat): (m: nat)
    requires n >= HEAD_LEN
    ensures m >= n
  {
    match c
    case AesGcm(_, _) => n + AES_GCM_ENCRYPTION_RESERVED
    case ChaCha20Poly1305(_, f) => n + TAG_RESERVED + RANDOM_RESERVED + FingerLen(f)
    case ChaCha20(_, f) => n + RANDOM_RESERVED + FingerLen(f)
    case AesCbc(_, f) => HEAD_LEN + PaddedLen(n - HEAD_LEN + RANDOM_RESERVED) + FingerLen(f)
    case AesEcb(_, f) => HEAD_LEN + PaddedLen(n) + FingerLen(f)
    case Sm4Cbc(_, f) => HEAD_LEN + PaddedLen(n) + BLOCK + FingerLen(f)
    case XorKey(_) => n
    case NoCipher => n
  }

  /** Exactly when `encrypt_ipv4` succeeds on a packet of `n` bytes in a buffer of `cap`. */
  predicate Encryptable(c: Cipher, n: nat, cap: nat)
    requires n >= HEAD_LEN
  {
    EncryptedLen(c, n) <= cap && WithinCap(c, n)
  }

  /** The size limits the ciphers impose on a plain packet, whatever the buffer. */
  predicate WithinCap(c: Cipher, n: nat)
    requires n >= HEAD_LEN
  {
    match c
    case AesGcm(_, _) => EncryptedLen(c, n) - HEAD_LEN <= UDP_PAYLOAD_MAX
    case ChaCha20Poly1305(_, _) => EncryptedLen(c, n) - HEAD_LEN <= UDP_PAYLOAD_MAX
    case ChaCha20(_, _) => EncryptedLen(c, n) - HEAD_LEN <= UDP_PAYLOAD_MAX
    case AesCbc(_, f) =>
      if f.Some? then EncryptedLen(c, n) - HEAD_LEN <= UDP_PAYLOAD_MAX
      else n - HEAD_LEN + RANDOM_RESERVED <= UDP_PAYLOAD_MAX
    case AesEcb(_, _) => PaddedLen(n) <= ECB_SCRATCH
    case Sm4Cbc(_, _) => n <= SM4_SCRATCH - 32
    case XorKey(_) => true
    case NoCipher => true
  }

  // ----- opening -----

  /** The payload before its fingerprint, once that has been checked over all of it. */
  function CheckedSecret(f: Option<Finger>, tag: seq<byte>, payload: seq<byte>): (r: Option<seq<byte>>)
    requires FingerOptLaws(f)
    ensures r.Some? ==> |payload| == |r.value| + FingerLen(f)
  {
    if f.None? then Some(payload)
    else if |payload| < FINGER_RESERVED then None
    else
      var e := |payload| - FINGER_RESERVED;
      if CalculateFinger(f.value, tag, payload[..e]) == payload[e..] then Some(payload[..e]) else None
  }

  /** The payload before its random word and fingerprint; the fingerprint does not cover the word. */
  function CheckedIvSecret(f: Option<Finger>, tag: seq<byte>, payload: seq<byte>, least: nat)
    : (r: Option<(seq<byte>, seq<byte>)>)
    requires FingerOptLaws(f)
    ensures r.Some? ==> |r.value.0| >= least && |r.value.1| == RANDOM_RESERVED
    ensures r.Some? ==> |payload| == |r.value.0| + RANDOM_RESERVED + FingerLen(f)
  {
    if |payload| < least + RANDOM_RESERVED + FingerLen(f) || |payload| > UDP_PAYLOAD_MAX then None
    else
      var e := |payload| - RANDOM_RESERVED - FingerLen(f);
      if f.Some? && CalculateFinger(f.value, tag, payload[..e]) != payload[e + RANDOM_RESERVED..] then None
      else Some((payload[..e], payload[e..e + RANDOM_RESERVED]))
  }

  /** The packet whose bytes were sealed whole, header and all, if that header belongs to this one. */
  function OwnPacket(tag: seq<byte>, inner: Option<seq<byte>>): Option<seq<byte>>
  {
    if inner.Some? && |inner.value| >= HEAD_LEN && HeadTag(inner.value) == tag then Some(inner.value[HEAD_LEN..])
    else None
  }

  function OpenGcm(a: Aead, f: Option<Finger>, tag: seq<byte>, payload: seq<byte>): (r: Option<seq<byte>>)
    requires AeadLaws(a) && FingerOptLaws(f)
  {
    if |payload| < AES_GCM_ENCRYPTION_RESERVED || |payload| > UDP_PAYLOAD_MAX then None
    else
      var secret := CheckedSecret(f, tag, payload);
      if secret.None? then None
      else
        var e := |secret.value| - TAG_RESERVED;
        var data := a.open(tag, secret.value[..e], secret.value[e..]);
        if data.None? then None else Some(data.value[..|payload| - AES_GCM_ENCRYPTION_RESERVED])
  }

  function OpenPoly(a: Aead, f: Option<Finger>, tag: seq<byte>, payload: seq<byte>): (r: Option<seq<byte>>)
    requires AeadLaws(a) && FingerOptLaws(f) && |tag| == 12
  {
    var secret := CheckedIvSecret(f, tag, payload, TAG_RESERVED);
    if secret.None? then None
    else
      var e := |secret.value.0| - TAG_RESERVED;
      a.open(GenNonce(tag, secret.value.1), secret.value.0[..e], secret.value.0[e..])
  }

  function OpenStream(k: KeyStream, f: Option<Finger>, tag: seq<byte>, payload: seq<byte>): (r: Option<seq<byte>>)
    requires StreamLaws(k) && FingerOptLaws(f) && |tag| == 12
  {
    var secret := CheckedIvSecret(f, tag, payload, 0);
    if secret.None? then None
    else Some(Xor(secret.value.0, k(GenNonce(tag, secret.value.1), |secret.value.0|)))
  }

  function OpenCbc(m: BlockMode, f: Option<Finger>, tag: seq<byte>, payload: seq<byte>): (r: Option<seq<byte>>)
    requires BlockLaws(m) && FingerOptLaws(f) && |tag| == 12
  {
    if |payload| < BLOCK || |payload| > UDP_PAYLOAD_MAX then None
    else
      var secret := CheckedSecret(f, tag, payload);
      if secret.None? || |secret.value| % BLOCK != 0 then None
      else
        var data := Unpad(m.dec(CbcIv(tag, f), secret.value));
        if data.None? || |data.value| < RANDOM_RESERVED then None
        else Some(data.value[..|data.value| - RANDOM_RESERVED])
  }

  function OpenEcb(m: BlockMode, f: Option<Finger>, tag: seq<byte>, payload: seq<byte>): (r: Option<seq<byte>>)
    requires BlockLaws(m) && FingerOptLaws(f)
  {
    var secret := CheckedSecret(f, tag, payload);
    if secret.None? || |secret.value| < BLOCK || |secret.value| > ECB_SCRATCH || |secret.value| % BLOCK != 0 then None
    else OwnPacket(tag, Unpad(m.dec([], secret.value)))
  }

  function OpenSm4(m: BlockMode, f: Option<Finger>, tag: seq<byte>, payload: seq<byte>): (r: Option<seq<byte>>)
    requires BlockLaws(m) && FingerOptLaws(f)
  {
    var secret := CheckedSecret(f, tag, payload);
    if secret.None? || |secret.value| < BLOCK || |secret.value| > SM4_SCRATCH || |secret.value| % BLOCK != 0 then None
    else
      var e := |secret.value| - BLOCK;
      OwnPacket(tag, Unpad(m.dec(secret.value[e..], secret.value[..e])))
  }

  /** Decryption of a payload under the tag of its header. */
  function OpenPayload(c: Cipher, tag: seq<byte>, payload: seq<byte>): (r: Option<seq<byte>>)
    requires Laws(c) && |tag| == 12
  {
    match c
    case AesGcm(a, f) => OpenGcm(a, f, tag, payload)
    case ChaCha20Poly1305(a, f) => OpenPoly(a, f, tag, payload)
    case ChaCha20(k, f) => OpenStream(k, f, tag, payload)
    case AesCbc(m, f) => OpenCbc(m, f, tag, payload)
    case AesEcb(m, f) => OpenEcb(m, f, tag, payload)
    case Sm4Cbc(m, f) => OpenSm4(m, f, tag, payload)
    case XorKey(key) => Some(Xor(payload, RepeatedKey(key, |payload|)))
    case NoCipher => Some(payload)
  }

  /** `decrypt_ipv4`: the plain packet under the same header, without the encryption flag. */
  function Open(c: Cipher, w: seq<byte>): (r: Option<seq<byte>>)
    requires Laws(c) && |w| >= HEAD_LEN
    ensures r.Some? ==> |r.value| >= HEAD_LEN
  {
    if IsEncrypt(w) == c.NoCipher? then None
    else
      var payload := OpenPayload(c, HeadTag(w), w[HEAD_LEN..]);
      if payload.None? then None
      else Some(WithEncryptFlag(w[..HEAD_LEN], false) + payload.value)
  }

  // ----- laws -----

  /** What the source's decryption cannot take back although its encryption succeeded. */
  predicate Recoverable(c: Cipher, p: seq<byte>)
    requires |p| >= HEAD_LEN
  {
    match c
    case AesCbc(_, _) => EncryptedLen(c, |p|) - HEAD_LEN <= UDP_PAYLOAD_MAX
    case NoCipher => !IsEncrypt(p)
    case _ => true
  }

  lemma SlicesOfHeadAndRest(head: seq<byte>, rest: seq<byte>)
    requires |head| == HEAD_LEN
    ensures (head + rest)[..HEAD_LEN] == head && (head + rest)[HEAD_LEN..] == rest
  {}

  /** The header fields do not depend on what follows the header. */
  lemma FieldsOfPrefix(p: seq<byte>, q: seq<byte>)
    requires |p| >= HEAD_LEN && |q| >= HEAD_LEN && p[..HEAD_LEN] == q[..HEAD_LEN]
    ensures HeadTag(p) == HeadTag(q)
    ensures IsEncrypt(p) == IsEncrypt(q) && IsExtension(p) == IsExtension(q) && IsGateway(p) == IsGateway(q)
    ensures Ttl(p) == Ttl(q) && SourceTtl(p) == SourceTtl(q)
  {}

  lemma CheckedSecretOfSealed(f: Option<Finger>, tag: seq<byte>, secret: seq<byte>)
    requires FingerOptLaws(f)
    ensures CheckedSecret(f, tag, secret + FingerTail(f, tag, secret)) == Some(secret)
  {
    var payload := secret + FingerTail(f, tag, secret);
    assert payload[..|secret|] == secret;
    assert payload[|secret|..] == FingerTail(f, tag, secret);
    if f.None? {
      assert payload == secret;
    }
  }

  lemma CheckedIvSecretOfSealed(f: Option<Finger>, tag: seq<byte>, secret: seq<byte>, word: seq<byte>, least: nat)
    requires FingerOptLaws(f) && |word| == RANDOM_RESERVED && |secret| >= least
    requires |secret| + RANDOM_RESERVED + FingerLen(f) <= UDP_PAYLOAD_MAX
    ensures CheckedIvSecret(f, tag, secret + word + FingerTail(f, tag, secret), least) == Some((secret, word))
  {
    var payload := secret + word + FingerTail(f, tag, secret);
    assert payload[..|secret|] == secret;
    assert payload[|secret|..|secret| + RANDOM_RESERVED] == word;
    assert payload[|secret| + RANDOM_RESERVED..] == FingerTail(f, tag, secret);
  }

  lemma AeadOpensSealed(a: Aead, nonce: seq<byte>, data: seq<byte>)
    requires AeadLaws(a)
    ensures var secret := a.seal(nonce, data) + a.tag(nonce, data);
            && |secret| == |data| + TAG_RESERVED
            && a.open(nonce, secret[..|data|], secret[|data|..]) == Some(data)
  {}

  lemma BlockUnsealsPadded(m: BlockMode, iv: seq<byte>, d: seq<byte>)
    requires BlockLaws(m)
    ensures |m.enc(iv, Pad(d))| == PaddedLen(|d|)
    ensures Unpad(m.dec(iv, m.enc(iv, Pad(d)))) == Some(d)
  {}

  lemma OpenGcmOfSealed(a: Aead, f: Option<Finger>, tag: seq<byte>, body: seq<byte>, slack: seq<byte>, word: seq<byte>)
    requires AeadLaws(a) && FingerOptLaws(f) && |slack| == 12 && |word| == RANDOM_RESERVED
    requires |body| + AES_GCM_ENCRYPTION_RESERVED <= UDP_PAYLOAD_MAX
    ensures OpenGcm(a, f, tag, SealGcm(a, f, tag, body, slack, word)) == Some(body)
  {
    var data := body + (if f.Some? then [] else slack) + word;
    AeadOpensSealed(a, tag, data);
    CheckedSecretOfSealed(f, tag, a.seal(tag, data) + a.tag(tag, data));
    assert data[..|body|] == body;
  }

  lemma OpenPolyOfSealed(a: Aead, f: Option<Finger>, tag: seq<byte>, body: seq<byte>, word: seq<byte>)
    requires AeadLaws(a) && FingerOptLaws(f) && |tag| == 12 && |word| == RANDOM_RESERVED
    requires |body| + TAG_RESERVED + RANDOM_RESERVED + FingerLen(f) <= UDP_PAYLOAD_MAX
    ensures OpenPoly(a, f, tag, SealPoly(a, f, tag, body, word)) == Some(body)
  {
    var nonce := GenNonce(tag, word);
    AeadOpensSealed(a, nonce, body);
    CheckedIvSecretOfSealed(f, tag, a.seal(nonce, body) + a.tag(nonce, body), word, TAG_RESERVED);
  }

  lemma OpenStreamOfSealed(k: KeyStream, f: Option<Finger>, tag: seq<byte>, body: seq<byte>, word: seq<byte>)
    requires StreamLaws(k) && FingerOptLaws(f) && |tag| == 12 && |word| == RANDOM_RESERVED
    requires |body| + RANDOM_RESERVED + FingerLen(f) <= UDP_PAYLOAD_MAX
    ensures OpenStream(k, f, tag, SealStream(k, f, tag, body, word)) == Some(body)
  {
    var mask := k(GenNonce(tag, word), |body|);
    XorTwice(body, mask);
    CheckedIvSecretOfSealed(f, tag, Xor(body, mask), word, 0);
  }

  lemma OpenCbcOfSealed(m: BlockMode, f: Option<Finger>, tag: seq<byte>, body: seq<byte>, word: seq<byte>)
    requires BlockLaws(m) && FingerOptLaws(f) && |tag| == 12 && |word| == RANDOM_RESERVED
    ensures var sealed := SealCbc(m, f, tag, body, word);
            OpenCbc(m, f, tag, sealed) == if |sealed| <= UDP_PAYLOAD_MAX then Some(body) else None
  {
    var data := body + word;
    BlockUnsealsPadded(m, CbcIv(tag, f), data);
    CheckedSecretOfSealed(f, tag, m.enc(CbcIv(tag, f), Pad(data)));
    assert data[..|body|] == body;
  }

  lemma OpenEcbOfSealed(m: BlockMode, f: Option<Finger>, p: seq<byte>)
    requires BlockLaws(m) && FingerOptLaws(f) && |p| >= HEAD_LEN && PaddedLen(|p|) <= ECB_SCRATCH
    ensures OpenEcb(m, f, HeadTag(p), SealEcb(m, f, HeadTag(p), p)) == Some(p[HEAD_LEN..])
  {
    BlockUnsealsPadded(m, [], p);
    CheckedSecretOfSealed(f, HeadTag(p), m.enc([], Pad(p)));
  }

  lemma OpenSm4OfSealed(m: BlockMode, f: Option<Finger>, p: seq<byte>, iv: seq<byte>)
    requires BlockLaws(m) && FingerOptLaws(f) && |p| >= HEAD_LEN && |iv| == BLOCK && PaddedLen(|p|) + BLOCK <= SM4_SCRATCH
    ensures OpenSm4(m, f, HeadTag(p), SealSm4(m, f, HeadTag(p), p, iv)) == Some(p[HEAD_LEN..])
  {
    var ct := m.enc(iv, Pad(p));
    BlockUnsealsPadded(m, iv, p);
    CheckedSecretOfSealed(f, HeadTag(p), ct + iv);
    assert (ct + iv)[..|ct|] == ct && (ct + iv)[|ct|..] == iv;
  }

  /** Under the tag it was sealed with, a payload opens to what was sealed, or never. */
  lemma OpenPayloadOfSealed(c: Cipher, p: seq<byte>, slack: seq<byte>, random: seq<byte>)
    requires Laws(c) && |p| >= HEAD_LEN && |slack| == 12 && |random| == 16
    requires WithinCap(c, |p|)
    ensures OpenPayload(c, HeadTag(p), SealPayload(c, p, slack, random)) ==
            if c.AesCbc? && !Recoverable(c, p) then None else Some(p[HEAD_LEN..])
  {
    var tag, body, word := HeadTag(p), p[HEAD_LEN..], random[..4];
    match c
    case AesGcm(a, f) => OpenGcmOfSealed(a, f, tag, body, slack, word);
    case ChaCha20Poly1305(a, f) => OpenPolyOfSealed(a, f, tag, body, word);
    case ChaCha20(k, f) => OpenStreamOfSealed(k, f, tag, body, word);
    case AesCbc(m, f) => OpenCbcOfSealed(m, f, tag, body, word);
    case AesEcb(m, f) => OpenEcbOfSealed(m, f, p);
    case Sm4Cbc(m, f) => OpenSm4OfSealed(m, f, p, random);
    case XorKey(key) => XorTwice(body, RepeatedKey(key, |body|));
    case NoCipher =>
  }

  /** Sealing keeps header and tag, so opening is decided by the payload. */
  lemma OpenOfSealedByPayload(c: Cipher, p: seq<byte>, slack: seq<byte>, random: seq<byte>)
    requires Laws(c) && |p| >= HEAD_LEN && |slack| == 12 && |random| == 16
    ensures var plain := OpenPayload(c, HeadTag(p), SealPayload(c, p, slack, random));
            Open(c, Seal(c, p, slack, random)) ==
              if (c.NoCipher? && IsEncrypt(p)) || plain.None? then None
              else Some(WithEncryptFlag(p[..HEAD_LEN], false) + plain.value)
  {
    hide SealPayload, OpenPayload;
    var head := if c.NoCipher? then p[..HEAD_LEN] else WithEncryptFlag(p[..HEAD_LEN], true);
    var w := Seal(c, p, slack, random);
    SlicesOfHeadAndRest(head, SealPayload(c, p, slack, random));
    FieldsOfPrefix(w, head);
    FieldsOfPrefix(p, p[..HEAD_LEN]);
    TagIgnoresTtlAndFlags(p[..HEAD_LEN], true);
    FlagOffTwice(p[..HEAD_LEN]);
  }

  lemma FlagOffWhole(p: seq<byte>)
    requires |p| >= HEAD_LEN
    ensures WithEncryptFlag(p[..HEAD_LEN], false) + p[HEAD_LEN..] == WithEncryptFlag(p, false)
  {}

  /**
   * Round trip of every cipher: whenever encryption succeeds, decryption gives the packet back
   * if and only if it is `Recoverable`, and otherwise refuses it.
   */
  lemma OpenOfSealed(c: Cipher, p: seq<byte>, slack: seq<byte>, random: seq<byte>)
    requires Laws(c) && |p| >= HEAD_LEN && |slack| == 12 && |random| == 16
    requires WithinCap(c, |p|)
    ensures Open(c, Seal(c, p, slack, random)) ==
            if Recoverable(c, p) then Some(WithEncryptFlag(p, false)) else None
  {
    hide SealPayload, OpenPayload, Open, Seal, WithEncryptFlag;
    OpenOfSealedByPayload(c, p, slack, random);
    OpenPayloadOfSealed(c, p, slack, random);
    FlagOffWhole(p);
  }

  lemma FlagOffTwice(h: seq<byte>)
    requires |h| >= HEAD_LEN
    ensures WithEncryptFlag(WithEncryptFlag(h, true), false) == WithEncryptFlag(h, false)
    ensures !IsEncrypt(h) ==> WithEncryptFlag(h, false) == h
  {}

  /**
   * The one family that is lost: AES-CBC without a finger checks its size before padding and
   * again on arrival, so a payload of 65484 bytes encrypts and can never be decrypted.
   */
  lemma CbcLosesItsLargestPackets(c: Cipher, p: seq<byte>, slack: seq<byte>, random: seq<byte>)
    requires Laws(c) && c.AesCbc? && c.finger.None? && |slack| == 12 && |random| == 16
    requires |p| == HEAD_LEN + 65484
    ensures Encryptable(c, |p|, 65536) && Open(c, Seal(c, p, slack, random)) == None
  {
    hide Open, Seal;
    OpenOfSealed(c, p, slack, random);
  }

  /** Decryption commutes with relaying, for every datagram and not only for honest ones. */
  lemma OpenOfRelayed(c: Cipher, w: seq<byte>)
    requires Laws(c) && |w| >= HEAD_LEN && Ttl(w) != 0
    ensures Open(c, w).None? ==> Open(c, Relayed(w)).None?
    ensures Open(c, w).Some? ==> Ttl(Open(c, w).value) == Ttl(w)
    ensures Open(c, w).Some? ==> Open(c, Relayed(w)) == Some(Relayed(Open(c, w).value))
  {
    var r := Relayed(w);
    TagIgnoresTtlAndFlags(w, false);
    RelayedKeepsRest(w);
    if Open(c, w).Some? {
      OpenKeepsHead(c, w);
      RelayUnderFlag(w[..HEAD_LEN], Open(c, w).value[HEAD_LEN..]);
      assert w == w[..HEAD_LEN] + w[HEAD_LEN..];
    }
  }

  lemma RelayedKeepsRest(w: seq<byte>)
    requires |w| >= HEAD_LEN && Ttl(w) != 0
    ensures Ttl(w[..HEAD_LEN]) == Ttl(w)
    ensures Relayed(w)[..HEAD_LEN] == Relayed(w[..HEAD_LEN]) && Relayed(w)[HEAD_LEN..] == w[HEAD_LEN..]
    ensures IsEncrypt(Relayed(w)) == IsEncrypt(w) && IsExtension(Relayed(w)) == IsExtension(w)
  {}

  lemma RelayUnderFlag(head: seq<byte>, payload: seq<byte>)
    requires |head| == HEAD_LEN && Ttl(head) != 0
    ensures Ttl(WithEncryptFlag(head, false) + payload) == Ttl(head)
    ensures WithEncryptFlag(Relayed(head), false) + payload == Relayed(WithEncryptFlag(head, false) + payload)
  {}

  lemma {:induction false} OpenOfRelayedBy(c: Cipher, w: seq<byte>, n: nat)
    requires Laws(c) && |w| >= HEAD_LEN && n <= Ttl(w) as nat
    ensures Open(c, w).None? ==> Open(c, RelayedBy(w, n)).None?
    ensures Open(c, w).Some? ==> Ttl(Open(c, w).value) == Ttl(w)
    ensures Open(c, w).Some? ==> Open(c, RelayedBy(w, n)) == Some(RelayedBy(Open(c, w).value, n))
    decreases n
  {
    hide Open, Relayed;
    if n == 0 {
      if Ttl(w) != 0 { OpenOfRelayed(c, w); } else if Open(c, w).Some? { OpenKeepsHead(c, w); }
    } else {
      PredNat(Ttl(w));
      OpenOfRelayed(c, w);
      OpenOfRelayedBy(c, Relayed(w), n - 1);
    }
  }

  lemma OpenKeepsHead(c: Cipher, w: seq<byte>)
    requires Laws(c) && |w| >= HEAD_LEN && Open(c, w).Some?
    ensures var p := Open(c, w).value;
            && p[..HEAD_LEN] == WithEncryptFlag(w[..HEAD_LEN], false)
            && HeadTag(p) == HeadTag(w) && Ttl(p) == Ttl(w)
            && !IsEncrypt(p) && IsExtension(p) == IsExtension(w)
  {}

  lemma UnpaddedLength(p: seq<byte>)
    requires Unpad(p).Some?
    ensures |p| == PaddedLen(|Unpad(p).value|)
  {}

  lemma OpenedCbcLength(m: BlockMode, f: Option<Finger>, tag: seq<byte>, payload: seq<byte>)
    requires BlockLaws(m) && FingerOptLaws(f) && |tag| == 12 && OpenCbc(m, f, tag, payload).Some?
    ensures |payload| == PaddedLen(|OpenCbc(m, f, tag, payload).value| + RANDOM_RESERVED) + FingerLen(f)
    ensures |payload| <= UDP_PAYLOAD_MAX
  {
    UnpaddedLength(m.dec(CbcIv(tag, f), CheckedSecret(f, tag, payload).value));
  }

  lemma OpenedEcbLength(m: BlockMode, f: Option<Finger>, tag: seq<byte>, payload: seq<byte>)
    requires BlockLaws(m) && FingerOptLaws(f) && OpenEcb(m, f, tag, payload).Some?
    ensures |payload| == PaddedLen(|OpenEcb(m, f, tag, payload).value| + HEAD_LEN) + FingerLen(f)
    ensures |payload| - FingerLen(f) <= ECB_SCRATCH
  {}

  lemma OpenedSm4Length(m: BlockMode, f: Option<Finger>, tag: seq<byte>, payload: seq<byte>)
    requires BlockLaws(m) && FingerOptLaws(f) && OpenSm4(m, f, tag, payload).Some?
    ensures |payload| == PaddedLen(|OpenSm4(m, f, tag, payload).value| + HEAD_LEN) + BLOCK + FingerLen(f)
    ensures |payload| - FingerLen(f) <= SM4_SCRATCH
  {
    var secret := CheckedSecret(f, tag, payload).value;
    UnpaddedLength(m.dec(secret[|secret| - BLOCK..], secret[..|secret| - BLOCK]));
  }

  lemma OpenedGcmLength(a: Aead, f: Option<Finger>, tag: seq<byte>, payload: seq<byte>)
    requires AeadLaws(a) && FingerOptLaws(f) && OpenGcm(a, f, tag, payload).Some?
    ensures |payload| == |OpenGcm(a, f, tag, payload).value| + AES_GCM_ENCRYPTION_RESERVED
    ensures |payload| <= UDP_PAYLOAD_MAX
  {}

  lemma OpenedPolyLength(a: Aead, f: Option<Finger>, tag: seq<byte>, payload: seq<byte>)
    requires AeadLaws(a) && FingerOptLaws(f) && |tag| == 12 && OpenPoly(a, f, tag, payload).Some?
    ensures |payload| == |OpenPoly(a, f, tag, payload).value| + TAG_RESERVED + RANDOM_RESERVED + FingerLen(f)
    ensures |payload| <= UDP_PAYLOAD_MAX
  {}

  lemma OpenedStreamLength(k: KeyStream, f: Option<Finger>, tag: seq<byte>, payload: seq<byte>)
    requires StreamLaws(k) && FingerOptLaws(f) && |tag| == 12 && OpenStream(k, f, tag, payload).Some?
    ensures |payload| == |OpenStream(k, f, tag, payload).value| + RANDOM_RESERVED + FingerLen(f)
    ensures |payload| <= UDP_PAYLOAD_MAX
  {}

  /** The payload a cipher accepted is as long as the one it would make of the result, and within its limits. */
  lemma OpenedPayloadLength(c: Cipher, tag: seq<byte>, payload: seq<byte>)
    requires Laws(c) && |tag| == 12 && OpenPayload(c, tag, payload).Some?
    ensures var n := HEAD_LEN + |OpenPayload(c, tag, payload).value|;
            && HEAD_LEN + |payload| == EncryptedLen(c, n)
            && (WithinCap(c, n) || (c.Sm4Cbc? && n > SM4_SCRATCH - 32))
    ensures c.AesCbc? ==> |payload| <= UDP_PAYLOAD_MAX
    ensures c.Sm4Cbc? ==> HEAD_LEN + |OpenPayload(c, tag, payload).value| < SM4_SCRATCH - BLOCK
  {
    hide OpenGcm, OpenPoly, OpenStream, OpenCbc, OpenEcb, OpenSm4;
    match c
    case AesGcm(a, f) => OpenedGcmLength(a, f, tag, payload);
    case ChaCha20Poly1305(a, f) => OpenedPolyLength(a, f, tag, payload);
    case ChaCha20(k, f) => OpenedStreamLength(k, f, tag, payload);
    case AesCbc(m, f) => OpenedCbcLength(m, f, tag, payload);
    case AesEcb(m, f) => OpenedEcbLength(m, f, tag, payload);
    case Sm4Cbc(m, f) => OpenedSm4Length(m, f, tag, payload);
    case XorKey(_) =>
    case NoCipher =>
  }

  /** Whatever decrypts, honest or not, had the length that encrypting the result would have. */
  lemma OpenedLength(c: Cipher, w: seq<byte>)
    requires Laws(c) && |w| >= HEAD_LEN && Open(c, w).Some?
    ensures |w| == EncryptedLen(c, |Open(c, w).value|)
    ensures WithinCap(c, |Open(c, w).value|) || (c.Sm4Cbc? && |Open(c, w).value| > SM4_SCRATCH - 32)
    ensures c.AesCbc? ==> |w| - HEAD_LEN <= UDP_PAYLOAD_MAX
    ensures c.Sm4Cbc? ==> |Open(c, w).value| < SM4_SCRATCH - BLOCK
  {
    hide OpenPayload, EncryptedLen, WithinCap, HeadTag;
    OpenedPayloadLength(c, HeadTag(w), w[HEAD_LEN..]);
  }

  /**
   * In-place replies: a packet that was decrypted can be encrypted again in the very bytes it
   * arrived in, except an SM4 packet longer than its sender's own limit.
   */
  lemma OpenedCanBeSealedInPlace(c: Cipher, w: seq<byte>)
    requires Laws(c) && |w| >= HEAD_LEN && Open(c, w).Some?
    ensures Encryptable(c, |Open(c, w).value|, |w|) <==>
            !(c.Sm4Cbc? && |Open(c, w).value| > SM4_SCRATCH - 32)
  {
    hide Open;
    OpenedLength(c, w);
  }

  /** The exception is real, for every length from 4065 to 4079 ... */
  lemma Sm4OpensWhatItCannotAnswer(c: Cipher, p: seq<byte>, slack: seq<byte>, random: seq<byte>)
    requires Laws(c) && c.Sm4Cbc? && |slack| == 12 && |random| == 16 && 4065 <= |p| < 4080
    ensures var w := Seal(c, p, slack, random);
            Open(c, w) == Some(WithEncryptFlag(p, false)) && !Encryptable(c, |p|, |w|)
  {
    hide SealPayload, OpenPayload, Open, Seal, WithEncryptFlag;
    OpenOfSealedByPayload(c, p, slack, random);
    Sm4PayloadOfLong(c, p, slack, random);
    FlagOffWhole(p);
  }

  lemma Sm4PayloadOfLong(c: Cipher, p: seq<byte>, slack: seq<byte>, random: seq<byte>)
    requires Laws(c) && c.Sm4Cbc? && |slack| == 12 && |random| == 16 && 4065 <= |p| < 4080
    ensures OpenPayload(c, HeadTag(p), SealPayload(c, p, slack, random)) == Some(p[HEAD_LEN..])
  {
    OpenSm4OfSealed(c.block, c.finger, p, random);
  }

  /** ... and for no other. */
  lemma UnanswerableLengths(c: Cipher, w: seq<byte>)
    requires Laws(c) && |w| >= HEAD_LEN && Open(c, w).Some?
    ensures !Encryptable(c, |Open(c, w).value|, |w|) ==> c.Sm4Cbc? && 4065 <= |Open(c, w).value| < 4080
  {
    hide Open, Encryptable;
    OpenedCanBeSealedInPlace(c, w);
    OpenedLength(c, w);
  }

  /** Whatever is sent back in its place, of the same length, fits there and opens at the other end. */
  lemma AnswerInPlace(c: Cipher, w: seq<byte>, answer: seq<byte>, slack: seq<byte>, random: seq<byte>)
    requires Laws(c) && |w| >= HEAD_LEN && Open(c, w).Some? && |slack| == 12 && |random| == 16
    requires |answer| == |Open(c, w).value| && !IsEncrypt(answer)
    requires !(c.Sm4Cbc? && |answer| > SM4_SCRATCH - 32)
    ensures Encryptable(c, |answer|, |w|)
    ensures |Seal(c, answer, slack, random)| == |w| && Open(c, Seal(c, answer, slack, random)) == Some(answer)
  {
    hide Open, Seal;
    OpenedLength(c, w);
    OpenOfSealed(c, answer, slack, random);
    FlagOffTwice(answer);
  }

  /** 60 spare bytes are enough for every cipher, and SM4 can need 56 of them. */
  lemma SpareBytesSuffice(c: Cipher, n: nat, cap: nat)
    requires n >= HEAD_LEN && WithinCap(c, n) && n + ENCRYPTION_RESERVED <= cap
    ensures Encryptable(c, n, cap)
    ensures EncryptedLen(c, n) <= n + 56
    ensures EncryptedLen(c, n) == n + 56 <==> c.Sm4Cbc? && c.finger.Some? && n % BLOCK == 0
  {}

  /** A packet inside SM4's encryption limit is inside its decryption limit. */
  lemma Sm4CapsAgree(c: Cipher, n: nat)
    requires n >= HEAD_LEN && c.Sm4Cbc? && WithinCap(c, n)
    ensures EncryptedLen(c, n) - HEAD_LEN - FingerLen(c.finger) <= SM4_SCRATCH
  {}

  // ----- the fingerprint check that needs no key -----

  /** `Finger::check_finger`. */
  predicate CheckFinger(f: Finger, w: seq<byte>)
    requires FingerLaws(f) && |w| >= HEAD_LEN
  {
    && IsEncrypt(w)
    && |w| - HEAD_LEN >= FINGER_RESERVED
    && CalculateFinger(f, HeadTag(w), w[HEAD_LEN..|w| - FINGER_RESERVED]) == w[|w| - FINGER_RESERVED..]
  }

  predicate FingerCoversBody(c: Cipher) {
    (c.AesGcm? || c.AesCbc? || c.AesEcb? || c.Sm4Cbc?) && c.finger.Some?
  }

  /** Those four ciphers check the finger of everything before it. */
  lemma OpenedHadItsFinger(c: Cipher, tag: seq<byte>, payload: seq<byte>)
    requires Laws(c) && |tag| == 12 && FingerCoversBody(c) && OpenPayload(c, tag, payload).Some?
    ensures CheckedSecret(c.finger, tag, payload).Some?
  {}

  /** For the four ciphers whose finger covers the whole secret, whatever decrypts passes the check. */
  lemma OpenedPassesCheckFinger(c: Cipher, w: seq<byte>)
    requires Laws(c) && |w| >= HEAD_LEN && FingerCoversBody(c) && Open(c, w).Some?
    ensures CheckFinger(c.finger.value, w)
  {
    hide OpenPayload, HeadTag;
    var payload := w[HEAD_LEN..];
    OpenedHadItsFinger(c, HeadTag(w), payload);
    var e := |payload| - FINGER_RESERVED;
    assert payload[..e] == w[HEAD_LEN..|w| - FINGER_RESERVED];
    assert payload[e..] == w[|w| - FINGER_RESERVED..];
  }

  /** A sealed packet passes the check at every relay on its way. */
  lemma SealedPassesCheckFinger(c: Cipher, p: seq<byte>, slack: seq<byte>, random: seq<byte>, n: nat)
    requires Laws(c) && |p| >= HEAD_LEN && |slack| == 12 && |random| == 16
    requires FingerCoversBody(c) && WithinCap(c, |p|)
    requires n <= Ttl(Seal(c, p, slack, random)) as nat
    ensures CheckFinger(c.finger.value, RelayedBy(Seal(c, p, slack, random), n))
  {
    hide Open, Seal, SealPayload, CheckFinger;
    var w := Seal(c, p, slack, random);
    OpenOfSealed(c, p, slack, random);
    OpenOfRelayedBy(c, w, n);
    OpenedPassesCheckFinger(c, RelayedBy(w, n));
  }
}
