/** The ciphers as the source runs them: in place, in the buffer of the packet. */
module CipherMethods {
  import opened Bytes
  import opened NetPackets
  import opened Primitives
  import opened Ciphers

  // ----- how consecutive writes read back -----

  /** The twelve bytes a buffer holds after the visible packet. */
  function Slack(raw: seq<byte>, n: nat): (s: seq<byte>)
    ensures |s| == 12
    ensures n + 12 <= |raw| ==> s == raw[n..n + 12]
  {
    if n + 12 <= |raw| then raw[n..n + 12] else Zeros(12)
  }

  /** A buffer whose header is `head` and whose next bytes are the pieces, read back as one packet. */
  lemma Assembled(raw: seq<byte>, head: seq<byte>, x: seq<byte>, y: seq<byte>, z: seq<byte>)
    requires |head| == HEAD_LEN && HEAD_LEN + |x| + |y| + |z| <= |raw|
    requires raw[..HEAD_LEN] == head
    requires raw[HEAD_LEN..HEAD_LEN + |x|] == x
    requires raw[HEAD_LEN + |x|..HEAD_LEN + |x| + |y|] == y
    requires raw[HEAD_LEN + |x| + |y|..HEAD_LEN + |x| + |y| + |z|] == z
    ensures raw[..HEAD_LEN + |x| + |y| + |z|] == head + (x + y + z)
  {}

  /** The flag changes the header of what is read back and nothing else. */
  lemma FlaggedPrefix(r: seq<byte>, head: seq<byte>, rest: seq<byte>, on: bool)
    requires |head| == HEAD_LEN && HEAD_LEN + |rest| <= |r| && r[..HEAD_LEN + |rest|] == head + rest
    ensures WithEncryptFlag(r, on)[..HEAD_LEN + |rest|] == WithEncryptFlag(head, on) + rest
  {}

  /** Three pieces written one behind the other, then the encryption flag. */
  lemma InOrder(raw: seq<byte>, x: seq<byte>, y: seq<byte>, z: seq<byte>)
    requires HEAD_LEN + |x| + |y| + |z| <= |raw|
    ensures var r2 := Splice(Splice(raw, HEAD_LEN, x), HEAD_LEN + |x|, y);
            && r2[HEAD_LEN..HEAD_LEN + |x| + |y|] == x + y
            && var r4 := WithEncryptFlag(Splice(r2, HEAD_LEN + |x| + |y|, z), true);
            && r4[..HEAD_LEN + |x| + |y| + |z|] == WithEncryptFlag(raw[..HEAD_LEN], true) + (x + y + z)
  {}

  /** AES-GCM writes its random word first, at the end of what it encrypts. */
  lemma GcmLayout(raw: seq<byte>, n: nat, word: seq<byte>, ct: seq<byte>, tg: seq<byte>, tail: seq<byte>)
    requires HEAD_LEN <= n && n + 32 <= |raw| && |word| == 4 && |tg| == 16 && |tail| in {0, 12}
    requires |ct| == n - HEAD_LEN + 16 - |tail|
    ensures var end := n + 16 - |tail|;
            var r1 := Splice(raw, end - 4, word);
            && r1[HEAD_LEN..end] == raw[HEAD_LEN..n] + (if |tail| == 0 then raw[n..n + 12] else []) + word
            && var r3 := Splice(Splice(r1, HEAD_LEN, ct), end, tg);
            && r3[HEAD_LEN..end + 16] == ct + tg
            && var r5 := WithEncryptFlag(Splice(r3, end + 16, tail), true);
            && r5[..n + 32] == WithEncryptFlag(raw[..HEAD_LEN], true) + (ct + tg + tail)
  {
    hide WithEncryptFlag;
    var end := n + 16 - |tail|;
    SpliceKeeps(raw, end - 4, word, 0, HEAD_LEN);
    InOrder(Splice(raw, end - 4, word), ct, tg, tail);
  }

  /** The ChaCha20 ciphers write their random word first, behind the ciphertext and its tag, if any. */
  lemma WordFirstLayout(raw: seq<byte>, n: nat, word: seq<byte>, ct: seq<byte>, tg: seq<byte>, tail: seq<byte>)
    requires HEAD_LEN <= n && |ct| == n - HEAD_LEN && |word| == 4
    requires n + |tg| + 4 + |tail| <= |raw|
    ensures var r1 := Splice(raw, n + |tg|, word);
            && r1[HEAD_LEN..n] == raw[HEAD_LEN..n]
            && var r3 := Splice(Splice(r1, HEAD_LEN, ct), n, tg);
            && r3[HEAD_LEN..n + |tg|] == ct + tg
            && var r5 := WithEncryptFlag(Splice(r3, n + |tg| + 4, tail), true);
            && r5[..n + |tg| + 4 + |tail|] == WithEncryptFlag(raw[..HEAD_LEN], true) + (ct + tg + word + tail)
  {
    hide Splice, WithEncryptFlag;
    var r1 := Splice(raw, n + |tg|, word);
    var r2 := Splice(r1, HEAD_LEN, ct);
    var r3 := Splice(r2, n, tg);
    var r4 := Splice(r3, n + |tg| + 4, tail);
    SpliceHas(raw, n + |tg|, word);
    SpliceHas(r1, HEAD_LEN, ct);
    SpliceHas(r2, n, tg);
    SpliceHas(r3, n + |tg| + 4, tail);
    var e := n + |tg| + 4;
    SpliceKeeps(raw, n + |tg|, word, 0, HEAD_LEN);
    SpliceKeeps(raw, n + |tg|, word, HEAD_LEN, n);
    SpliceKeeps(r1, HEAD_LEN, ct, 0, HEAD_LEN);
    SpliceKeeps(r1, HEAD_LEN, ct, n + |tg|, e);
    SpliceKeeps(r2, n, tg, 0, HEAD_LEN);
    SpliceKeeps(r2, n, tg, HEAD_LEN, n);
    SpliceKeeps(r2, n, tg, n + |tg|, e);
    SpliceKeeps(r3, e, tail, 0, HEAD_LEN);
    SpliceKeeps(r3, e, tail, HEAD_LEN, n + |tg|);
    SpliceKeeps(r3, e, tail, n + |tg|, e);
    SlicesJoin(r3, HEAD_LEN, n, n + |tg|);
    assert r4[..HEAD_LEN] == r3[..HEAD_LEN] == r2[..HEAD_LEN] == r1[..HEAD_LEN] == raw[..HEAD_LEN];
    Assembled(r4, raw[..HEAD_LEN], ct + tg, word, tail);
    FlaggedPrefix(r4, raw[..HEAD_LEN], ct + tg + word + tail, true);
  }

  /** A decrypted payload put back behind the header. */
  lemma PlainLayout(raw: seq<byte>, data: seq<byte>, m: nat)
    requires HEAD_LEN + |data| <= |raw| && m <= |data|
    ensures WithEncryptFlag(Splice(raw, HEAD_LEN, data), false)[..HEAD_LEN + m]
            == WithEncryptFlag(raw[..HEAD_LEN], false) + data[..m]
  {}

  /** All that encryption does to a header, even where it fails half way. */
  predicate SameUpToEncryption(before: seq<byte>, after: seq<byte>)
    requires |before| >= HEAD_LEN && |after| >= HEAD_LEN
  {
    after[..HEAD_LEN] == before[..HEAD_LEN] || after[..HEAD_LEN] == WithEncryptFlag(before[..HEAD_LEN], true)
  }

  // ----- the fingerprint -----

  /** `set_finger`: the fingerprint of `body` over the last twelve bytes of the packet. */
  method WriteFinger(p: NetPacket, f: Option<Finger>, tag: seq<byte>, body: seq<byte>)
    requires p.Valid() && FingerOptLaws(f)
    requires HEAD_LEN + FingerLen(f) <= p.dataLen
    modifies p.buffer
    ensures p.buffer[..] == Splice(old(p.buffer[..]), p.dataLen - FingerLen(f), FingerTail(f, tag, body))
  {
    if f.Some? {
      CopyInto(p.buffer, p.dataLen - FINGER_RESERVED, CalculateFinger(f.value, tag, body));
    } else {
      assert p.buffer[..] == Splice(p.buffer[..], p.dataLen, []);
    }
  }

  /** The fingerprint over everything before it, as AES and SM4 check it. */
  method FingerMatches(payload: seq<byte>, f: Option<Finger>, tag: seq<byte>) returns (ok: bool)
    requires FingerOptLaws(f)
    ensures ok ==> FingerLen(f) <= |payload|
    ensures CheckedSecret(f, tag, payload) == if ok then Some(payload[..|payload| - FingerLen(f)]) else None
  {
    if f.None? {
      assert payload[..|payload|] == payload;
      return true;
    }
    if |payload| < FINGER_RESERVED {
      return false;
    }
    var e := |payload| - FINGER_RESERVED;
    ok := CalculateFinger(f.value, tag, payload[..e]) == payload[e..];
  }

  /** The fingerprint over everything before the random word, as the ChaCha20 ciphers check it. */
  method IvFingerMatches(payload: seq<byte>, f: Option<Finger>, tag: seq<byte>, least: nat) returns (ok: bool)
    requires FingerOptLaws(f)
    ensures ok ==> least + RANDOM_RESERVED + FingerLen(f) <= |payload|
    ensures CheckedIvSecret(f, tag, payload, least) ==
            if ok then
              var e := |payload| - RANDOM_RESERVED - FingerLen(f);
              Some((payload[..e], payload[e..e + RANDOM_RESERVED]))
            else None
  {
    if |payload| < least + RANDOM_RESERVED + FingerLen(f) || |payload| > UDP_PAYLOAD_MAX {
      return false;
    }
    var e := |payload| - RANDOM_RESERVED - FingerLen(f);
    ok := f.None? || CalculateFinger(f.value, tag, payload[..e]) == payload[e + RANDOM_RESERVED..];
  }

  /** The end of every decryption: plain bytes over the secret ones, flag off, length shortened. */
  method PutPlain(p: NetPacket, data: seq<byte>, m: nat) returns (ok: bool)
    requires p.Valid() && HEAD_LEN + |data| <= p.buffer.Length && m <= |data|
    modifies p, p.buffer
    ensures ok && p.Valid()
    ensures p.Bytes() == WithEncryptFlag(old(p.Raw())[..HEAD_LEN], false) + data[..m]
  {
    hide Splice, WithEncryptFlag;
    ghost var raw := p.Raw();
    CopyInto(p.buffer, HEAD_LEN, data);
    p.SetEncryptFlag(false);
    ok := p.SetDataLen(HEAD_LEN + m);
    PlainLayout(raw, data, m);
    assert p.Bytes() == p.Raw()[..HEAD_LEN + m];
  }

  // ----- AES-GCM -----

  /** The buffer after AES-GCM has written into it. */
  function GcmRaw(a: Aead, f: Option<Finger>, raw: seq<byte>, n: nat, tag: seq<byte>, word: seq<byte>): (r: seq<byte>)
    requires AeadLaws(a) && FingerOptLaws(f) && |word| == 4 && HEAD_LEN <= n && n + 32 <= |raw|
    ensures |r| == |raw|
  {
    var end := n + 16 - FingerLen(f);
    var r1 := Splice(raw, end - RANDOM_RESERVED, word);
    var data := r1[HEAD_LEN..end];
    CiphertextRaw(f, r1, n + 32, tag, a.seal(tag, data), a.tag(tag, data))
  }

  lemma GcmRawIsSealed(a: Aead, f: Option<Finger>, raw: seq<byte>, n: nat, tag: seq<byte>, word: seq<byte>)
    requires AeadLaws(a) && FingerOptLaws(f) && |word| == 4 && HEAD_LEN <= n && n + 32 <= |raw|
    ensures GcmRaw(a, f, raw, n, tag, word)[..n + 32]
            == WithEncryptFlag(raw[..HEAD_LEN], true) + SealGcm(a, f, tag, raw[HEAD_LEN..n], Slack(raw, n), word)
  {
    hide CalculateFinger, FingerTail, Splice, WithEncryptFlag;
    var end := n + 16 - FingerLen(f);
    var data := Splice(raw, end - RANDOM_RESERVED, word)[HEAD_LEN..end];
    var secret := a.seal(tag, data) + a.tag(tag, data);
    GcmLayout(raw, n, word, a.seal(tag, data), a.tag(tag, data), FingerTail(f, tag, secret));
  }

  method EncryptGcm(a: Aead, f: Option<Finger>, p: NetPacket, random: seq<byte>) returns (ok: bool)
    requires p.Valid() && |random| == 16 && AeadLaws(a) && FingerOptLaws(f)
    modifies p, p.buffer
    ensures p.Valid()
    ensures ok <==> Encryptable(AesGcm(a, f), old(p.dataLen), p.buffer.Length)
    ensures !ok ==> SameUpToEncryption(old(p.Raw()), p.Raw())
    ensures ok ==> p.Bytes() == WithEncryptFlag(old(p.Raw())[..HEAD_LEN], true)
                                + SealGcm(a, f, HeadTag(old(p.Raw())), old(p.Raw())[HEAD_LEN..old(p.dataLen)],
                                          Slack(old(p.Raw()), old(p.dataLen)), random[..4])
  {
    hide CalculateFinger, FingerTail, Splice, WithEncryptFlag, HeadTag, SealGcm, Slack, CiphertextRaw;
    if p.buffer.Length - p.dataLen < AES_GCM_ENCRYPTION_RESERVED {
      return false;
    }
    ghost var raw, n := p.Raw(), p.dataLen;
    var tag := HeadTag(p.buffer[..]);
    ok := p.SetDataLen(p.dataLen + AES_GCM_ENCRYPTION_RESERVED);
    if p.dataLen - HEAD_LEN > UDP_PAYLOAD_MAX {
      return false;
    }
    var end := p.dataLen - FingerLen(f) - TAG_RESERVED;
    CopyInto(p.buffer, end - RANDOM_RESERVED, random[..4]);
    var data := p.buffer[HEAD_LEN..end];
    PutCiphertext(p, f, tag, a.seal(tag, data), a.tag(tag, data));
    GcmRawIsSealed(a, f, raw, n, tag, random[..4]);
    assert p.Bytes() == p.Raw()[..n + 32];
  }

  method DecryptGcm(a: Aead, f: Option<Finger>, p: NetPacket) returns (ok: bool)
    requires p.Valid() && AeadLaws(a) && FingerOptLaws(f)
    modifies p, p.buffer
    ensures p.Valid()
    ensures ok <==> IsEncrypt(old(p.Raw())) && OpenGcm(a, f, HeadTag(old(p.Raw())), old(p.Raw())[HEAD_LEN..old(p.dataLen)]).Some?
    ensures ok ==> p.Bytes() == WithEncryptFlag(old(p.Raw())[..HEAD_LEN], false)
                                + OpenGcm(a, f, HeadTag(old(p.Raw())), old(p.Raw())[HEAD_LEN..old(p.dataLen)]).value
  {
    hide CheckedSecret, WithEncryptFlag, HeadTag;
    var raw := p.buffer[..];
    var payload := raw[HEAD_LEN..p.dataLen];
    if !IsEncrypt(raw) || |payload| < AES_GCM_ENCRYPTION_RESERVED || |payload| > UDP_PAYLOAD_MAX {
      return false;
    }
    var tag := HeadTag(raw);
    ok := FingerMatches(payload, f, tag);
    if !ok {
      return;
    }
    var secret := payload[..|payload| - FingerLen(f)];
    var e := |secret| - TAG_RESERVED;
    var data := a.open(tag, secret[..e], secret[e..]);
    if data.None? {
      return false;
    }
    ok := PutPlain(p, data.value, |payload| - AES_GCM_ENCRYPTION_RESERVED);
  }

  // ----- ChaCha20-Poly1305 and ChaCha20 -----

  /** The buffer after either ChaCha20 cipher: the random word first, then secret, tag and finger. */
  function WordFirstRaw(
    f: Option<Finger>, raw: seq<byte>, n: nat, tag: seq<byte>, word: seq<byte>, ct: seq<byte>, tg: seq<byte>
  ): (r: seq<byte>)
    requires FingerOptLaws(f) && |word| == 4 && HEAD_LEN <= n && |ct| == n - HEAD_LEN
    requires n + |tg| + 4 + FingerLen(f) <= |raw|
    ensures |r| == |raw|
  {
    var r1 := Splice(raw, n + |tg|, word);
    var r3 := Splice(Splice(r1, HEAD_LEN, ct), n, tg);
    WithEncryptFlag(Splice(r3, n + |tg| + 4, FingerTail(f, tag, r3[HEAD_LEN..n + |tg|])), true)
  }

  lemma WordFirstRawIsSealed(
    f: Option<Finger>, raw: seq<byte>, n: nat, tag: seq<byte>, word: seq<byte>, ct: seq<byte>, tg: seq<byte>)
    requires FingerOptLaws(f) && |word| == 4 && HEAD_LEN <= n && |ct| == n - HEAD_LEN
    requires n + |tg| + 4 + FingerLen(f) <= |raw|
    ensures Splice(raw, n + |tg|, word)[HEAD_LEN..n] == raw[HEAD_LEN..n]
    ensures WordFirstRaw(f, raw, n, tag, word, ct, tg)[..n + |tg| + 4 + FingerLen(f)]
            == WithEncryptFlag(raw[..HEAD_LEN], true) + (ct + tg + word + FingerTail(f, tag, ct + tg))
  {
    hide FingerTail, Splice, WithEncryptFlag;
    WordFirstLayout(raw, n, word, ct, tg, FingerTail(f, tag, ct + tg));
  }

  method EncryptPoly(a: Aead, f: Option<Finger>, p: NetPacket, random: seq<byte>) returns (ok: bool)
    requires p.Valid() && |random| == 16 && AeadLaws(a) && FingerOptLaws(f)
    modifies p, p.buffer
    ensures p.Valid()
    ensures ok <==> Encryptable(ChaCha20Poly1305(a, f), old(p.dataLen), p.buffer.Length)
    ensures !ok ==> SameUpToEncryption(old(p.Raw()), p.Raw())
    ensures ok ==> p.Bytes() == WithEncryptFlag(old(p.Raw())[..HEAD_LEN], true)
                                + SealPoly(a, f, HeadTag(old(p.Raw())), old(p.Raw())[HEAD_LEN..old(p.dataLen)], random[..4])
  {
    hide CalculateFinger, FingerTail, Splice, WithEncryptFlag, HeadTag, GenNonce, WordFirstRaw, CiphertextRaw;
    ghost var raw, n := p.Raw(), p.dataLen;
    var tag := HeadTag(p.buffer[..]);
    ok := p.SetDataLen(p.dataLen + TAG_RESERVED + RANDOM_RESERVED + FingerLen(f));
    if !ok || p.dataLen - HEAD_LEN > UDP_PAYLOAD_MAX {
      return false;
    }
    var word := random[..4];
    var end := p.dataLen - FingerLen(f) - RANDOM_RESERVED - TAG_RESERVED;
    CopyInto(p.buffer, end + TAG_RESERVED, word);
    var nonce := GenNonce(tag, word);
    var data := p.buffer[HEAD_LEN..end];
    var ct, tg := a.seal(nonce, data), a.tag(nonce, data);
    PutCiphertext(p, f, tag, ct, tg);
    WordFirstRawIsSealed(f, raw, n, tag, word, ct, tg);
    WordFirstRawIsChain(f, raw, n, tag, word, ct, tg);
    assert p.Bytes() == p.Raw()[..n + 20 + FingerLen(f)];
  }

  /** Ciphertext, detached tag, finger over both, then the flag. */
  method PutCiphertext(p: NetPacket, f: Option<Finger>, tag: seq<byte>, ct: seq<byte>, tg: seq<byte>)
    requires p.Valid() && FingerOptLaws(f) && HEAD_LEN + |ct| + |tg| + FingerLen(f) <= p.dataLen
    modifies p.buffer
    ensures p.buffer[..] == CiphertextRaw(f, old(p.Raw()), p.dataLen, tag, ct, tg)
  {
    hide CalculateFinger, FingerTail, Splice, WithEncryptFlag;
    CopyInto(p.buffer, HEAD_LEN, ct);
    CopyInto(p.buffer, HEAD_LEN + |ct|, tg);
    WriteFinger(p, f, tag, p.buffer[HEAD_LEN..HEAD_LEN + |ct| + |tg|]);
    p.SetEncryptFlag(true);
  }

  function CiphertextRaw(
    f: Option<Finger>, raw: seq<byte>, n: nat, tag: seq<byte>, ct: seq<byte>, tg: seq<byte>
  ): (r: seq<byte>)
    requires FingerOptLaws(f) && HEAD_LEN + |ct| + |tg| + FingerLen(f) <= n <= |raw|
    ensures |r| == |raw|
  {
    var r2 := Splice(Splice(raw, HEAD_LEN, ct), HEAD_LEN + |ct|, tg);
    WithEncryptFlag(Splice(r2, n - FingerLen(f), FingerTail(f, tag, r2[HEAD_LEN..HEAD_LEN + |ct| + |tg|])), true)
  }

  lemma WordFirstRawIsChain(
    f: Option<Finger>, raw: seq<byte>, n: nat, tag: seq<byte>, word: seq<byte>, ct: seq<byte>, tg: seq<byte>)
    requires FingerOptLaws(f) && |word| == 4 && HEAD_LEN <= n && |ct| == n - HEAD_LEN
    requires n + |tg| + 4 + FingerLen(f) <= |raw|
    ensures WordFirstRaw(f, raw, n, tag, word, ct, tg)
            == CiphertextRaw(f, Splice(raw, n + |tg|, word), n + |tg| + 4 + FingerLen(f), tag, ct, tg)
  {}

  method DecryptPoly(a: Aead, f: Option<Finger>, p: NetPacket) returns (ok: bool)
    requires p.Valid() && AeadLaws(a) && FingerOptLaws(f)
    modifies p, p.buffer
    ensures p.Valid()
    ensures ok <==> IsEncrypt(old(p.Raw())) && OpenPoly(a, f, HeadTag(old(p.Raw())), old(p.Raw())[HEAD_LEN..old(p.dataLen)]).Some?
    ensures ok ==> p.Bytes() == WithEncryptFlag(old(p.Raw())[..HEAD_LEN], false)
                                + OpenPoly(a, f, HeadTag(old(p.Raw())), old(p.Raw())[HEAD_LEN..old(p.dataLen)]).value
  {
    hide CheckedIvSecret, WithEncryptFlag, HeadTag, GenNonce;
    var raw := p.buffer[..];
    var payload := raw[HEAD_LEN..p.dataLen];
    if !IsEncrypt(raw) || |payload| < TAG_RESERVED {
      return false;
    }
    var tag := HeadTag(raw);
    ok := IvFingerMatches(payload, f, tag, TAG_RESERVED);
    if !ok {
      return;
    }
    var end := |payload| - RANDOM_RESERVED - FingerLen(f);
    var nonce := GenNonce(tag, payload[end..end + RANDOM_RESERVED]);
    var e := end - TAG_RESERVED;
    var data := a.open(nonce, payload[..end][..e], payload[..end][e..]);
    if data.None? {
      return false;
    }
    ok := PutPlain(p, data.value, |data.value|);
    assert data.value[..|data.value|] == data.value;
  }

  method EncryptStream(k: KeyStream, f: Option<Finger>, p: NetPacket, random: seq<byte>) returns (ok: bool)
    requires p.Valid() && |random| == 16 && StreamLaws(k) && FingerOptLaws(f)
    modifies p, p.buffer
    ensures p.Valid()
    ensures ok <==> Encryptable(ChaCha20(k, f), old(p.dataLen), p.buffer.Length)
    ensures !ok ==> SameUpToEncryption(old(p.Raw()), p.Raw())
    ensures ok ==> p.Bytes() == WithEncryptFlag(old(p.Raw())[..HEAD_LEN], true)
                                + SealStream(k, f, HeadTag(old(p.Raw())), old(p.Raw())[HEAD_LEN..old(p.dataLen)], random[..4])
  {
    hide CalculateFinger, FingerTail, Splice, WithEncryptFlag, HeadTag, GenNonce, Xor, WordFirstRaw, CiphertextRaw;
    ghost var raw, n := p.Raw(), p.dataLen;
    var tag := HeadTag(p.buffer[..]);
    ok := p.SetDataLen(p.dataLen + RANDOM_RESERVED + FingerLen(f));
    if !ok || p.dataLen - HEAD_LEN > UDP_PAYLOAD_MAX {
      return false;
    }
    var word := random[..4];
    var end := p.dataLen - FingerLen(f) - RANDOM_RESERVED;
    CopyInto(p.buffer, end, word);
    var data := p.buffer[HEAD_LEN..end];
    var ct := Xor(data, k(GenNonce(tag, word), |data|));
    PutCiphertext(p, f, tag, ct, []);
    WordFirstRawIsSealed(f, raw, n, tag, word, ct, []);
    WordFirstRawIsChain(f, raw, n, tag, word, ct, []);
    assert ct + [] == ct;
    assert p.Bytes() == p.Raw()[..n + 4 + FingerLen(f)];
  }

  method DecryptStream(k: KeyStream, f: Option<Finger>, p: NetPacket) returns (ok: bool)
    requires p.Valid() && StreamLaws(k) && FingerOptLaws(f)
    modifies p, p.buffer
    ensures p.Valid()
    ensures ok <==> IsEncrypt(old(p.Raw())) && OpenStream(k, f, HeadTag(old(p.Raw())), old(p.Raw())[HEAD_LEN..old(p.dataLen)]).Some?
    ensures ok ==> p.Bytes() == WithEncryptFlag(old(p.Raw())[..HEAD_LEN], false)
                                + OpenStream(k, f, HeadTag(old(p.Raw())), old(p.Raw())[HEAD_LEN..old(p.dataLen)]).value
  {
    hide CheckedIvSecret, WithEncryptFlag, HeadTag, GenNonce, Xor;
    var raw := p.buffer[..];
    var payload := raw[HEAD_LEN..p.dataLen];
    if !IsEncrypt(raw) {
      return false;
    }
    var tag := HeadTag(raw);
    ok := IvFingerMatches(payload, f, tag, 0);
    if !ok {
      return;
    }
    var end := |payload| - RANDOM_RESERVED - FingerLen(f);
    var nonce := GenNonce(tag, payload[end..end + RANDOM_RESERVED]);
    var data := Xor(payload[..end], k(nonce, end));
    ok := PutPlain(p, data, |data|);
    assert data[..|data|] == data;
  }

  // ----- AES-CBC -----

  /** The buffer after ciphertext, a second piece and the finger of both, one behind the other. */
  function InOrderRaw(f: Option<Finger>, raw: seq<byte>, tag: seq<byte>, x: seq<byte>, y: seq<byte>): (r: seq<byte>)
    requires FingerOptLaws(f) && HEAD_LEN + |x| + |y| + FingerLen(f) <= |raw|
    ensures |r| == |raw|
  {
    var r2 := Splice(Splice(raw, HEAD_LEN, x), HEAD_LEN + |x|, y);
    WithEncryptFlag(Splice(r2, HEAD_LEN + |x| + |y|, FingerTail(f, tag, r2[HEAD_LEN..HEAD_LEN + |x| + |y|])), true)
  }

  lemma InOrderRawIsSealed(f: Option<Finger>, raw: seq<byte>, tag: seq<byte>, x: seq<byte>, y: seq<byte>)
    requires FingerOptLaws(f) && HEAD_LEN + |x| + |y| + FingerLen(f) <= |raw|
    ensures Splice(Splice(raw, HEAD_LEN, x), HEAD_LEN + |x|, y)[HEAD_LEN..HEAD_LEN + |x| + |y|] == x + y
    ensures InOrderRaw(f, raw, tag, x, y)[..HEAD_LEN + |x| + |y| + FingerLen(f)]
            == WithEncryptFlag(raw[..HEAD_LEN], true) + (x + y + FingerTail(f, tag, x + y))
  {}

  lemma InOrderRawIsChain(f: Option<Finger>, raw: seq<byte>, tag: seq<byte>, x: seq<byte>, y: seq<byte>)
    requires FingerOptLaws(f) && HEAD_LEN + |x| + |y| + FingerLen(f) <= |raw|
    ensures InOrderRaw(f, raw, tag, x, y) == CiphertextRaw(f, raw, HEAD_LEN + |x| + |y| + FingerLen(f), tag, x, y)
  {}

  /** The random word goes behind the payload and is encrypted with it. */
  method AppendWord(p: NetPacket, end: nat, word: seq<byte>) returns (data: seq<byte>)
    requires p.Valid() && |word| == RANDOM_RESERVED && HEAD_LEN + RANDOM_RESERVED <= end <= p.buffer.Length
    modifies p.buffer
    ensures data == old(p.Raw())[HEAD_LEN..end - RANDOM_RESERVED] + word
    ensures p.Raw()[..HEAD_LEN] == old(p.Raw())[..HEAD_LEN]
  {
    hide Splice;
    ghost var raw := p.Raw();
    CopyInto(p.buffer, end - RANDOM_RESERVED, word);
    data := p.buffer[HEAD_LEN..end];
    SpliceKeeps(raw, end - RANDOM_RESERVED, word, 0, HEAD_LEN);
    SpliceKeeps(raw, end - RANDOM_RESERVED, word, HEAD_LEN, end - RANDOM_RESERVED);
    SpliceHas(raw, end - RANDOM_RESERVED, word);
    assert data == p.buffer[HEAD_LEN..end - RANDOM_RESERVED] + p.buffer[end - RANDOM_RESERVED..end];
  }

  /** Ciphertext and finger over the payload, once the ciphertext is known. */
  method PutSecret(p: NetPacket, f: Option<Finger>, tag: seq<byte>, secret: seq<byte>) returns (ok: bool)
    requires p.Valid() && FingerOptLaws(f) && HEAD_LEN + |secret| <= p.buffer.Length
    modifies p, p.buffer
    ensures p.Valid()
    ensures ok <==> HEAD_LEN + |secret| + FingerLen(f) <= p.buffer.Length
    ensures ok ==> p.Bytes() == WithEncryptFlag(old(p.Raw())[..HEAD_LEN], true) + (secret + FingerTail(f, tag, secret))
    ensures SameUpToEncryption(old(p.Raw()), p.Raw())
  {
    hide CalculateFinger, FingerTail, Splice, WithEncryptFlag;
    ghost var raw := p.Raw();
    ok := p.SetDataLen(HEAD_LEN + |secret| + FingerLen(f));
    if !ok {
      return;
    }
    PutCiphertext(p, f, tag, secret, []);
    InOrderRawIsSealed(f, raw, tag, secret, []);
    InOrderRawIsChain(f, raw, tag, secret, []);
    assert secret + [] == secret;
    assert p.Bytes() == p.Raw()[..p.dataLen];
  }

  method EncryptCbc(m: BlockMode, f: Option<Finger>, p: NetPacket, random: seq<byte>) returns (ok: bool)
    requires p.Valid() && |random| == 16 && BlockLaws(m) && FingerOptLaws(f)
    modifies p, p.buffer
    ensures p.Valid()
    ensures ok <==> Encryptable(AesCbc(m, f), old(p.dataLen), p.buffer.Length)
    ensures !ok ==> SameUpToEncryption(old(p.Raw()), p.Raw())
    ensures ok ==> p.Bytes() == WithEncryptFlag(old(p.Raw())[..HEAD_LEN], true)
                                + SealCbc(m, f, HeadTag(old(p.Raw())), old(p.Raw())[HEAD_LEN..old(p.dataLen)], random[..4])
  {
    hide CalculateFinger, FingerTail, WithEncryptFlag, HeadTag, CbcIv, Pad;
    ghost var n := p.dataLen;
    var tag := HeadTag(p.buffer[..]);
    var iv := CbcIv(tag, f);
    ok := p.SetDataLen(p.dataLen + RANDOM_RESERVED + FingerLen(f));
    if !ok || p.dataLen - HEAD_LEN > UDP_PAYLOAD_MAX {
      return false;
    }
    var data := AppendWord(p, p.dataLen - FingerLen(f), random[..4]);
    // padding may use the whole buffer
    ok := p.SetDataLen(p.buffer.Length);
    if PaddedLen(|data|) > p.buffer.Length - HEAD_LEN {
      return false;
    }
    var secret := m.enc(iv, Pad(data));
    ok := PutSecret(p, f, tag, secret);
    if ok && f.Some? && p.dataLen - HEAD_LEN > UDP_PAYLOAD_MAX {
      return false;
    }
  }

  method DecryptCbc(m: BlockMode, f: Option<Finger>, p: NetPacket) returns (ok: bool)
    requires p.Valid() && BlockLaws(m) && FingerOptLaws(f)
    modifies p, p.buffer
    ensures p.Valid()
    ensures ok <==> IsEncrypt(old(p.Raw())) && OpenCbc(m, f, HeadTag(old(p.Raw())), old(p.Raw())[HEAD_LEN..old(p.dataLen)]).Some?
    ensures ok ==> p.Bytes() == WithEncryptFlag(old(p.Raw())[..HEAD_LEN], false)
                                + OpenCbc(m, f, HeadTag(old(p.Raw())), old(p.Raw())[HEAD_LEN..old(p.dataLen)]).value
  {
    hide CheckedSecret, WithEncryptFlag, HeadTag, CbcIv, Unpad;
    var raw := p.buffer[..];
    var payload := raw[HEAD_LEN..p.dataLen];
    if !IsEncrypt(raw) || |payload| < BLOCK || |payload| > UDP_PAYLOAD_MAX {
      return false;
    }
    var tag := HeadTag(raw);
    ok := FingerMatches(payload, f, tag);
    if !ok {
      return;
    }
    var secret := payload[..|payload| - FingerLen(f)];
    if |secret| % BLOCK != 0 {
      return false;
    }
    var data := Unpad(m.dec(CbcIv(tag, f), secret));
    if data.None? || |data.value| < RANDOM_RESERVED {
      return false;
    }
    ok := PutPlain(p, data.value, |data.value| - RANDOM_RESERVED);
  }

  // ----- AES-ECB -----

  method EncryptEcb(m: BlockMode, f: Option<Finger>, p: NetPacket, random: seq<byte>) returns (ok: bool)
    requires p.Valid() && |random| == 16 && BlockLaws(m) && FingerOptLaws(f)
    modifies p, p.buffer
    ensures p.Valid()
    ensures ok <==> Encryptable(AesEcb(m, f), old(p.dataLen), p.buffer.Length)
    ensures !ok ==> SameUpToEncryption(old(p.Raw()), p.Raw())
    ensures ok ==> p.Bytes() == WithEncryptFlag(old(p.Raw())[..HEAD_LEN], true)
                                + SealEcb(m, f, HeadTag(old(p.Raw())), old(p.Bytes()))
  {
    hide CalculateFinger, FingerTail, WithEncryptFlag, HeadTag, Pad;
    if PaddedLen(p.dataLen) > ECB_SCRATCH {
      return false;
    }
    var secret := m.enc([], Pad(p.buffer[..p.dataLen]));
    if HEAD_LEN + |secret| > p.buffer.Length {
      return false;
    }
    ok := PutSecret(p, f, HeadTag(p.buffer[..]), secret);
  }

  /** The six comparisons of the sealed header with the one it arrived under. */
  method SealedHeadMatches(inner: seq<byte>, p: NetPacket) returns (ok: bool)
    requires p.Valid() && |inner| >= HEAD_LEN
    ensures ok <==> HeadTag(inner) == HeadTag(p.Raw())
  {
    SameIdentityIsSameTag(inner, p.buffer[..]);
    if Source(inner) != Source(p.buffer[..]) {
      return false;
    }
    if Destination(inner) != Destination(p.buffer[..]) {
      return false;
    }
    if Protocol(inner) != Protocol(p.buffer[..]) {
      return false;
    }
    if TransportProtocol(inner) != TransportProtocol(p.buffer[..]) {
      return false;
    }
    if IsGateway(inner) != IsGateway(p.buffer[..]) {
      return false;
    }
    return SourceTtl(inner) == SourceTtl(p.buffer[..]);
  }

  /** The sealed packet replaces the payload it was sealed in; the header it arrived under stays. */
  method AdoptInner(inner: Option<seq<byte>>, p: NetPacket) returns (ok: bool)
    requires p.Valid() && (inner.Some? ==> |inner.value| <= p.dataLen)
    modifies p, p.buffer
    ensures p.Valid()
    ensures ok <==> OwnPacket(HeadTag(old(p.Raw())), inner).Some?
    ensures ok ==> p.Bytes() == WithEncryptFlag(old(p.Raw())[..HEAD_LEN], false)
                                + OwnPacket(HeadTag(old(p.Raw())), inner).value
  {
    if inner.None? || |inner.value| < HEAD_LEN {
      return false;
    }
    ok := SealedHeadMatches(inner.value, p);
    if !ok {
      return;
    }
    ghost var raw := p.Raw();
    ok := p.SetDataLen(|inner.value|);
    CopyInto(p.buffer, HEAD_LEN, inner.value[HEAD_LEN..]);
    p.SetEncryptFlag(false);
    PlainLayout(raw, inner.value[HEAD_LEN..], |inner.value| - HEAD_LEN);
  }

  /** Decryption of a payload whose fingerprint is no longer in question. */
  lemma OpenEcbOfSecret(m: BlockMode, f: Option<Finger>, tag: seq<byte>, payload: seq<byte>, secret: seq<byte>)
    requires BlockLaws(m) && FingerOptLaws(f) && CheckedSecret(f, tag, payload) == Some(secret)
    ensures OpenEcb(m, f, tag, payload) ==
            if |secret| < BLOCK || |secret| > ECB_SCRATCH || |secret| % BLOCK != 0 then None
            else OwnPacket(tag, Unpad(m.dec([], secret)))
  {
    hide CheckedSecret, OwnPacket, Unpad;
  }

  lemma OpenSm4OfSecret(m: BlockMode, f: Option<Finger>, tag: seq<byte>, payload: seq<byte>, secret: seq<byte>)
    requires BlockLaws(m) && FingerOptLaws(f) && CheckedSecret(f, tag, payload) == Some(secret)
    ensures OpenSm4(m, f, tag, payload) ==
            if |secret| < BLOCK || |secret| > SM4_SCRATCH || |secret| % BLOCK != 0 then None
            else OwnPacket(tag, Unpad(m.dec(secret[|secret| - BLOCK..], secret[..|secret| - BLOCK])))
  {
    hide CheckedSecret, OwnPacket, Unpad;
  }

  lemma OpenOfUnchecked(m: BlockMode, f: Option<Finger>, tag: seq<byte>, payload: seq<byte>)
    requires BlockLaws(m) && FingerOptLaws(f) && CheckedSecret(f, tag, payload).None?
    ensures OpenEcb(m, f, tag, payload).None? && OpenSm4(m, f, tag, payload).None?
  {
    hide CheckedSecret;
  }

  method DecryptEcb(m: BlockMode, f: Option<Finger>, p: NetPacket) returns (ok: bool)
    requires p.Valid() && BlockLaws(m) && FingerOptLaws(f)
    modifies p, p.buffer
    ensures p.Valid()
    ensures ok <==> IsEncrypt(old(p.Raw())) && OpenEcb(m, f, HeadTag(old(p.Raw())), old(p.Raw())[HEAD_LEN..old(p.dataLen)]).Some?
    ensures ok ==> p.Bytes() == WithEncryptFlag(old(p.Raw())[..HEAD_LEN], false)
                                + OpenEcb(m, f, HeadTag(old(p.Raw())), old(p.Raw())[HEAD_LEN..old(p.dataLen)]).value
  {
    hide WithEncryptFlag, HeadTag, Unpad, OwnPacket, OpenEcb;
    hide CheckedSecret;
    var raw := p.buffer[..];
    var payload := raw[HEAD_LEN..p.dataLen];
    if !IsEncrypt(raw) {
      return false;
    }
    var tag := HeadTag(raw);
    ok := FingerMatches(payload, f, tag);
    if !ok {
      OpenOfUnchecked(m, f, tag, payload);
      return;
    }
    var secret := payload[..|payload| - FingerLen(f)];
    OpenEcbOfSecret(m, f, tag, payload, secret);
    if |secret| < BLOCK || |secret| > ECB_SCRATCH || |secret| % BLOCK != 0 {
      return false;
    }
    ok := AdoptInner(Unpad(m.dec([], secret)), p);
  }

  // ----- SM4-CBC -----

  method EncryptSm4(m: BlockMode, f: Option<Finger>, p: NetPacket, random: seq<byte>) returns (ok: bool)
    requires p.Valid() && |random| == 16 && BlockLaws(m) && FingerOptLaws(f)
    modifies p, p.buffer
    ensures p.Valid()
    ensures ok <==> Encryptable(Sm4Cbc(m, f), old(p.dataLen), p.buffer.Length)
    ensures !ok ==> SameUpToEncryption(old(p.Raw()), p.Raw())
    ensures ok ==> p.Bytes() == WithEncryptFlag(old(p.Raw())[..HEAD_LEN], true)
                                + SealSm4(m, f, HeadTag(old(p.Raw())), old(p.Bytes()), random)
  {
    hide CalculateFinger, FingerTail, Splice, WithEncryptFlag, HeadTag, Pad, InOrderRaw, CiphertextRaw;
    if p.dataLen > SM4_SCRATCH - 32 {
      return false;
    }
    ghost var raw := p.Raw();
    var tag := HeadTag(p.buffer[..]);
    var ct := m.enc(random, Pad(p.buffer[..p.dataLen]));
    ok := p.SetDataLen(HEAD_LEN + |ct| + BLOCK);
    if !ok {
      return;
    }
    ok := p.SetDataLen(p.dataLen + FingerLen(f));
    if !ok {
      return;
    }
    PutCiphertext(p, f, tag, ct, random);
    InOrderRawIsSealed(f, raw, tag, ct, random);
    InOrderRawIsChain(f, raw, tag, ct, random);
    assert p.Bytes() == p.Raw()[..p.dataLen];
  }

  method DecryptSm4(m: BlockMode, f: Option<Finger>, p: NetPacket) returns (ok: bool)
    requires p.Valid() && BlockLaws(m) && FingerOptLaws(f)
    modifies p, p.buffer
    ensures p.Valid()
    ensures ok <==> IsEncrypt(old(p.Raw())) && OpenSm4(m, f, HeadTag(old(p.Raw())), old(p.Raw())[HEAD_LEN..old(p.dataLen)]).Some?
    ensures ok ==> p.Bytes() == WithEncryptFlag(old(p.Raw())[..HEAD_LEN], false)
                                + OpenSm4(m, f, HeadTag(old(p.Raw())), old(p.Raw())[HEAD_LEN..old(p.dataLen)]).value
  {
    hide WithEncryptFlag, HeadTag, Unpad, OwnPacket, OpenSm4;
    hide CheckedSecret;
    var raw := p.buffer[..];
    var payload := raw[HEAD_LEN..p.dataLen];
    if !IsEncrypt(raw) {
      return false;
    }
    var tag := HeadTag(raw);
    ok := FingerMatches(payload, f, tag);
    if !ok {
      OpenOfUnchecked(m, f, tag, payload);
      return;
    }
    var secret := payload[..|payload| - FingerLen(f)];
    OpenSm4OfSecret(m, f, tag, payload, secret);
    if |secret| < BLOCK || |secret| > SM4_SCRATCH || |secret| % BLOCK != 0 {
      return false;
    }
    var e := |secret| - BLOCK;
    ok := AdoptInner(Unpad(m.dec(secret[e..], secret[..e])), p);
  }

  // ----- xor -----

  /** The loop both directions of the xor cipher run over the payload. */
  method XorPayload(key: seq<byte>, p: NetPacket)
    requires p.Valid() && |key| == 32
    modifies p.buffer
    ensures p.Raw()[..HEAD_LEN] == old(p.Raw())[..HEAD_LEN]
    ensures p.Bytes()[HEAD_LEN..] == Xor(old(p.Bytes())[HEAD_LEN..], RepeatedKey(key, p.dataLen - HEAD_LEN))
  {
    var n := p.dataLen - HEAD_LEN;
    ghost var raw := p.Raw();
    var i := 0;
    while i < n
      invariant 0 <= i <= n
      invariant forall j :: 0 <= j < p.buffer.Length && !(HEAD_LEN <= j < HEAD_LEN + i) ==> p.buffer[j] == raw[j]
      invariant forall j :: HEAD_LEN <= j < HEAD_LEN + i ==> p.buffer[j] == raw[j] ^ key[(j - HEAD_LEN) % 32]
    {
      p.buffer[HEAD_LEN + i] := p.buffer[HEAD_LEN + i] ^ key[i % 32];
      i := i + 1;
    }
  }

  method EncryptXor(key: seq<byte>, p: NetPacket, random: seq<byte>) returns (ok: bool)
    requires p.Valid() && |random| == 16 && |key| == 32
    modifies p.buffer
    ensures ok && Encryptable(XorKey(key), p.dataLen, p.buffer.Length)
    ensures var body := old(p.Raw())[HEAD_LEN..p.dataLen];
            p.Bytes() == WithEncryptFlag(old(p.Raw())[..HEAD_LEN], true) + Xor(body, RepeatedKey(key, |body|))
  {
    ghost var raw := p.Raw();
    p.SetEncryptFlag(true);
    assert p.Bytes()[HEAD_LEN..] == raw[HEAD_LEN..p.dataLen];
    assert p.Raw()[..HEAD_LEN] == WithEncryptFlag(raw[..HEAD_LEN], true);
    XorPayload(key, p);
    ok := true;
    assert p.Bytes() == p.Raw()[..HEAD_LEN] + p.Bytes()[HEAD_LEN..];
  }

  method DecryptXor(key: seq<byte>, p: NetPacket) returns (ok: bool)
    requires p.Valid() && |key| == 32
    modifies p.buffer
    ensures ok <==> IsEncrypt(old(p.Raw()))
    ensures ok ==> var body := old(p.Raw())[HEAD_LEN..p.dataLen];
                   p.Bytes() == WithEncryptFlag(old(p.Raw())[..HEAD_LEN], false) + Xor(body, RepeatedKey(key, |body|))
  {
    if !IsEncrypt(p.buffer[..]) {
      return false;
    }
    ghost var raw := p.Raw();
    assert p.Bytes()[HEAD_LEN..] == raw[HEAD_LEN..p.dataLen];
    XorPayload(key, p);
    ghost var rest := p.Bytes()[HEAD_LEN..];
    p.SetEncryptFlag(false);
    ok := true;
    assert p.Bytes() == WithEncryptFlag(raw[..HEAD_LEN], false) + rest;
  }

  /** `Cipher::None` leaves a packet as it is and refuses one that claims to be encrypted. */
  method EncryptNothing(p: NetPacket) returns (ok: bool)
    requires p.Valid()
    ensures ok && Encryptable(NoCipher, p.dataLen, p.buffer.Length)
    ensures p.Bytes() == p.Bytes()[..HEAD_LEN] + p.Bytes()[HEAD_LEN..]
  {
    ok := true;
  }

  method DecryptNothing(p: NetPacket) returns (ok: bool)
    requires p.Valid()
    ensures ok <==> !IsEncrypt(p.Raw())
    ensures ok ==> p.Bytes() == WithEncryptFlag(p.Raw()[..HEAD_LEN], false) + p.Raw()[HEAD_LEN..p.dataLen]
  {
    ok := !IsEncrypt(p.buffer[..]);
    if ok {
      FlagOffTwice(p.Raw()[..HEAD_LEN]);
      assert p.Bytes() == p.Raw()[..HEAD_LEN] + p.Raw()[HEAD_LEN..p.dataLen];
    }
  }

  // ----- `Cipher::encrypt_ipv4` and `Cipher::decrypt_ipv4` -----

  method EncryptIpv4(c: Cipher, p: NetPacket, random: seq<byte>) returns (ok: bool)
    requires p.Valid() && |random| == 16 && Laws(c)
    modifies p, p.buffer
    ensures p.Valid()
    ensures ok <==> Encryptable(c, old(p.dataLen), p.buffer.Length)
    ensures !ok ==> SameUpToEncryption(old(p.Raw()), p.Raw())
    ensures ok ==> p.Bytes() == Seal(c, old(p.Bytes()), Slack(old(p.Raw()), old(p.dataLen)), random)
  {
    hide SealGcm, SealPoly, SealStream, SealCbc, SealEcb, SealSm4, HeadTag, EncryptedLen, WithinCap, Slack;
    ghost var raw, plain := p.Raw(), p.Bytes();
    FieldsOfPrefix(raw, plain);
    assert raw[..HEAD_LEN] == plain[..HEAD_LEN] && raw[HEAD_LEN..p.dataLen] == plain[HEAD_LEN..];
    match c
    case AesGcm(a, f) => ok := EncryptGcm(a, f, p, random);
    case ChaCha20Poly1305(a, f) => ok := EncryptPoly(a, f, p, random);
    case ChaCha20(k, f) => ok := EncryptStream(k, f, p, random);
    case AesCbc(m, f) => ok := EncryptCbc(m, f, p, random);
    case AesEcb(m, f) => ok := EncryptEcb(m, f, p, random);
    case Sm4Cbc(m, f) => ok := EncryptSm4(m, f, p, random);
    case XorKey(key) => ok := EncryptXor(key, p, random);
    case NoCipher => ok := EncryptNothing(p);
  }

  /** Encryption of a finished packet, and what leaves then. */
  method EncryptAnswer(c: Cipher, p: NetPacket, random: seq<byte>) returns (reply: Option<seq<byte>>, ghost slack: seq<byte>)
    requires p.Valid() && Laws(c) && |random| == 16
    modifies p, p.buffer
    ensures |slack| == 12
    ensures reply == if Encryptable(c, old(p.dataLen), p.buffer.Length) then Some(Seal(c, old(p.Bytes()), slack, random))
                     else None
  {
    hide Seal, Encryptable;
    slack := Slack(p.Raw(), p.dataLen);
    var ok := EncryptIpv4(c, p, random);
    reply := if ok then Some(p.buffer[..p.dataLen]) else None;
  }

  method DecryptIpv4(c: Cipher, p: NetPacket) returns (ok: bool)
    requires p.Valid() && Laws(c)
    modifies p, p.buffer
    ensures p.Valid()
    ensures ok <==> Open(c, old(p.Bytes())).Some?
    ensures ok ==> p.Bytes() == Open(c, old(p.Bytes())).value
  {
    hide OpenGcm, OpenPoly, OpenStream, OpenCbc, OpenEcb, OpenSm4, HeadTag;
    ghost var raw, w := p.Raw(), p.Bytes();
    FieldsOfPrefix(raw, w);
    assert raw[..HEAD_LEN] == w[..HEAD_LEN] && raw[HEAD_LEN..p.dataLen] == w[HEAD_LEN..];
    match c
    case AesGcm(a, f) => ok := DecryptGcm(a, f, p);
    case ChaCha20Poly1305(a, f) => ok := DecryptPoly(a, f, p);
    case ChaCha20(k, f) => ok := DecryptStream(k, f, p);
    case AesCbc(m, f) => ok := DecryptCbc(m, f, p);
    case AesEcb(m, f) => ok := DecryptEcb(m, f, p);
    case Sm4Cbc(m, f) => ok := DecryptSm4(m, f, p);
    case XorKey(key) => ok := DecryptXor(key, p);
    case NoCipher => ok := DecryptNothing(p);
  }
}
