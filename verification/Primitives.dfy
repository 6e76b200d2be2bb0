/**
 * The cryptographic primitives as unknown functions under length and inverse laws, and the
 * padding and fingerprint arithmetic built on them.
 */
module Primitives {
  import opened Bytes

  const BLOCK := 16
  const RANDOM_RESERVED := 4
  const FINGER_RESERVED := 12
  const TAG_RESERVED := 16

  /** An authenticated cipher under one key: nonce and data to ciphertext, and to a detached tag. */
  datatype Aead = Aead(
    seal: (seq<byte>, seq<byte>) -> seq<byte>,
    tag: (seq<byte>, seq<byte>) -> seq<byte>,
    open: (seq<byte>, seq<byte>, seq<byte>) -> Option<seq<byte>>)

  ghost predicate AeadLaws(a: Aead) {
    && (forall n, d :: |a.seal(n, d)| == |d|)
    && (forall n, d :: |a.tag(n, d)| == TAG_RESERVED)
    && (forall n, d :: a.open(n, a.seal(n, d), a.tag(n, d)) == Some(d))
    && (forall n, c, t :: a.open(n, c, t).Some? ==> |a.open(n, c, t).value| == |c|)
  }

  /** A block cipher in some mode under one key, on whole blocks. */
  datatype BlockMode = BlockMode(
    enc: (seq<byte>, seq<byte>) -> seq<byte>,
    dec: (seq<byte>, seq<byte>) -> seq<byte>)

  ghost predicate BlockLaws(m: BlockMode) {
    && (forall iv, d :: |d| % BLOCK == 0 ==> |m.enc(iv, d)| == |d|)
    && (forall iv, d :: |d| % BLOCK == 0 ==> |m.dec(iv, d)| == |d|)
    && (forall iv, d :: |d| % BLOCK == 0 ==> m.dec(iv, m.enc(iv, d)) == d)
  }

  /** The key stream of a nonce. */
  type KeyStream = (seq<byte>, nat) -> seq<byte>

  ghost predicate StreamLaws(k: KeyStream) {
    forall nonce, n: nat :: |k(nonce, n)| == n
  }

  /** The token hash and the hash function behind `Finger`. */
  datatype Finger = Finger(hash: seq<byte>, sha256: seq<byte> -> seq<byte>)

  ghost predicate FingerLaws(f: Finger) {
    && |f.hash| == 32
    && forall s :: |f.sha256(s)| == 32
  }

  /** `calculate_finger`: the last 12 bytes of the hash of nonce, body and token hash. */
  function CalculateFinger(f: Finger, nonce: seq<byte>, body: seq<byte>): (r: seq<byte>)
    requires FingerLaws(f)
    ensures |r| == FINGER_RESERVED
  {
    f.sha256(nonce + body + f.hash)[20..]
  }

  /** `gen_nonce`: the random word is mixed into the last four bytes of the tag. */
  function GenNonce(tag: seq<byte>, random: seq<byte>): (nonce: seq<byte>)
    requires |tag| == 12 && |random| == RANDOM_RESERVED
    ensures |nonce| == 12
  {
    tag[..8] + Xor(tag[8..], random)
  }

  function PaddedLen(n: nat): (m: nat)
    ensures m % BLOCK == 0 && n < m <= n + BLOCK
  {
    (n / BLOCK + 1) * BLOCK
  }

  /** PKCS#7, section 6.3 of RFC 5652: `k` bytes of value `k`, never zero of them. */
  function Pad(d: seq<byte>): (p: seq<byte>)
    ensures |p| == PaddedLen(|d|) && d <= p
  {
    var k := PaddedLen(|d|) - |d|;
    d + seq(k, _ => ByteOf(k))
  }

  function Unpad(p: seq<byte>): (d: Option<seq<byte>>)
    ensures d.Some? ==> |d.value| <= |p|
  {
    if |p| == 0 || |p| % BLOCK != 0 then None
    else
      var k := p[|p| - 1] as nat;
      if 1 <= k <= BLOCK && forall i :: |p| - k <= i < |p| ==> p[i] == p[|p| - 1] then
        Some(p[..|p| - k])
      else None
  }

  /** Padding is undone exactly, and only a padded text can be unpadded. */
  lemma UnpadInvertsPad(p: seq<byte>, d: seq<byte>)
    ensures Unpad(p) == Some(d) <==> p == Pad(d)
  {
    if p == Pad(d) {
      assert p[..|d|] == d;
    }
    if Unpad(p) == Some(d) {
      UnpaddedWasPadded(p);
    }
  }

  lemma UnpaddedWasPadded(p: seq<byte>)
    requires Unpad(p).Some?
    ensures p == Pad(Unpad(p).value)
  {
    var last := p[|p| - 1];
    var d := p[..|p| - last as nat];
    PaddedLenIsUnique(|d|, |p|);
    SameValueSameByte(last, ByteOf(PaddedLen(|d|) - |d|));
    assert p == d + p[|d|..];
  }

  lemma SameValueSameByte(a: byte, b: byte)
    requires a as nat == b as nat
    ensures a == b
  {}

  lemma PaddedLenIsUnique(n: nat, m: nat)
    requires m % BLOCK == 0 && n < m <= n + BLOCK
    ensures m == PaddedLen(n)
  {}

  /** The key of the xor cipher, repeated over a payload of `n` bytes. */
  function RepeatedKey(key: seq<byte>, n: nat): (r: seq<byte>)
    requires |key| == 32
    ensures |r| == n
  {
    seq(n, i requires 0 <= i => key[i % 32])
  }
}
