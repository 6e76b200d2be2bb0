/** The laws asked of the primitives can all be met at once: by functions that hide nothing. */
module Assumptions {
  import opened Bytes
  import opened Primitives
  import opened Ciphers
  import opened Compression

  const PLAIN_AEAD := Aead((n, d) => d, (n, d) => Zeros(TAG_RESERVED), (n, c, t) => Some(c))
  const PLAIN_BLOCK := BlockMode((iv, d) => d, (iv, d) => d)
  const PLAIN_STREAM: KeyStream := (nonce: seq<byte>, n: nat) => Zeros(n)
  const PLAIN_FINGER := Finger(Zeros(32), s => Zeros(32))

  function Fitting(d: seq<byte>, room: nat): Option<seq<byte>> {
    if |d| <= room then Some(d) else None
  }

  const PLAIN_CODECS := Codecs(Fitting, Fitting, (level: int, d: seq<byte>, room: nat) => Fitting(d, room), Fitting)

  lemma CipherLawsCanBeMet(f: Option<Finger>)
    requires f.None? || f == Some(PLAIN_FINGER)
    ensures Laws(AesGcm(PLAIN_AEAD, f)) && Laws(ChaCha20Poly1305(PLAIN_AEAD, f)) && Laws(ChaCha20(PLAIN_STREAM, f))
    ensures Laws(AesCbc(PLAIN_BLOCK, f)) && Laws(AesEcb(PLAIN_BLOCK, f)) && Laws(Sm4Cbc(PLAIN_BLOCK, f))
    ensures Laws(XorKey(Zeros(32))) && Laws(NoCipher)
  {}

  lemma CodecLawsCanBeMet()
    ensures CodecLaws(PLAIN_CODECS)
  {}
}
