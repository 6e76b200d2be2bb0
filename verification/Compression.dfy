/**
 * Compression of a payload, the four-byte tail that announces it, and the handling of that
 * tail at the receiver. lz4 and zstd are unknown functions that invert each other.
 */
module Compression {
  import opened Bytes
  import opened NetPackets

  const TAIL_LEN := 4
  const COMPRESSION_TAIL: byte := 0
  const LZ4_CODE: byte := 1
  const ZSTD_CODE: byte := 2

  /** Each takes the room in its output buffer; `None` is an error of the library. */
  datatype Codecs = Codecs(
    lz4: (seq<byte>, nat) -> Option<seq<byte>>,
    unlz4: (seq<byte>, nat) -> Option<seq<byte>>,
    zstd: (int, seq<byte>, nat) -> Option<seq<byte>>,
    unzstd: (seq<byte>, nat) -> Option<seq<byte>>)

  ghost predicate Restores(un: (seq<byte>, nat) -> Option<seq<byte>>, z: Option<seq<byte>>, data: seq<byte>, room: nat) {
    z.Some? ==>
      && |z.value| <= room
      && forall r: nat :: |data| <= r ==> un(z.value, r) == Some(data)
  }

  ghost predicate CodecLaws(cs: Codecs) {
    && (forall d, room: nat :: Restores(cs.unlz4, cs.lz4(d, room), d, room))
    && (forall level, d, room: nat :: Restores(cs.unzstd, cs.zstd(level, d, room), d, room))
    && (forall z, room: nat :: cs.unlz4(z, room).Some? ==> |cs.unlz4(z, room).value| <= room)
    && (forall z, room: nat :: cs.unzstd(z, room).Some? ==> |cs.unzstd(z, room).value| <= room)
  }

  datatype Compressor = Lz4 | Zstd(level: int) | NoCompression

  /** An error, `Ok(false)` with the packet to be sent as it is, or the packet to send instead. */
  datatype Attempt = Failed | NotWorthIt | Compressed(packet: seq<byte>)

  function Code(comp: Compressor): byte {
    match comp
    case Lz4 => LZ4_CODE
    case Zstd(_) => ZSTD_CODE
    case NoCompression => 0
  }

  function Squeeze(cs: Codecs, comp: Compressor, data: seq<byte>, room: nat): Option<seq<byte>> {
    match comp
    case Lz4 => cs.lz4(data, room)
    case Zstd(level) => cs.zstd(level, data, room)
    case NoCompression => None
  }

  function Expand(cs: Codecs, code: byte, z: seq<byte>, room: nat): (d: Option<seq<byte>>)
    ensures CodecLaws(cs) && d.Some? ==> |d.value| <= room
  {
    if code == LZ4_CODE then cs.unlz4(z, room)
    else if code == ZSTD_CODE then cs.unzstd(z, room)
    else None
  }

  /** `Compressor::compress` into a buffer of `cap` bytes that starts with `head`. */
  function Compress(cs: Codecs, comp: Compressor, p: seq<byte>, head: seq<byte>, cap: nat): (r: Attempt)
    requires |p| >= HEAD_LEN && |head| == HEAD_LEN <= cap
    ensures r.Compressed? ==> HEAD_LEN + TAIL_LEN <= |r.packet| < |p| - 16 && |r.packet| <= cap
  {
    if comp.NoCompression? || |p| < 128 then NotWorthIt
    else
      var z := Squeeze(cs, comp, p[HEAD_LEN..], cap - HEAD_LEN);
      if z.None? || HEAD_LEN + |z.value| + TAIL_LEN > cap then Failed
      else if HEAD_LEN + |z.value| + TAIL_LEN >= |p| - 16 then NotWorthIt
      else Compressed(WithExtensionFlag(head, true) + z.value + [Code(comp), 0, 0, COMPRESSION_TAIL])
  }

  /** What the receiver makes of a decrypted packet, in a second buffer of `room` bytes if it needs one. */
  function Extended(cs: Codecs, w: seq<byte>, room: nat): (r: Option<seq<byte>>)
    requires |w| >= HEAD_LEN && room >= HEAD_LEN
    ensures CodecLaws(cs) && r.Some? ==> |r.value| >= HEAD_LEN
  {
    if !IsExtension(w) then Some(w)
    else if |w| == HEAD_LEN || w[|w| - 1] != COMPRESSION_TAIL || |w| - TAIL_LEN < HEAD_LEN then None
    else
      var d := Expand(cs, w[|w| - TAIL_LEN], w[HEAD_LEN..|w| - TAIL_LEN], room - HEAD_LEN);
      if d.None? then None else Some(WithExtensionFlag(w[..HEAD_LEN], false) + d.value)
  }

  lemma SqueezedExpands(cs: Codecs, comp: Compressor, data: seq<byte>, cap: nat, room: nat)
    requires CodecLaws(cs) && Squeeze(cs, comp, data, cap).Some? && |data| <= room
    ensures Expand(cs, Code(comp), Squeeze(cs, comp, data, cap).value, room) == Some(data)
  {}

  /**
   * Under whatever header with the extension flag a compressed payload travels, the receiver
   * gets back the original payload and that header without the flag.
   */
  lemma ExtendedOfCompressed(
    cs: Codecs, comp: Compressor, p: seq<byte>, head: seq<byte>, cap: nat, travelling: seq<byte>, room: nat)
    requires CodecLaws(cs) && |p| >= HEAD_LEN && |head| == HEAD_LEN <= cap && |p| <= room
    requires Compress(cs, comp, p, head, cap).Compressed?
    requires |travelling| == HEAD_LEN && IsExtension(travelling)
    ensures var q := travelling + Compress(cs, comp, p, head, cap).packet[HEAD_LEN..];
            Extended(cs, q, room) == Some(WithExtensionFlag(travelling, false) + p[HEAD_LEN..])
  {
    hide WithExtensionFlag;
    var z := Squeeze(cs, comp, p[HEAD_LEN..], cap - HEAD_LEN).value;
    var rest := z + [Code(comp), 0, 0, COMPRESSION_TAIL];
    var packet := Compress(cs, comp, p, head, cap).packet;
    assert packet == WithExtensionFlag(head, true) + rest;
    assert packet[HEAD_LEN..] == rest;
    var q := travelling + rest;
    assert IsExtension(q);
    assert q[|q| - TAIL_LEN] == Code(comp) && q[|q| - 1] == COMPRESSION_TAIL;
    assert q[HEAD_LEN..|q| - TAIL_LEN] == z && q[..HEAD_LEN] == travelling;
    SqueezedExpands(cs, comp, p[HEAD_LEN..], cap - HEAD_LEN, room - HEAD_LEN);
  }

  /** Extension handling commutes with one relay, for every datagram. */
  lemma ExtendedOfRelayed(cs: Codecs, w: seq<byte>, room: nat)
    requires CodecLaws(cs) && |w| >= HEAD_LEN && room >= HEAD_LEN && Ttl(w) != 0
    ensures Extended(cs, w, room).None? ==> Extended(cs, Relayed(w), room).None?
    ensures Extended(cs, w, room).Some? ==> Ttl(Extended(cs, w, room).value) == Ttl(w)
    ensures Extended(cs, w, room).Some? ==>
            Extended(cs, Relayed(w), room) == Some(Relayed(Extended(cs, w, room).value))
  {
    hide Expand;
    var r := Relayed(w);
    assert r[..HEAD_LEN] == Relayed(w[..HEAD_LEN]);
    if IsExtension(w) && Extended(cs, w, room).Some? {
      var d := Extended(cs, w, room).value[HEAD_LEN..];
      RelayUnderExtensionFlag(w[..HEAD_LEN], d);
    }
    if |w| >= HEAD_LEN + TAIL_LEN {
      assert r[HEAD_LEN..|w| - TAIL_LEN] == w[HEAD_LEN..|w| - TAIL_LEN];
    }
  }

  lemma RelayUnderExtensionFlag(head: seq<byte>, d: seq<byte>)
    requires |head| == HEAD_LEN && Ttl(head) != 0
    ensures Ttl(WithExtensionFlag(head, false) + d) == Ttl(head)
    ensures WithExtensionFlag(Relayed(head), false) + d == Relayed(WithExtensionFlag(head, false) + d)
  {}

  lemma {:induction false} ExtendedOfRelayedBy(cs: Codecs, w: seq<byte>, n: nat, room: nat)
    requires CodecLaws(cs) && |w| >= HEAD_LEN && room >= HEAD_LEN && n <= Ttl(w) as nat
    ensures Extended(cs, w, room).None? ==> Extended(cs, RelayedBy(w, n), room).None?
    ensures Extended(cs, w, room).Some? ==> Ttl(Extended(cs, w, room).value) == Ttl(w)
    ensures Extended(cs, w, room).Some? ==>
            Extended(cs, RelayedBy(w, n), room) == Some(RelayedBy(Extended(cs, w, room).value, n))
    decreases n
  {
    hide Extended, Relayed;
    if n == 0 {
      if Ttl(w) != 0 { ExtendedOfRelayed(cs, w, room); } else if Extended(cs, w, room).Some? { ExtendedKeepsTtl(cs, w, room); }
    } else {
      PredNat(Ttl(w));
      ExtendedOfRelayed(cs, w, room);
      ExtendedOfRelayedBy(cs, Relayed(w), n - 1, room);
    }
  }

  lemma ExtendedKeepsTtl(cs: Codecs, w: seq<byte>, room: nat)
    requires CodecLaws(cs) && |w| >= HEAD_LEN && room >= HEAD_LEN && Extended(cs, w, room).Some?
    ensures Ttl(Extended(cs, w, room).value) == Ttl(w)
  {}

  // ----- in place -----

  /** `append_compression_extension_tail` followed by `set_algorithm`. */
  method AppendTail(out: NetPacket, code: byte) returns (ok: bool)
    requires out.Valid()
    modifies out, out.buffer
    ensures out.Valid()
    ensures ok <==> old(out.dataLen) + TAIL_LEN <= out.buffer.Length
    ensures ok ==> out.Bytes() == WithExtensionFlag(old(out.Bytes())[..HEAD_LEN], true)
                                  + old(out.Bytes())[HEAD_LEN..] + [code, 0, 0, 0]
    ensures !ok ==> out.Raw() == old(out.Raw())
  {
    var n := out.dataLen;
    ok := out.SetDataLen(n + TAIL_LEN);
    if !ok {
      return;
    }
    hide WithExtensionFlag, Splice;
    ghost var raw := out.Raw();
    out.SetExtensionFlag(true);
    CopyInto(out.buffer, n, [0, 0, 0, 0]);
    out.buffer[n] := code;
    TailLayout(raw, n, code);
  }

  /** The tail, cleared and then given its algorithm, behind a packet of `n` bytes. */
  lemma TailLayout(raw: seq<byte>, n: nat, code: byte)
    requires HEAD_LEN <= n && n + TAIL_LEN <= |raw|
    ensures Splice(WithExtensionFlag(raw, true), n, [0, 0, 0, 0])[n := code][..n + TAIL_LEN]
            == WithExtensionFlag(raw[..n][..HEAD_LEN], true) + raw[..n][HEAD_LEN..] + [code, 0, 0, 0]
  {}

  /** The library writes behind the header of `out`, whose length becomes what was written. */
  method PutPayload(out: NetPacket, data: seq<byte>)
    requires out.Valid() && HEAD_LEN + |data| <= out.buffer.Length
    modifies out, out.buffer
    ensures out.Valid()
    ensures out.Bytes() == old(out.Raw())[..HEAD_LEN] + data
  {
    out.dataLen := out.buffer.Length;
    CopyInto(out.buffer, HEAD_LEN, data);
    var _ := out.SetDataLen(HEAD_LEN + |data|);
  }

  /** The header of a buffer after an attempt: untouched, or with the extension flag. */
  predicate SameUpToExtension(before: seq<byte>, after: seq<byte>)
    requires |before| >= HEAD_LEN && |after| >= HEAD_LEN
  {
    after[..HEAD_LEN] == before[..HEAD_LEN] || after[..HEAD_LEN] == WithExtensionFlag(before[..HEAD_LEN], true)
  }

  method CompressInto(cs: Codecs, comp: Compressor, p: NetPacket, out: NetPacket) returns (r: Attempt)
    requires CodecLaws(cs) && p.Valid() && out.Valid() && p.buffer != out.buffer && p != out
    modifies out, out.buffer
    ensures out.Valid()
    ensures r == Compress(cs, comp, p.Bytes(), old(out.Raw())[..HEAD_LEN], out.buffer.Length)
    ensures r.Compressed? ==> out.Bytes() == r.packet
    ensures SameUpToExtension(old(out.Raw()), out.Raw())
  {
    hide Squeeze, WithExtensionFlag;
    if comp.NoCompression? || p.dataLen < 128 {
      return NotWorthIt;
    }
    var payload := p.buffer[HEAD_LEN..p.dataLen];
    ghost var head := out.Raw()[..HEAD_LEN];
    assert payload == p.Bytes()[HEAD_LEN..];
    var z := Squeeze(cs, comp, payload, out.buffer.Length - HEAD_LEN);
    if z.None? {
      return Failed;
    }
    SqueezedFits(cs, comp, payload, out.buffer.Length - HEAD_LEN);
    PutPayload(out, z.value);
    assert out.Raw()[..HEAD_LEN] == out.Bytes()[..HEAD_LEN] == head;
    var ok := AppendTail(out, Code(comp));
    if !ok {
      return Failed;
    }
    assert out.Raw()[..HEAD_LEN] == out.Bytes()[..HEAD_LEN] == WithExtensionFlag(head, true);
    if out.dataLen >= p.dataLen - 16 {
      return NotWorthIt;
    }
    r := Compressed(out.buffer[..out.dataLen]);
  }

  lemma SqueezedFits(cs: Codecs, comp: Compressor, data: seq<byte>, room: nat)
    requires CodecLaws(cs) && Squeeze(cs, comp, data, room).Some?
    ensures |Squeeze(cs, comp, data, room).value| <= room
  {}

  /** `split_tail_packet`: takes the tail off and clears the flag. */
  method SplitTail(p: NetPacket) returns (tail: Option<seq<byte>>)
    requires p.Valid()
    modifies p, p.buffer
    ensures p.Valid()
    ensures var w := old(p.Bytes());
            tail.Some? <==> IsExtension(w) && |w| >= HEAD_LEN + TAIL_LEN && w[|w| - 1] == COMPRESSION_TAIL
    ensures tail.Some? ==> var w := old(p.Bytes());
            && tail.value == w[|w| - TAIL_LEN..]
            && p.Bytes() == WithExtensionFlag(w[..|w| - TAIL_LEN], false)
  {
    if !IsExtension(p.buffer[..]) || p.dataLen == HEAD_LEN || p.buffer[p.dataLen - 1] != COMPRESSION_TAIL {
      return None;
    }
    var n := p.dataLen - TAIL_LEN;
    var ok := p.SetDataLen(n);
    if !ok {
      return None;
    }
    p.SetExtensionFlag(false);
    tail := Some(p.buffer[n..n + TAIL_LEN]);
  }

  /** `handle_extension_tail`, as the client handler calls it: the packet to go on with, or an error. */
  method HandleExtension(cs: Codecs, p: NetPacket, extend: NetPacket) returns (q: NetPacket?)
    requires CodecLaws(cs) && p.Valid() && extend.Valid() && p.buffer != extend.buffer && p != extend
    modifies p, p.buffer, extend, extend.buffer
    ensures q == null || q == if IsExtension(old(p.Bytes())) then extend else p
    ensures var r := Extended(cs, old(p.Bytes()), extend.buffer.Length);
            && (q == null <==> r.None?)
            && (q != null ==> q.Valid() && q.Bytes() == r.value)
  {
    hide Expand, WithExtensionFlag;
    if !IsExtension(p.buffer[..]) {
      return p;
    }
    ghost var w := p.Bytes();
    var tail := SplitTail(p);
    if tail.None? {
      return null;
    }
    var z := p.buffer[HEAD_LEN..p.dataLen];
    WithExtensionKeepsRest(w[..|w| - TAIL_LEN]);
    assert z == p.Bytes()[HEAD_LEN..] == w[HEAD_LEN..|w| - TAIL_LEN];
    assert w[..|w| - TAIL_LEN][..HEAD_LEN] == w[..HEAD_LEN];
    assert tail.value[0] == w[|w| - TAIL_LEN];
    var d := Expand(cs, tail.value[0], z, extend.buffer.Length - HEAD_LEN);
    if d.None? {
      return null;
    }
    PutPayload(extend, d.value);
    assert extend.Bytes()[HEAD_LEN..] == d.value;
    assert p.Bytes()[..HEAD_LEN] == p.Raw()[..HEAD_LEN] == WithExtensionFlag(w[..HEAD_LEN], false);
    HeadOver(extend.Raw(), p.Raw()[..HEAD_LEN], d.value);
    CopyInto(extend.buffer, 0, p.buffer[..HEAD_LEN]);
    q := extend;
  }

  lemma HeadOver(raw: seq<byte>, head: seq<byte>, d: seq<byte>)
    requires |head| == HEAD_LEN && HEAD_LEN + |d| <= |raw| && raw[HEAD_LEN..HEAD_LEN + |d|] == d
    ensures Splice(raw, 0, head)[..HEAD_LEN + |d|] == head + d
  {}

  lemma WithExtensionKeepsRest(b: seq<byte>)
    requires |b| >= HEAD_LEN
    ensures WithExtensionFlag(b, false)[..HEAD_LEN] == WithExtensionFlag(b[..HEAD_LEN], false)
    ensures WithExtensionFlag(b, false)[HEAD_LEN..] == b[HEAD_LEN..]
  {}
}
