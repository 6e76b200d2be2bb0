/** IPv4 packets, section 3.1 of RFC 791: header, addresses, header checksum. */
module Ipv4 {
  import opened Bytes
  import opened Checksum

  function HeaderLen(b: seq<byte>): (h: nat)
    requires |b| >= 20
    ensures h <= 60 && h % 2 == 0
  {
    HeaderNibble(b[0] & 0x0F);
    (b[0] & 0x0F) as nat * 4
  }

  lemma HeaderNibble(x: byte)
    requires x == x & 0x0F
    ensures x as nat <= 15
  {}

  /** `IpV4Packet::new` accepts these, even where the header length leaves no room for the addresses. */
  predicate Accepted(b: seq<byte>) {
    && |b| >= 20
    && b[0] >> 4 == 4
    && HeaderLen(b) <= |b|
  }

  /** In numbers: at least 20 bytes, version 4, and the header length, in words of 32 bits, within the packet. */
  lemma AcceptedExactlyWhen(b: seq<byte>)
    ensures |b| >= 20 ==> HeaderLen(b) == 4 * (b[0] as nat % 16)
    ensures Accepted(b) <==> |b| >= 20 && b[0] as nat / 16 == 4 && 4 * (b[0] as nat % 16) <= |b|
  {
    if |b| >= 20 {
      Nibbles(b[0]);
      VersionFour(b[0] >> 4);
    }
  }

  lemma VersionFour(v: byte)
    ensures v as nat == 4 <==> v == 4
  {}

  /** The proper ones. */
  predicate IpPacket(b: seq<byte>) {
    Accepted(b) && HeaderLen(b) >= 20
  }

  function SourceIp(b: seq<byte>): Ipv4Addr
    requires |b| >= 20
  {
    FromOctets(b[12..16])
  }

  function DestinationIp(b: seq<byte>): Ipv4Addr
    requires |b| >= 20
  {
    FromOctets(b[16..20])
  }

  function Header(b: seq<byte>): seq<byte>
    requires Accepted(b)
  {
    b[..HeaderLen(b)]
  }

  function Payload(b: seq<byte>): seq<byte>
    requires Accepted(b)
  {
    b[HeaderLen(b)..]
  }

  /** `is_valid` of the header: no checksum at all, or one that recomputes to zero. */
  predicate IpValid(b: seq<byte>)
    requires IpPacket(b)
  {
    Be16(b[10], b[11]) == 0 || ChecksumOf(Header(b)) == 0
  }

  lemma SplicedAt(s: seq<byte>, at: nat, piece: seq<byte>)
    requires at + |piece| <= |s|
    ensures forall i :: 0 <= i < |s| && !(at <= i < at + |piece|) ==> Splice(s, at, piece)[i] == s[i]
  {}

  /** A header with some bytes behind the checksum replaced, which checks again. */
  lemma RewrittenHead(head0: seq<byte>, at: nat, piece: seq<byte>)
    requires 12 <= at && at + |piece| <= |head0|
    ensures var head := WithChecksum(Splice(head0, at, piece), 10);
            && ChecksumOf(head) == 0
            && head[at..at + |piece|] == piece
            && (forall i :: 0 <= i < |head0| && !(at <= i < at + |piece| || 10 <= i < 12) ==> head[i] == head0[i])
  {
    hide Splice, ChecksumOf;
    var x := Splice(head0, at, piece);
    var word := ToBe16(ChecksumOf(Splice(x, 10, [0, 0])));
    StoredChecksumValidates(x, 10);
    SpliceHas(head0, at, piece);
    SpliceKeeps(x, 10, word, at, at + |piece|);
    SplicedAt(head0, at, piece);
    SplicedAt(x, 10, word);
  }

  /** A header and a segment of the old lengths put together make a packet again. */
  lemma Joined(b: seq<byte>, head: seq<byte>, seg: seq<byte>)
    requires IpPacket(b) && |head| == HeaderLen(b) && |seg| == |b| - |head| && head[0] == b[0]
    ensures IpPacket(head + seg) && HeaderLen(head + seg) == HeaderLen(b)
    ensures Header(head + seg) == head && Payload(head + seg) == seg
  {}

  // ----- in place -----

  /** Writes into the bytes from `i` to `j`, `at` counted from `i`. */
  method PutIn(buffer: array<byte>, i: nat, j: nat, at: nat, piece: seq<byte>)
    requires i + at + |piece| <= j <= buffer.Length
    modifies buffer
    ensures buffer[i..j] == Splice(old(buffer[i..j]), at, piece)
    ensures buffer[..i] == old(buffer[..i]) && buffer[j..] == old(buffer[j..])
  {
    hide Splice;
    SplicedSlice(buffer[..], i, j, at, piece);
    CopyInto(buffer, i + at, piece);
  }

  lemma SplicedSlice(s: seq<byte>, i: nat, j: nat, at: nat, piece: seq<byte>)
    requires i + at + |piece| <= j <= |s|
    ensures var r := Splice(s, i + at, piece);
            r[i..j] == Splice(s[i..j], at, piece) && r[..i] == s[..i] && r[j..] == s[j..]
  {
    var r, e := Splice(s, i + at, piece), i + at + |piece|;
    SpliceKeeps(s, i + at, piece, 0, i);
    SpliceKeeps(s, i + at, piece, j, |s|);
    assert r[..i] == r[0..i] && s[..i] == s[0..i] && r[j..] == r[j..|s|] && s[j..] == s[j..|s|];
    assert s[i..j][..at] == s[i..i + at] && s[i..j][at + |piece|..] == s[e..j];
    SplicedMiddle(s, i, j, i + at, piece);
  }

  lemma SplicedMiddle(s: seq<byte>, i: nat, j: nat, from: nat, piece: seq<byte>)
    requires i <= from && from + |piece| <= j <= |s|
    ensures Splice(s, from, piece)[i..j] == s[i..from] + piece + s[from + |piece|..j]
  {
    var r, t := Splice(s, from, piece)[i..j], s[i..from] + piece + s[from + |piece|..j];
    forall k | 0 <= k < j - i ensures r[k] == t[k] {
      assert r[k] == Splice(s, from, piece)[i + k];
      if i + k < from {
        assert r[k] == s[i + k] == t[k];
      } else if i + k < from + |piece| {
        assert r[k] == piece[i + k - from] == t[k];
      } else {
        assert r[k] == s[i + k] == t[k];
      }
    }
    assert |r| == |t|;
  }

  /** What lies before or behind such bytes stays, slice by slice. */
  lemma SliceOutside(r: seq<byte>, s: seq<byte>, i: nat, j: nat, k: nat, l: nat)
    requires i <= j <= |r| == |s| && r[..i] == s[..i] && r[j..] == s[j..] && k <= l <= |s| && (l <= i || j <= k)
    ensures r[k..l] == s[k..l]
  {
    if l <= i {
      SliceOfHead(r, i, k, l);
      SliceOfHead(s, i, k, l);
    } else {
      SliceOfTail(r, j, k, l);
      SliceOfTail(s, j, k, l);
    }
  }

  /** `update_checksum` of what lies there: the field is zeroed, the checksum computed and stored. */
  method UpdateChecksum(buffer: array<byte>, i: nat, j: nat, at: nat)
    requires i + at + 2 <= j <= buffer.Length && j - i <= 65535
    modifies buffer
    ensures buffer[i..j] == WithChecksum(old(buffer[i..j]), at)
    ensures buffer[..i] == old(buffer[..i]) && buffer[j..] == old(buffer[j..])
  {
    hide Splice, ChecksumOf, ByteOf, Be16;
    ghost var s := buffer[i..j];
    PutIn(buffer, i, j, at, [0, 0]);
    var c := CalChecksum(buffer[i..j]);
    PutIn(buffer, i, j, at, ToBe16(c));
    StoredWordTwice(s, at, ToBe16(c));
  }

  lemma StoredWordTwice(s: seq<byte>, at: nat, word: seq<byte>)
    requires at + 2 <= |s| && |word| == 2
    ensures Splice(Splice(s, at, [0, 0]), at, word) == Splice(s, at, word)
  {}
}
