/** Bytes, slices and IPv4 addresses, as the packet code handles them. */
module Bytes {

  type byte = bv8

  datatype Ipv4Addr = Ipv4Addr(bits: bv32)

  datatype Option<+T> = None | Some(value: T)

  function Zeros(n: nat): (s: seq<byte>)
    ensures |s| == n && forall i :: 0 <= i < n ==> s[i] == 0
  {
    seq(n, _ => 0)
  }

  /** `s` with `piece` written over it from `at` on. */
  function Splice(s: seq<byte>, at: nat, piece: seq<byte>): (r: seq<byte>)
    requires at + |piece| <= |s|
    ensures |r| == |s|
  {
    s[..at] + piece + s[at + |piece|..]
  }

  lemma SpliceHas(s: seq<byte>, at: nat, piece: seq<byte>)
    requires at + |piece| <= |s|
    ensures Splice(s, at, piece)[at..at + |piece|] == piece
  {}

  /** Writing at `at` changes no slice that ends before it or starts behind it. */
  lemma SpliceKeeps(s: seq<byte>, at: nat, piece: seq<byte>, i: nat, j: nat)
    requires at + |piece| <= |s| && i <= j <= |s|
    requires j <= at || at + |piece| <= i
    ensures Splice(s, at, piece)[i..j] == s[i..j]
  {}

  lemma SlicesJoin(s: seq<byte>, i: nat, j: nat, k: nat)
    requires i <= j <= k <= |s|
    ensures s[i..j] + s[j..k] == s[i..k]
  {}

  lemma SliceOfTail(s: seq<byte>, j: nat, k: nat, l: nat)
    requires j <= k <= l <= |s|
    ensures s[j..][k - j..l - j] == s[k..l]
  {
    var t, u := s[j..][k - j..l - j], s[k..l];
    assert |t| == |u|;
    forall i | 0 <= i < l - k ensures t[i] == u[i] {
      assert t[i] == s[j..][k - j + i] == s[k + i];
    }
  }

  lemma SliceOfHead(s: seq<byte>, i: nat, k: nat, l: nat)
    requires k <= l <= i <= |s|
    ensures s[..i][k..l] == s[k..l]
  {}

  /** `copy_from_slice` into part of a buffer. */
  method CopyInto(a: array<byte>, at: nat, piece: seq<byte>)
    requires at + |piece| <= a.Length
    modifies a
    ensures a[..] == Splice(old(a[..]), at, piece)
  {
    forall i | 0 <= i < |piece| {
      a[at + i] := piece[i];
    }
  }

  /** Bytewise exclusive or with a mask of the same length. */
  function Xor(s: seq<byte>, mask: seq<byte>): (r: seq<byte>)
    requires |s| == |mask|
    ensures |r| == |s|
    ensures forall i :: 0 <= i < |s| ==> r[i] == s[i] ^ mask[i]
  {
    seq(|s|, i requires 0 <= i < |s| => s[i] ^ mask[i])
  }

  lemma XorTwice(s: seq<byte>, mask: seq<byte>)
    requires |s| == |mask|
    ensures Xor(Xor(s, mask), mask) == s
  {}

  /** The four octets of an address, most significant first. */
  function Octets(ip: Ipv4Addr): (s: seq<byte>)
    ensures |s| == 4
  {
    var b := ip.bits;
    [(b >> 24) as byte, ((b >> 16) & 0xFF) as byte, ((b >> 8) & 0xFF) as byte, (b & 0xFF) as byte]
  }

  function FromOctets(s: seq<byte>): Ipv4Addr
    requires |s| == 4
  {
    Ipv4Addr(((s[0] as bv32) << 24) | ((s[1] as bv32) << 16) | ((s[2] as bv32) << 8) | (s[3] as bv32))
  }

  lemma OctetsRoundTrip(ip: Ipv4Addr)
    ensures FromOctets(Octets(ip)) == ip
  {}

  lemma OctetsOfFromOctets(s: seq<byte>)
    requires |s| == 4
    ensures Octets(FromOctets(s)) == s
  {}

  lemma FromOctetsInjective(s: seq<byte>, t: seq<byte>)
    requires |s| == |t| == 4
    ensures FromOctets(s) == FromOctets(t) <==> s == t
  {}

  /** The halves of a byte, as shifting and masking give them. */
  lemma Nibbles(x: byte)
    ensures (x >> 4) as nat == x as nat / 16 && (x & 0x0F) as nat == x as nat % 16
  {
    NibbleParts(x >> 4, x & 0x0F, x);
  }

  lemma NibbleParts(hi: byte, lo: byte, x: byte)
    requires hi < 16 && lo < 16 && x == (hi << 4) | lo
    ensures x as nat == hi as nat * 16 + lo as nat && lo as nat < 16
  {}

  /** Big-endian 16-bit words. */
  function Be16(hi: byte, lo: byte): (w: nat)
    ensures w < 0x10000
  {
    hi as nat * 256 + lo as nat
  }

  /** The byte of value `n`. */
  function ByteOf(n: nat): (b: byte)
    requires n < 256
    ensures b as nat == n
  {
    if n == 0 then 0 else
      Successor(ByteOf(n - 1));
      ByteOf(n - 1) + 1
  }

  lemma Successor(b: byte)
    requires b != 255
    ensures (b + 1) as nat == b as nat + 1
  {}

  function ToBe16(w: nat): (s: seq<byte>)
    requires w < 0x10000
    ensures |s| == 2 && Be16(s[0], s[1]) == w
  {
    [ByteOf(w / 256), ByteOf(w % 256)]
  }
}
