/** The Internet checksum, section 4.1 of RFC 1071: word sum, folding, complement, and what storing it does. */
module Checksum {
  import opened Bytes

  const MAX_WORD := 65535
  const U32 := 0x1_0000_0000

  /** The sum of the big-endian 16-bit words; an odd last byte is followed by zero. */
  function WordSum(s: seq<byte>): (sum: nat)
  {
    if |s| == 0 then 0
    else if |s| == 1 then Be16(s[0], 0)
    else Be16(s[0], s[1]) + WordSum(s[2..])
  }

  /** The carries added back until nothing is left above 16 bits. */
  function Fold(sum: nat): (r: nat)
    ensures r <= MAX_WORD
  {
    if sum <= MAX_WORD then sum else Fold(sum % 65536 + sum / 65536)
  }

  /** Folding keeps the sum modulo 65535, and gives zero only for zero. */
  lemma {:induction false} FoldIsCongruent(sum: nat)
    ensures Fold(sum) % MAX_WORD == sum % MAX_WORD
    ensures Fold(sum) == 0 <==> sum == 0
    decreases sum
  {
    if sum > MAX_WORD {
      var hi, lo := sum / 65536, sum % 65536;
      FoldIsCongruent(lo + hi);
      MultiplesVanish(lo + hi, hi);
      assert sum == lo + hi + hi * MAX_WORD;
    }
  }

  lemma MultiplesVanish(a: nat, k: nat)
    ensures (a + k * MAX_WORD) % MAX_WORD == a % MAX_WORD
  {}

  lemma CongruentSums(a: nat, b: nat, c: nat)
    requires a % MAX_WORD == b % MAX_WORD
    ensures (a + c) % MAX_WORD == (b + c) % MAX_WORD
  {}

  /** `!sum as u16` after folding. */
  function Complement(sum: nat): (c: nat)
    ensures c <= MAX_WORD
  {
    MAX_WORD - Fold(sum)
  }

  /** The complement is zero exactly for sums that are a positive multiple of 65535. */
  lemma ComplementIsZero(sum: nat)
    ensures Complement(sum) == 0 <==> sum > 0 && sum % MAX_WORD == 0
  {
    FoldIsCongruent(sum);
  }

  /** Adding its own complement to any sum makes it check. */
  lemma ComplementChecks(sum: nat)
    ensures Complement(sum + Complement(sum)) == 0
  {
    FoldIsCongruent(sum);
    CongruentSums(Fold(sum), sum, Complement(sum));
    ComplementIsZero(sum + Complement(sum));
  }

  /** The pseudo header of TCP and UDP: both addresses, the protocol, the length of the segment. */
  function PseudoSum(source: Ipv4Addr, destination: Ipv4Addr, protocol: byte, length: nat): nat {
    WordSum(Octets(source)) + WordSum(Octets(destination)) + protocol as nat + length
  }

  /** `cal_checksum`. */
  function ChecksumOf(s: seq<byte>): (c: nat)
    ensures c <= MAX_WORD
  {
    Complement(WordSum(s))
  }

  /** `ipv4_cal_checksum`. */
  function PseudoChecksumOf(s: seq<byte>, source: Ipv4Addr, destination: Ipv4Addr, protocol: byte): (c: nat)
    ensures c <= MAX_WORD
  {
    Complement(PseudoSum(source, destination, protocol, |s|) + WordSum(s))
  }

  // ----- what is summed -----

  /** Each byte for itself: those at even places count 256 times, those at odd places once. */
  function ByteSum(s: seq<byte>): nat {
    if |s| == 0 then 0
    else
      var n := |s| - 1;
      ByteSum(s[..n]) + (if n % 2 == 0 then 256 else 1) * s[n] as nat
  }

  lemma {:induction false} WordSumAppends(a: seq<byte>, b: seq<byte>)
    requires |a| % 2 == 0
    ensures WordSum(a + b) == WordSum(a) + WordSum(b)
    decreases |a|
  {
    hide Be16;
    if |a| == 0 {
      assert a + b == b;
    } else {
      WordSumAppends(a[2..], b);
      assert (a + b)[2..] == a[2..] + b;
    }
  }

  lemma OneMoreByte(s: seq<byte>, b: byte)
    ensures WordSum(s + [b]) == WordSum(s) + (if |s| % 2 == 0 then 256 else 1) * b as nat
  {
    hide WordSum;
    if |s| % 2 == 0 {
      WordSumAppends(s, [b]);
      SumOfOne(b);
    } else {
      var rest, last := s[..|s| - 1], s[|s| - 1];
      WordSumAppends(rest, [last]);
      WordSumAppends(rest, [last, b]);
      assert s == rest + [last] && s + [b] == rest + [last, b];
      SumOfOne(last);
      OneWord([last, b]);
    }
  }

  lemma SumOfOne(b: byte)
    ensures WordSum([b]) == 256 * b as nat
  {}

  /** The word sum, byte by byte: in particular an odd last byte is the high one of its word. */
  lemma {:induction false} WordSumIsByteSum(s: seq<byte>)
    ensures WordSum(s) == ByteSum(s)
    decreases |s|
  {
    hide WordSum;
    if |s| == 0 {
      SumOfNothing(s);
    } else {
      var n := |s| - 1;
      WordSumIsByteSum(s[..n]);
      OneMoreByte(s[..n], s[n]);
      assert s == s[..n] + [s[n]];
    }
  }

  lemma SumOfNothing(s: seq<byte>)
    requires |s| == 0
    ensures WordSum(s) == 0
  {}

  /** Bytes of odd number are summed as if a zero followed, the pseudo header's length apart. */
  lemma OddIsPadded(s: seq<byte>, source: Ipv4Addr, destination: Ipv4Addr, protocol: byte)
    requires |s| % 2 == 1
    ensures ChecksumOf(s) == ChecksumOf(s + [0])
    ensures PseudoChecksumOf(s, source, destination, protocol)
            == Complement(PseudoSum(source, destination, protocol, |s|) + WordSum(s + [0]))
  {
    hide PseudoSum, Complement, WordSum;
    OneMoreByte(s, 0);
  }

  /**
   * With the pseudo header it is the checksum of the bytes that RFC 793, section 3.1, and RFC 768 put
   * in front: both addresses, a zero, the protocol and the length of the segment.
   */
  lemma PseudoHeaderIsInFront(s: seq<byte>, source: Ipv4Addr, destination: Ipv4Addr, protocol: byte)
    requires |s| < 65536
    ensures PseudoChecksumOf(s, source, destination, protocol)
            == ChecksumOf(Octets(source) + Octets(destination) + [0, protocol] + ToBe16(|s|) + s)
  {
    hide Octets, ByteOf, Complement, WordSum;
    var head := Octets(source) + Octets(destination);
    WordSumAppends(Octets(source), Octets(destination));
    WordSumAppends(head, [0, protocol]);
    WordSumAppends(head + [0, protocol], ToBe16(|s|));
    WordSumAppends(head + [0, protocol] + ToBe16(|s|), s);
    OneWord([0, protocol]);
    OneWord(ToBe16(|s|));
  }

  lemma OneWord(s: seq<byte>)
    requires |s| == 2
    ensures WordSum(s) == Be16(s[0], s[1])
  {
    assert WordSum(s[2..]) == 0;
  }

  // ----- one word replaced -----

  /** Replacing an aligned word changes the sum by the difference. */
  lemma {:induction false} WordSumSpliced(s: seq<byte>, at: nat, word: seq<byte>)
    requires at % 2 == 0 && at + 2 <= |s| && |word| == 2
    ensures WordSum(Splice(s, at, word)) + Be16(s[at], s[at + 1]) == WordSum(s) + Be16(word[0], word[1])
    decreases |s|
  {
    hide Be16;
    var r := Splice(s, at, word);
    if at == 0 {
      assert r[2..] == s[2..];
    } else {
      WordSumSpliced(s[2..], at - 2, word);
      assert r[2..] == Splice(s[2..], at - 2, word);
    }
  }

  /** Zeroing an aligned word and storing `c` there adds exactly `c` to the sum of the rest. */
  lemma StoredWord(s: seq<byte>, at: nat, c: nat)
    requires at % 2 == 0 && at + 2 <= |s| && c <= MAX_WORD
    ensures var zeroed := Splice(s, at, [0, 0]);
            && Splice(zeroed, at, ToBe16(c)) == Splice(s, at, ToBe16(c))
            && WordSum(Splice(s, at, ToBe16(c))) == WordSum(zeroed) + c
  {
    hide ByteOf, WordSum, Splice;
    ZeroedWord(s, at, ToBe16(c));
    WordSumSpliced(Splice(s, at, [0, 0]), at, ToBe16(c));
  }

  lemma ZeroedWord(s: seq<byte>, at: nat, word: seq<byte>)
    requires at + 2 <= |s| && |word| == 2
    ensures var zeroed := Splice(s, at, [0, 0]);
            Be16(zeroed[at], zeroed[at + 1]) == 0 && Splice(zeroed, at, word) == Splice(s, at, word)
  {}

  /** `update_checksum` over plain bytes: the field at `at` is zeroed, the checksum computed and stored. */
  function WithChecksum(s: seq<byte>, at: nat): (r: seq<byte>)
    requires at + 2 <= |s|
    ensures |r| == |s|
  {
    Splice(s, at, ToBe16(ChecksumOf(Splice(s, at, [0, 0]))))
  }

  /** The same over a segment with its pseudo header. */
  function WithPseudoChecksum(s: seq<byte>, at: nat, source: Ipv4Addr, destination: Ipv4Addr, protocol: byte): (r: seq<byte>)
    requires at + 2 <= |s|
    ensures |r| == |s|
  {
    Splice(s, at, ToBe16(PseudoChecksumOf(Splice(s, at, [0, 0]), source, destination, protocol)))
  }

  /** Whatever was stored there before, the result recomputes to zero, which is what validation asks for. */
  lemma StoredChecksumValidates(s: seq<byte>, at: nat)
    requires at % 2 == 0 && at + 2 <= |s|
    ensures ChecksumOf(WithChecksum(s, at)) == 0
  {
    hide Fold, WordSum, Complement;
    var c := ChecksumOf(Splice(s, at, [0, 0]));
    StoredWord(s, at, c);
    ComplementChecks(WordSum(Splice(s, at, [0, 0])));
  }

  lemma StoredPseudoChecksumValidates(s: seq<byte>, at: nat, source: Ipv4Addr, destination: Ipv4Addr, protocol: byte)
    requires at % 2 == 0 && at + 2 <= |s|
    ensures PseudoChecksumOf(WithPseudoChecksum(s, at, source, destination, protocol), source, destination, protocol) == 0
  {
    hide Fold, WordSum, Complement, Octets;
    var zeroed := Splice(s, at, [0, 0]);
    var c := PseudoChecksumOf(zeroed, source, destination, protocol);
    StoredWord(s, at, c);
    ComplementChecks(PseudoSum(source, destination, protocol, |s|) + WordSum(zeroed));
  }

  /**
   * When the stored field itself is zero, which for UDP means that there is no checksum and which
   * RFC 768 wants sent as all ones: when what is summed is a positive multiple of 65535.
   */
  lemma StoredZeroExactlyWhen(s: seq<byte>, at: nat, source: Ipv4Addr, destination: Ipv4Addr, protocol: byte)
    requires at % 2 == 0 && at + 2 <= |s|
    ensures var r := WithPseudoChecksum(s, at, source, destination, protocol);
            var sum := PseudoSum(source, destination, protocol, |s|) + WordSum(Splice(s, at, [0, 0]));
            Be16(r[at], r[at + 1]) == 0 <==> sum > 0 && sum % MAX_WORD == 0
  {
    hide WordSum, Octets, Be16, ByteOf, Complement;
    ComplementIsZero(PseudoSum(source, destination, protocol, |s|) + WordSum(Splice(s, at, [0, 0])));
  }

  /** It happens: a UDP segment without data from port 65502 to port 0, between unspecified addresses. */
  lemma UdpChecksumCanBeStoredAsZero()
    ensures var seg: seq<byte> := [0xFF, 0xDE, 0, 0, 0, 8, 0, 0];
            var r := WithPseudoChecksum(seg, 6, Ipv4Addr(0), Ipv4Addr(0), 17);
            Be16(r[6], r[7]) == 0
  {
    hide WordSum, Be16, Octets, WithPseudoChecksum;
    var seg: seq<byte> := [0xFF, 0xDE, 0, 0, 0, 8, 0, 0];
    StoredZeroExactlyWhen(seg, 6, Ipv4Addr(0), Ipv4Addr(0), 17);
    assert Splice(seg, 6, [0, 0]) == seg;
    EightBytes(seg);
    FourOctets([0, 0, 0, 0]);
    ExampleWords();
  }

  lemma ExampleWords()
    ensures Octets(Ipv4Addr(0)) == [0, 0, 0, 0]
    ensures Be16(0xFF, 0xDE) == 65502 && Be16(0, 0) == 0 && Be16(0, 8) == 8 && (17 as byte) as nat == 17
  {}

  // ----- the loops -----

  /** Adds the words of a buffer to a sum, as both checksum functions do; a 32-bit accumulator is enough. */
  method AddWords(buffer: seq<byte>, initial: nat) returns (sum: nat)
    requires initial + MAX_WORD * ((|buffer| + 1) / 2) < U32
    ensures sum == initial + WordSum(buffer) < U32
  {
    hide Be16;
    sum := initial;
    var i := 0;
    while i + 1 < |buffer|
      invariant 0 <= i <= |buffer|
      invariant sum + WordSum(buffer[i..]) == initial + WordSum(buffer)
      invariant sum + MAX_WORD * ((|buffer| - i + 1) / 2) < U32
      invariant sum < U32
    {
      assert buffer[i..][2..] == buffer[i + 2..];
      sum := sum + Be16(buffer[i], buffer[i + 1]);
      i := i + 2;
    }
    if i < |buffer| {
      assert buffer[i..] == [buffer[i]];
      sum := sum + Be16(buffer[i], 0);
    }
  }

  /** The folding loop: it ends, and its result is the folded sum. */
  method FoldCarries(initial: nat) returns (sum: nat)
    requires initial < U32
    ensures sum == Fold(initial) <= MAX_WORD && sum % MAX_WORD == initial % MAX_WORD
  {
    sum := initial;
    while sum / 65536 != 0
      invariant sum < U32 && Fold(sum) == Fold(initial)
      decreases sum
    {
      sum := sum % 65536 + sum / 65536;
    }
    FoldIsCongruent(initial);
  }

  /** `cal_checksum` on up to 65535 bytes. */
  method CalChecksum(buffer: seq<byte>) returns (checksum: nat)
    requires |buffer| <= 65535
    ensures checksum == ChecksumOf(buffer)
    ensures checksum == 0 <==> WordSum(buffer) > 0 && WordSum(buffer) % MAX_WORD == 0
  {
    var sum := AddWords(buffer, 0);
    sum := FoldCarries(sum);
    ComplementIsZero(WordSum(buffer));
    checksum := MAX_WORD - sum;
  }

  /** `ipv4_cal_checksum` on up to 65535 bytes. */
  method Ipv4CalChecksum(buffer: seq<byte>, source: Ipv4Addr, destination: Ipv4Addr, protocol: byte) returns (checksum: nat)
    requires |buffer| <= 65535
    ensures checksum == PseudoChecksumOf(buffer, source, destination, protocol)
  {
    hide Octets, Be16;
    var src, dst := Octets(source), Octets(destination);
    FourOctets(src);
    FourOctets(dst);
    var sum := Be16(src[0], src[1]) + Be16(src[2], src[3]);
    sum := sum + Be16(dst[0], dst[1]) + Be16(dst[2], dst[3]);
    ByteIsSmall(protocol);
    sum := sum + protocol as nat + |buffer|;
    sum := AddWords(buffer, sum);
    sum := FoldCarries(sum);
    checksum := MAX_WORD - sum;
  }

  lemma FourOctets(s: seq<byte>)
    requires |s| == 4
    ensures WordSum(s) == Be16(s[0], s[1]) + Be16(s[2], s[3])
  {
    hide Be16;
    var t := s[2..];
    assert t == [s[2], s[3]] && t[2..] == [];
    assert WordSum(t[2..]) == 0;
    assert WordSum(t) == Be16(t[0], t[1]) + WordSum(t[2..]);
    assert WordSum(s) == Be16(s[0], s[1]) + WordSum(t);
  }

  lemma EightBytes(s: seq<byte>)
    requires |s| == 8
    ensures WordSum(s) == Be16(s[0], s[1]) + Be16(s[2], s[3]) + Be16(s[4], s[5]) + Be16(s[6], s[7])
  {
    hide Be16;
    var t := s[4..];
    assert s[2..][2..] == t && t[0] == s[4] && t[1] == s[5];
    FourOctets(t);
  }

  lemma ByteIsSmall(b: byte)
    ensures b as nat < 256
  {}
}
