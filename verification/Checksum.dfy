/**
 The TCP checksum (src/usnet/utils.c:165-198) as section 1 of RFC 1071 has it: the one's-complement
 sum of the segment's 16-bit words, loaded in host (little-endian) order, and of a pseudo header.
 */
module Checksum {
  import opened Words

  /** Offset of the checksum field in the TCP header. */
  const TH_SUM: nat := 16

  /** The plain sum of the words; an odd last byte counts as a word with a zero byte after it. */
  function WordSum(b: seq<byte>): nat
  {
    if |b| == 0 then 0
    else if |b| == 1 then b[0]
    else b[0] as int + 256 * b[1] as int + WordSum(b[2..])
  }

  /** `htons` on a little-endian host. */
  function Swap16(x: u16): u16 { (x % 256) * 256 + x / 256 }

  /** Addresses, length and protocol. */
  function PseudoSum(len: u16, saddr: u32, daddr: u32): (s: nat)
    ensures 0 < s < 0x6_0000
  {
    saddr % 0x1_0000 + saddr / 0x1_0000 + daddr % 0x1_0000 + daddr / 0x1_0000 + Swap16(len) + Swap16(6)
  }

  /**
   Section 3.1 of RFC 9293: the twelve bytes in front of the segment, in the order of the wire.  The
   addresses are kept as they are on the wire.
   */
  function PseudoHeader(len: u16, saddr: u32, daddr: u32): (h: seq<byte>)
    ensures |h| == 12
  {
    WordBytes(saddr) + WordBytes(daddr) + LengthBytes(len)
  }

  /** A zero byte, the protocol, and the length of the segment. */
  function LengthBytes(len: u16): (h: seq<byte>)
    ensures |h| == 4
  {
    [0, 6, len / 256, len % 256]
  }

  function Total(b: seq<byte>, saddr: u32, daddr: u32): nat
    requires |b| < 0x1_0000
  {
    WordSum(PseudoHeader(|b|, saddr, daddr) + b)
  }

  lemma {:induction false} WordSumAppends(h: seq<byte>, b: seq<byte>)
    requires |h| % 2 == 0
    ensures WordSum(h + b) == WordSum(h) + WordSum(b)
  {
    if h == [] {
      assert h + b == b;
    } else {
      assert (h + b)[2..] == h[2..] + b;
      WordSumAppends(h[2..], b);
    }
  }

  /** An odd segment sums as if a zero byte followed it. */
  lemma {:induction false} OddIsPadded(b: seq<byte>)
    requires |b| % 2 == 1
    ensures WordSum(b) == WordSum(b + [0])
  {
    if |b| > 1 {
      assert (b + [0])[2..] == b[2..] + [0];
      OddIsPadded(b[2..]);
    }
  }

  /** The five additions of the source are the six words of the pseudo header. */
  lemma PseudoWords(b: seq<byte>, saddr: u32, daddr: u32)
    requires |b| < 0x1_0000
    ensures Total(b, saddr, daddr) == WordSum(b) + PseudoSum(|b|, saddr, daddr)
  {
    hide WordSum, PseudoHeader, PseudoSum;
    WordSumAppends(PseudoHeader(|b|, saddr, daddr), b);
    HeaderWords(|b|, saddr, daddr);
  }

  lemma HeaderWords(len: u16, saddr: u32, daddr: u32)
    ensures WordSum(PseudoHeader(len, saddr, daddr)) == PseudoSum(len, saddr, daddr)
  {
    hide WordBytes, WordSum, Swap16, LoadWord;
    var s, d, rest := WordBytes(saddr), WordBytes(daddr), LengthBytes(len);
    WordSumAppends(s + d, rest);
    WordSumAppends(s, d);
    FourBytes(saddr, s);
    FourBytes(daddr, d);
    LengthWords(len);
  }

  lemma FourBytes(x: u32, w: seq<byte>)
    requires |w| == 4 && LoadWord(w) == x
    ensures WordSum(w) == x % 0x1_0000 + x / 0x1_0000
  {
    var t := w[2..];
    assert t[2..] == [];
    assert WordSum(t) == w[2] as int + 256 * w[3] as int;
    Halves(w[0] as int + 256 * w[1] as int, w[2] as int + 256 * w[3] as int, x);
  }

  lemma Halves(lo: int, hi: int, x: int)
    requires 0 <= lo < 0x1_0000 && x == lo + 0x1_0000 * hi
    ensures x % 0x1_0000 == lo && x / 0x1_0000 == hi
  {
  }

  lemma LengthWords(len: u16)
    ensures WordSum(LengthBytes(len)) == Swap16(len) + Swap16(6)
  {
    var t := LengthBytes(len)[2..];
    assert t == [len / 256, len % 256] && t[2..] == [];
    assert WordSum(t) == Swap16(len);
  }

  /** The representative of a positive sum modulo 65535 in one's-complement arithmetic: never zero. */
  function OnesComplement(s: int): int { (s - 1) % 0xFFFF + 1 }

  /**
   Section 3.1 of RFC 9293: the checksum a segment should carry, or zero if it carries the right one,
   the complement of the one's-complement sum of pseudo header and segment.
   */
  function Expected(b: seq<byte>, saddr: u32, daddr: u32): int
    requires |b| < 0x1_0000
  {
    0xFFFF - OnesComplement(Total(b, saddr, daddr))
  }

  lemma {:induction false} WordSumBound(b: seq<byte>)
    ensures 2 * WordSum(b) <= 0xFFFF * (|b| + 1)
  {
    if |b| > 1 {
      WordSumBound(b[2..]);
    }
  }

  /** The two foldings of the source are the one's-complement sum. */
  lemma FoldIsOnesComplement(s: int)
    requires 0 < s < 0x1_0000_0000 - 0x1_0000
    ensures var t := s / 0x1_0000 + s % 0x1_0000;
            (t + t / 0x1_0000) % 0x1_0000 == OnesComplement(s)
  {
    var h, l := s / 0x1_0000, s % 0x1_0000;
    assert s == 0xFFFF * h + (h + l);
    var t := h + l;
    CongruentRepresentative(s, t, h);
    assert 0 < t < 2 * 0xFFFF;
    assert OnesComplement(t) == if t <= 0xFFFF then t else t - 0xFFFF;
  }

  lemma CongruentRepresentative(s: int, t: int, k: int)
    requires s == 0xFFFF * k + t
    ensures OnesComplement(s) == OnesComplement(t)
  {
    assert s - 1 == 0xFFFF * k + (t - 1);
  }

  /** src/usnet/utils.c:172-184. */
  method AddWords(b: seq<byte>) returns (sum: u32)
    requires |b| < 0x1_0000
    ensures sum == WordSum(b) && 2 * sum <= 0xFFFF * 0x1_0000
  {
    WordSumBound(b);
    var nleft, w := |b|, 0;
    sum := 0;
    assert b[0..] == b;
    while nleft > 1
      invariant 0 <= nleft && w + nleft == |b| && sum + WordSum(b[w..]) == WordSum(b)
    {
      assert b[w..][2..] == b[w + 2..];
      sum := sum + (b[w] as int + 256 * b[w + 1] as int);
      nleft, w := nleft - 2, w + 2;
    }
    if nleft == 1 {
      sum := sum + b[w];
    }
  }

  /** tcp_cksum: no step overflows 32 bits and the result is the complement of the one's-complement sum. */
  method TcpCksum(b: seq<byte>, saddr: u32, daddr: u32) returns (r: u16)
    requires |b| < 0x1_0000
    ensures r == Expected(b, saddr, daddr)
  {
    hide OnesComplement, WordSum, Total, PseudoHeader;
    var sum: u32 := AddWords(b);
    sum := sum + (saddr % 0x1_0000 + saddr / 0x1_0000);
    sum := sum + (daddr % 0x1_0000 + daddr / 0x1_0000);
    sum := sum + Swap16(|b|);
    sum := sum + Swap16(6);
    PseudoWords(b, saddr, daddr);
    assert sum == Total(b, saddr, daddr);
    FoldIsOnesComplement(sum);
    sum := sum / 0x1_0000 + sum % 0x1_0000;
    sum := sum + sum / 0x1_0000;
    Complement(sum);
    sum := 0xFFFF_FFFF - sum;
    r := sum % 0x1_0000;
  }

  lemma Complement(x: int)
    ensures (0xFFFF_FFFF - x) % 0x1_0000 == 0xFFFF - x % 0x1_0000
  {
  }

  // ----- storing a word

  /** The segment with word `w` at even offset `at`. */
  function Put(b: seq<byte>, at: nat, w: u16): (r: seq<byte>)
    requires at + 1 < |b|
    ensures |r| == |b|
  {
    b[at := w % 256][at + 1 := w / 256]
  }

  function WordAt(b: seq<byte>, at: nat): u16
    requires at + 1 < |b|
  {
    b[at] as int + 256 * b[at + 1] as int
  }

  lemma {:induction false} PutSum(b: seq<byte>, at: nat, w: u16)
    requires at % 2 == 0 && at + 1 < |b|
    ensures WordSum(Put(b, at, w)) == WordSum(b) - WordAt(b, at) + w
    ensures WordAt(b, at) <= WordSum(b)
  {
    if at == 0 {
      assert Put(b, at, w)[2..] == b[2..];
    } else {
      assert Put(b, at, w)[2..] == Put(b[2..], at - 2, w);
      PutSum(b[2..], at - 2, w);
    }
  }

  /** A sum verifies exactly when it is a multiple of 65535. */
  lemma VerifiesIff(s: int)
    requires s > 0
    ensures OnesComplement(s) == 0xFFFF <==> s % 0xFFFF == 0
  {
    var k := s / 0xFFFF;
    assert s == 0xFFFF * k + s % 0xFFFF;
    CongruentRepresentative(s, s % 0xFFFF, k);
  }

  /** Round trip: with the field computed over a zeroed field, the receiver's check yields zero, whoever is called source. */
  lemma EmittedSegmentVerifies(b: seq<byte>, saddr: u32, daddr: u32)
    requires TH_SUM + 2 <= |b| < 0x1_0000
    ensures var c := Expected(Put(b, TH_SUM, 0), saddr, daddr);
            && 0 <= c < 0x1_0000 && Expected(Put(b, TH_SUM, c), saddr, daddr) == 0
            && Expected(Put(b, TH_SUM, c), daddr, saddr) == 0
  {
    hide Total, WordSum, PseudoHeader;
    var zeroed := Put(b, TH_SUM, 0);
    var s := Total(zeroed, saddr, daddr);
    var c := Expected(zeroed, saddr, daddr);
    PutSum(b, TH_SUM, 0);
    PutSum(b, TH_SUM, c);
    PseudoWords(zeroed, saddr, daddr);
    PseudoWords(Put(b, TH_SUM, c), saddr, daddr);
    assert Total(Put(b, TH_SUM, c), saddr, daddr) == s + c;
    var k := (s - 1) / 0xFFFF;
    assert s - 1 == 0xFFFF * k + (s - 1) % 0xFFFF;
    assert s + c == 0xFFFF * (k + 1);
    VerifiesIff(s + c);
    AddressesCommute(Put(b, TH_SUM, c), saddr, daddr);
  }

  /** The check is symmetric in the addresses, so it does not matter who is called source. */
  lemma AddressesCommute(b: seq<byte>, saddr: u32, daddr: u32)
    requires |b| < 0x1_0000
    ensures Expected(b, saddr, daddr) == Expected(b, daddr, saddr)
  {
    PseudoWords(b, saddr, daddr);
    PseudoWords(b, daddr, saddr);
  }

  /** Two words are congruent exactly if they are equal or the two zeros of one's-complement arithmetic. */
  lemma CongruentWords(v: u16, w: u16)
    ensures (w - v) % 0xFFFF == 0 <==> w == v || (v == 0 && w == 0xFFFF) || (v == 0xFFFF && w == 0)
  {
  }

  /** A verified segment with one word changed still verifies if and only if the two are congruent. */
  lemma OneWordChanged(b: seq<byte>, at: nat, w: u16, saddr: u32, daddr: u32)
    requires |b| < 0x1_0000 && at % 2 == 0 && at + 1 < |b| && Expected(b, saddr, daddr) == 0
    ensures Expected(Put(b, at, w), saddr, daddr) == 0 <==>
            w == WordAt(b, at) || (WordAt(b, at) == 0 && w == 0xFFFF) || (WordAt(b, at) == 0xFFFF && w == 0)
  {
    var v := WordAt(b, at);
    var s := Total(b, saddr, daddr);
    PutSum(b, at, w);
    PseudoWords(b, saddr, daddr);
    PseudoWords(Put(b, at, w), saddr, daddr);
    VerifiesIff(s);
    VerifiesIff(s - v + w);
    SameResidue(s, w - v);
    CongruentWords(v, w);
  }

  lemma SameResidue(s: int, d: int)
    requires s % 0xFFFF == 0
    ensures (s + d) % 0xFFFF == 0 <==> d % 0xFFFF == 0
  {
  }
}
