/**
 The sender's windows (src/usnet/tcp.c:142-362, 689-693, src/usnet/timer.c:262-267, 328,
 src/usnet/tcp_out.c:585-719), section 3 of RFC 5681: congestion window, slow-start threshold,
 duplicate acknowledgements, and the bytes in flight.

 The send buffer is abstract: its head is the first unacknowledged byte, and how many bytes it
 holds or offers next is an input.
 */
module Congestion {
  import opened Words
  import opened SeqNum
  import C = Connection

  /** Bytes of a send buffer (src/usnet/core.c:207). */
  const SNDBUF_SIZE: nat := 32384
  const TCP_DEFAULT_MSS: u16 := 1460
  const TIMESTAMP_OPTION: nat := 12

  datatype Mss = Mss(mss: u16, effMss: u16)

  /** The segment sizes after the options of a SYN (src/usnet/tcb.c:161, 217-223); `eff_mss` starts at zero. */
  function Negotiate(option: int): Mss
    requires -1 <= option < 0x1_0000
  {
    if option < 0 then Mss(TCP_DEFAULT_MSS, 0) else Mss(option, Wrap16(option - TIMESTAMP_OPTION))
  }

  /** Full segments an acknowledgement of `rmlen` bytes stands for; the rounding test after it never holds. */
  function Packets(rmlen: nat, effMss: nat): nat
    requires effMss > 0
  {
    rmlen / effMss
  }

  /** Segments of at least 13 bytes, or so small that `eff_mss` wrapped past every buffer. */
  ghost predicate Sizes(m: Mss)
  {
    m.mss > 0 && m.effMss > 0 && (m.effMss == m.mss - TIMESTAMP_OPTION || m.effMss > SNDBUF_SIZE)
  }

  /** `cwnd` when the connection is established (src/usnet/tcp.c:690-693); a timeout before that left one segment. */
  function FirstCwnd(timedOut: bool, mss: u16): u32
  {
    var prior := if timedOut then mss else 1;
    if prior == 1 then 2 * mss else mss
  }

  /** `ssthresh` at that time: zero, or what the timeout left. */
  function FirstSsthresh(timedOut: bool, mss: u16): u32 { if timedOut then 2 * mss else 0 }

  /** Acknowledging new data divides by `eff_mss` and, in congestion avoidance, by `cwnd`: one of them is zero. */
  predicate DividesByZero(m: Mss, cwnd: u32, ssthresh: u32)
  {
    m.effMss == 0 || (!(cwnd < ssthresh) && cwnd == 0)
  }

  /**
   The first acknowledgement of data on a new connection divides by zero exactly if the SYN had no
   MSS option, or one of 0 or 12; every other option gives sizes with which no division ever fails.
   */
  lemma DivisorIsZero(option: int, timedOut: bool)
    requires -1 <= option < 0x1_0000
    ensures var m := Negotiate(option);
            && (DividesByZero(m, FirstCwnd(timedOut, m.mss), FirstSsthresh(timedOut, m.mss)) <==>
                option < 0 || option == 0 || option == 12)
            && (Sizes(m) <==> !(option < 0 || option == 0 || option == 12))
  {
    if 0 <= option < 12 {
      assert Wrap16(option - 12) == option + 65524;
    } else if option >= 12 {
      assert Wrap16(option - 12) == option - 12;
    }
  }

  /**
   None of the products of the window update overflows an `int`, and the segments counted stand for
   no more than the bytes acknowledged and the options that were sent with them.
   */
  lemma ProductsFit(m: Mss, rmlen: nat)
    requires Sizes(m) && rmlen <= SNDBUF_SIZE
    ensures var p := Packets(rmlen, m.effMss);
            && p * m.effMss <= rmlen < p * m.effMss + m.effMss
            && p <= rmlen && p * m.mss < 0x8000_0000 && p * m.mss * m.mss < 0x8000_0000
            && p * m.mss <= rmlen + TIMESTAMP_OPTION * p
  {
    var e: int, mss: int := m.effMss, m.mss;
    var p: int := rmlen / e;
    Quotient(rmlen, e);
    if p > 0 {
      AtLeastFactor(p, e);
      SquareBound(p, e, rmlen);
      assert mss == e + 12;
    } else {
      assert p == 0;
    }
  }

  lemma SquareBound(p: int, e: int, r: int)
    requires 0 < p && 0 < e && p * e <= r <= 32384
    ensures p * (e + 12) <= r + 12 * p && p * (e + 12) < 0x8000_0000
    ensures (p * (e + 12)) * (e + 12) < 0x8000_0000
  {
    AtLeastFactor(p, e);
    Distribute(p, e);
    Expand(p, e, p * e);
    Monotone(p * e, 32384, e);
    Monotone(e, 32384, 32384);
  }

  lemma AtLeastFactor(p: int, e: int)
    requires 0 < p && 0 < e
    ensures p <= p * e && e <= p * e
  {
    Monotone(1, e, p);
    Monotone(1, p, e);
  }

  lemma Distribute(p: int, e: int)
    ensures p * (e + 12) == p * e + 12 * p
  {
  }

  lemma Expand(p: int, e: int, a: int)
    requires a == p * e
    ensures (p * (e + 12)) * (e + 12) == a * e + 24 * a + 144 * p
  {
    Distribute(p, e);
    var b := a + 12 * p;
    assert b * (e + 12) == b * e + 12 * b;
    assert b * e == a * e + (12 * p) * e;
    assert (12 * p) * e == 12 * a;
  }

  lemma Monotone(a: int, b: int, c: int)
    requires a <= b && 0 <= c
    ensures a * c <= b * c
  {
    assert (b - a) * c >= 0;
    assert (b - a) * c == b * c - a * c;
  }

  lemma Quotient(x: int, d: int)
    requires 0 <= x && 0 < d
    ensures 0 <= x / d <= x && (x / d) * d <= x && x - d < (x / d) * d
  {
    assert x == (x / d) * d + x % d;
    Monotone(1, d, x / d);
  }

  // ----- the congestion window

  /** `ssthresh` after a loss: half of what could have been in flight, at least two segments. */
  function Halved(cwnd: u32, peerWnd: u32, mss: u16): (r: u32)
    ensures r < 0x8000_0000
  {
    var half := Min(cwnd, peerWnd) / 2;
    if half < 2 * mss then 2 * mss else half
  }

  /** The least number that is at least two segments and no less than half of either window, whichever is smaller. */
  lemma HalvedBounds(cwnd: u32, peerWnd: u32, mss: u16)
    ensures 2 * mss <= Halved(cwnd, peerWnd, mss) < 0x8000_0000 && Min(cwnd, peerWnd) / 2 <= Halved(cwnd, peerWnd, mss)
    ensures Halved(cwnd, peerWnd, mss) > 2 * mss ==> 2 * Halved(cwnd, peerWnd, mss) <= cwnd && 2 * Halved(cwnd, peerWnd, mss) <= peerWnd
  {
  }

  /**
   The first windows are what a loss before the handshake was complete has left, starting from one
   byte: two segments without a loss, and one after it.
   */
  lemma FirstWindows(mss: u16, peerWnd: u32)
    requires mss > 1
    ensures FirstCwnd(false, mss) == 2 * mss && FirstCwnd(true, mss) == mss
    ensures FirstSsthresh(false, mss) == 0 && FirstSsthresh(true, mss) == Halved(1, peerWnd, mss)
  {
  }

  /** `ssthresh` once an acknowledgement has been judged; `third` is the third duplicate in a row. */
  function JudgedSsthresh(third: bool, cwnd: u32, ssthresh: u32, peerWnd: u32, mss: u16): u32
  {
    if third then Halved(cwnd, peerWnd, mss) else ssthresh
  }

  /** `cwnd` at that time: three segments have left the network at the third duplicate, one more at each later one. */
  function JudgedCwnd(third: bool, dups: u16, cwnd: u32, peerWnd: u32, mss: u16): (r: u32)
    ensures mss > 0 && cwnd >= mss ==> r >= mss
  {
    if third then Halved(cwnd, peerWnd, mss) + 3 * mss
    else if dups > 3 && cwnd + mss < 0x1_0000_0000 then cwnd + mss
    else cwnd
  }

  /** The guard of the inflation holds exactly if one more segment does not overflow. */
  lemma Inflated(cwnd: u32, mss: u16)
    ensures mss > 0 ==> (Wrap32(cwnd + mss) > cwnd <==> cwnd + mss < 0x1_0000_0000)
    ensures cwnd + mss < 0x1_0000_0000 ==> Wrap32(cwnd + mss) == cwnd + mss
  {
  }

  /** `cwnd` after new data was acknowledged (src/usnet/tcp.c:324-341): slow start, or congestion avoidance. */
  function Grown(cwnd: u32, ssthresh: u32, mss: u16, packets: nat): u32
    requires cwnd > 0
  {
    if cwnd < ssthresh then
      if Wrap32(cwnd + mss) > cwnd then Wrap32(cwnd + mss * packets) else cwnd
    else
      var newCwnd := Wrap32(cwnd + packets * mss * mss / cwnd);
      if newCwnd > cwnd then newCwnd else cwnd
  }

  /**
   The window never shrinks when data is acknowledged, and grows by at most one segment for each full
   segment acknowledged, although slow start only guards its first segment against overflow: the
   threshold is too low.
   */
  lemma GrownIsMonotone(cwnd: u32, ssthresh: u32, mss: u16, packets: nat)
    requires 0 < mss <= cwnd && ssthresh <= 0x8000_0000 && packets * mss < 0x8000_0000
    ensures cwnd <= Grown(cwnd, ssthresh, mss, packets) <= cwnd + packets * mss
  {
    var inc := packets * mss;
    assert mss * packets == inc;
    if cwnd < ssthresh {
      assert Wrap32(cwnd + inc) == cwnd + inc;
    } else {
      QuotientBound(inc, mss, cwnd);
    }
  }

  /**
   Slow start adds a segment for each one acknowledged; congestion avoidance adds the share of the
   window that was acknowledged of a segment for each, rounded down.
   */
  lemma GrownExactly(cwnd: u32, ssthresh: u32, mss: u16, packets: nat)
    requires 0 < mss <= cwnd && cwnd + packets * mss < 0x1_0000_0000 && cwnd + mss < 0x1_0000_0000
    ensures var more := Grown(cwnd, ssthresh, mss, packets) - cwnd;
            if cwnd < ssthresh then more == packets * mss
            else more * cwnd <= packets * mss * mss < (more + 1) * cwnd
  {
    hide Wrap32;
    var x := packets * mss * mss;
    Fits32(cwnd + mss);
    Fits32(cwnd + packets * mss);
    assert mss * packets == packets * mss;
    QuotientBound(packets * mss, mss, cwnd);
    Fits32(cwnd + x / cwnd);
    Quotient(x, cwnd);
    assert (x / cwnd + 1) * cwnd == (x / cwnd) * cwnd + cwnd;
  }

  /**
   Section 3.1 of RFC 5681: when a whole window is acknowledged, slow start doubles the window and
   congestion avoidance adds one segment.
   */
  lemma GrowthPerWindow(cwnd: u32, ssthresh: u32, mss: u16, packets: nat)
    requires 0 < mss <= cwnd < 0x8000_0000 && ssthresh <= 0x8000_0000 && packets * mss == cwnd
    ensures Grown(cwnd, ssthresh, mss, packets) == cwnd + if cwnd < ssthresh then cwnd else mss
  {
    hide Wrap32;
    Fits32(cwnd + mss);
    if cwnd < ssthresh {
      assert mss * packets == cwnd;
      Fits32(cwnd + cwnd);
    } else {
      assert packets * mss * mss / cwnd == mss by {
        ExactQuotient(mss, cwnd);
      }
    }
  }

  lemma ExactQuotient(q: int, d: int)
    requires q >= 0 && d > 0
    ensures d * q / d == q
  {
    var x := d * q;
    assert x == (x / d) * d + x % d;
    var k := q - x / d;
    assert k * d == x % d;
    assert k >= 1 ==> k * d >= d;
    assert k <= -1 ==> k * d <= -d;
  }

  lemma QuotientBound(inc: nat, mss: nat, cwnd: nat)
    requires 0 < mss <= cwnd
    ensures 0 <= inc * mss / cwnd <= inc
  {
    var q := inc * mss / cwnd;
    Monotone(mss, cwnd, inc);
    Quotient(inc * mss, cwnd);
    assert (inc + 1) * cwnd == inc * cwnd + cwnd;
    if q > inc {
      Monotone(inc + 1, q, cwnd);
      assert false;
    }
  }

  // ----- one acknowledgement, by its number

  /** An acknowledgement that is not beyond the buffer is at most `bufLen` ahead; only an empty buffer lets the half-way number through. */
  lemma NotBeyondBuffer(ack: u32, una: u32, bufLen: nat)
    requires bufLen <= SNDBUF_SIZE && !SeqGt(ack, Wrap32(una + bufLen))
    ensures Ahead(ack, una) <= bufLen && (Ahead(ack, una) == -0x8000_0000 ==> bufLen == 0)
  {
    var d := Ahead(ack, una);
    AheadOf(ack, una);
    var end := Wrap32(una + bufLen);
    WrapDifference(una + bufLen, una);
    Fits32(una);
    Fits32(bufLen);
    assert Wrap32(end - una) == bufLen;
    AheadIsOrder(ack, end);
    if d > bufLen {
      SeenFrom(una, ack, end, d, bufLen);
    } else if d == -0x8000_0000 && bufLen > 0 {
      SeenFrom(una, ack, end, 0x8000_0000, bufLen);
    }
  }

  /** Which way the tests of usnet_process_ack go for a number `d` ahead of `una`, with `f` bytes in flight. */
  lemma TestsOf(ack: u32, una: u32, nxt: u32, d: int, f: int)
    requires d == Ahead(ack, una) && f == Wrap32(nxt - una) && -0x8000_0000 < d <= SNDBUF_SIZE
    ensures SeqGeq(una, ack) <==> d <= 0
    ensures f < 0x4000_0000 && d > 0 ==> (SeqGt(ack, nxt) <==> d > f)
    ensures f < 0x4000_0000 ==> !SeqLt(nxt, una)
  {
    AheadOf(ack, una);
    AheadIsOrder(una, ack);
    AheadIsOrder(ack, nxt);
    AheadIsOrder(nxt, una);
    Fits32(f);
    Fits32(0);
    SeenFrom(una, una, ack, 0, d);
    if f < 0x4000_0000 {
      SeenFrom(una, nxt, una, f, 0);
      if d > 0 {
        SeenFrom(una, ack, nxt, d, f);
      }
    }
  }

  lemma NotBehind(nxt: u32, una: u32)
    ensures Wrap32(nxt - una) < 0x4000_0000 ==> !SeqLt(nxt, una)
  {
  }

  lemma Moved(ack: u32, unaPos: int)
    ensures Wrap32(unaPos + Wrap32(ack - Wrap32(unaPos))) == ack
  {
  }

  lemma ThirdOnly(n: u16)
    ensures Wrap16(n + 1) == 3 <==> n == 2
  {
  }

  lemma SeqExclusive(a: u32, b: u32)
    ensures !SeqGt(a, a) && (SeqLt(a, b) ==> !SeqGt(a, b))
  {
  }

  /** An older or equal number: `snd_nxt` ends up behind `una` exactly if it moved to an older one. */
  lemma OrderWithoutProgress(ack: u32, una: u32, nxt: u32, moved: bool)
    requires -0x8000_0000 < Ahead(ack, una) <= 0 && Wrap32(nxt - una) < 0x4000_0000
    ensures var nxt' := if moved then ack else nxt;
            && (Wrap32(nxt' - una) < 0x4000_0000 || SeqLt(nxt', una))
            && (SeqLt(nxt', una) <==> moved && Ahead(ack, una) < 0)
  {
    AheadIsOrder(ack, una);
    TestsOf(ack, una, nxt, Ahead(ack, una), Wrap32(nxt - una));
    AheadIsDistance(ack, una);
  }

  /** A newer number: `snd_nxt` ends up at or after it. */
  lemma OrderWithProgress(ack: u32, una: u32, nxt: u32, moved: bool)
    requires 0 < Ahead(ack, una) <= SNDBUF_SIZE && Wrap32(nxt - una) < 0x4000_0000
    requires moved || !SeqGt(ack, nxt)
    ensures var nxt' := if moved then ack else nxt;
            Wrap32(nxt' - ack) < 0x4000_0000 && !SeqLt(nxt', ack)
  {
    var d, f := Ahead(ack, una), Wrap32(nxt - una);
    TestsOf(ack, una, nxt, d, f);
    AheadOf(ack, una);
    AheadIsOrder(if moved then ack else nxt, ack);
    if !moved {
      Fits32(f);
      SeenFrom(una, nxt, ack, f, d);
      AheadIsDistance(nxt, ack);
    }
  }

  // ----- the sender

  class Sender {
    const sizes: Mss
    var cwnd: u32
    var ssthresh: u32
    var peerWnd: u32
    var sndUna: u32
    var sndNxt: u32
    var lastAckSeq: u32
    var dupAcks: u16
    var sndWl1: u32
    var sndWl2: u32

    /** Stream position of `sndUna`. */
    ghost var unaPos: int

    /** The windows are never below a segment, nor the threshold, once there was a loss, below two. */
    ghost predicate Valid()
      reads `cwnd, `ssthresh, `peerWnd, `sndUna, `unaPos
    {
      && Sizes(sizes) && cwnd >= sizes.mss && peerWnd < 0x4000_0000
      && (ssthresh == 0 || ssthresh >= 2 * sizes.mss) && ssthresh < 0x8000_0000
      && sndUna == Wrap32(unaPos)
    }

    /** `snd_nxt` is before the head of the send buffer: the assertion at src/usnet/tcp_out.c:626-632 fails. */
    predicate Behind()
      reads `sndNxt, `sndUna
    {
      SeqLt(sndNxt, sndUna)
    }

    /** The bytes in flight, as the window test computes them. */
    function Flight(): u32
      reads `sndNxt, `sndUna
    {
      Wrap32(sndNxt - sndUna)
    }

    /** `snd_nxt` is at or after `snd_una`, by no more than a window. */
    predicate Ordered()
      reads `sndNxt, `sndUna
    {
      Flight() < 0x4000_0000
    }

    /** The acknowledgement that establishes the connection (src/usnet/tcp.c:689-693). */
    constructor (sizes: Mss, timedOut: bool, iss: u32, peerWnd: u32)
      requires Sizes(sizes) && peerWnd < 0x4000_0000
      ensures Valid() && Flight() == 0 && this.sizes == sizes && sndNxt == sndUna == Inc32(iss)
      ensures cwnd == FirstCwnd(timedOut, sizes.mss) && ssthresh == FirstSsthresh(timedOut, sizes.mss)
      ensures this.peerWnd == peerWnd && lastAckSeq == 0 && dupAcks == 0 && sndWl1 == 0xFFFF_FFFF && sndWl2 == 0
    {
      this.sizes := sizes;
      cwnd, ssthresh := FirstCwnd(timedOut, sizes.mss), FirstSsthresh(timedOut, sizes.mss);
      this.peerWnd := peerWnd;
      sndUna, sndNxt := Inc32(iss), Inc32(iss);
      lastAckSeq, dupAcks, sndWl1, sndWl2 := 0, 0, 0xFFFF_FFFF, 0;
      unaPos := iss + 1;
      Inc32Wraps(iss);
      Fits32(iss);
    }

    /** Whatever the run, neither division of the window update is by zero. */
    lemma NeverDividesByZero()
      requires Valid()
      ensures !DividesByZero(sizes, cwnd, ssthresh)
    {
    }

    /** The congestion part of usnet_handle_rto. */
    method Timeout()
      requires Valid()
      modifies `cwnd, `ssthresh, `sndNxt
      ensures Valid() && Flight() == 0 && sndNxt == sndUna && cwnd == sizes.mss
      ensures ssthresh == Halved(old(cwnd), peerWnd, sizes.mss) >= 2 * sizes.mss
    {
      HalvedBounds(cwnd, peerWnd, sizes.mss);
      ssthresh := Halved(cwnd, peerWnd, sizes.mss);
      cwnd := sizes.mss;
      sndNxt := sndUna;
    }

    /** Fast retransmission and window inflation (src/usnet/tcp.c:236-276). */
    method OnDuplicate(ackSeq: u32, dup: bool)
      requires Valid() && (dup ==> SeqLt(ackSeq, sndNxt))
      modifies `cwnd, `ssthresh, `sndNxt
      ensures Valid() && sndNxt == if dup && dupAcks == 3 then ackSeq else old(sndNxt)
      ensures ssthresh == JudgedSsthresh(dup && dupAcks == 3, old(cwnd), old(ssthresh), peerWnd, sizes.mss)
      ensures cwnd == JudgedCwnd(dup && dupAcks == 3, dupAcks, old(cwnd), peerWnd, sizes.mss)
    {
      hide Halved, Wrap32, SeqLt;
      HalvedBounds(cwnd, peerWnd, sizes.mss);
      Inflated(cwnd, sizes.mss);
      if dup && dupAcks == 3 {
        if SeqLt(ackSeq, sndNxt) {
          sndNxt := ackSeq;
        }
        Fits32(Halved(cwnd, peerWnd, sizes.mss) + 3 * sizes.mss);
        ssthresh := Halved(cwnd, peerWnd, sizes.mss);
        cwnd := Wrap32(ssthresh + 3 * sizes.mss);
      } else if dupAcks > 3 {
        if Wrap32(cwnd + sizes.mss) > cwnd {
          cwnd := Wrap32(cwnd + sizes.mss);
        }
      }
    }

    /** src/usnet/tcp.c:307-311, 322-341. */
    method Grow(rmlen: nat, established: bool)
      requires Valid() && rmlen <= SNDBUF_SIZE
      modifies `cwnd
      ensures Valid() && old(cwnd) <= cwnd <= old(cwnd) + Packets(rmlen, sizes.effMss) * sizes.mss
      ensures cwnd == if established then Grown(old(cwnd), ssthresh, sizes.mss, Packets(rmlen, sizes.effMss)) else old(cwnd)
    {
      hide Grown;
      var packets := Packets(rmlen, sizes.effMss);
      ProductsFit(sizes, rmlen);
      Monotone(0, packets, sizes.mss);
      if established {
        GrownIsMonotone(cwnd, ssthresh, sizes.mss, packets);
        cwnd := Grown(cwnd, ssthresh, sizes.mss, packets);
      }
    }

    /** New data is acknowledged (src/usnet/tcp.c:298-346). */
    method OnProgress(ackSeq: u32, established: bool)
      requires Valid() && 0 < Ahead(ackSeq, sndUna) <= SNDBUF_SIZE
      modifies `cwnd, `sndUna, `unaPos
      ensures Valid() && sndUna == ackSeq && unaPos == old(unaPos) + Ahead(ackSeq, old(sndUna)) && old(cwnd) <= cwnd
      ensures cwnd == if established then Grown(old(cwnd), ssthresh, sizes.mss, Packets(Wrap32(ackSeq - old(sndUna)), sizes.effMss)) else old(cwnd)
    {
      hide Wrap32, Packets, Grown;
      var rmlen := Wrap32(ackSeq - sndUna);
      AheadIsDistance(ackSeq, sndUna);
      Moved(ackSeq, unaPos);
      Grow(rmlen, established);
      unaPos := unaPos + rmlen;
      sndUna := ackSeq;
    }

    predicate UpdatesWindow(seqNo: u32, ackSeq: u32, window: u32)
      reads `sndWl1, `sndWl2, `peerWnd
    {
      SeqLt(sndWl1, seqNo) || (sndWl1 == seqNo && SeqLt(sndWl2, ackSeq)) || (sndWl2 == ackSeq && window > peerWnd)
    }

    /** The duplicate test: old data, same number as before, no payload, and the window's right edge unmoved. */
    predicate Duplicate(seqNo: u32, ackSeq: u32, window: u32, payloadLen: nat)
      reads this
    {
      && SeqLt(ackSeq, sndNxt) && ackSeq == lastAckSeq && payloadLen == 0
      && (UpdatesWindow(seqNo, ackSeq, window) ==> Wrap32(ackSeq + window) == Wrap32(peerWnd + sndWl2))
    }

    /** The third duplicate in a row. */
    predicate Triggers(seqNo: u32, ackSeq: u32, window: u32, payloadLen: nat)
      reads this
    {
      Duplicate(seqNo, ackSeq, window, payloadLen) && dupAcks == 2
    }

    /** src/usnet/tcp.c:185-234. */
    method Note(seqNo: u32, ackSeq: u32, window: u32, payloadLen: nat) returns (dup: bool)
      requires window < 0x4000_0000
      modifies `peerWnd, `sndWl1, `sndWl2, `dupAcks, `lastAckSeq
      ensures dup == old(Duplicate(seqNo, ackSeq, window, payloadLen))
      ensures if old(UpdatesWindow(seqNo, ackSeq, window)) then peerWnd == window && sndWl1 == seqNo && sndWl2 == ackSeq
              else peerWnd == old(peerWnd) && sndWl1 == old(sndWl1) && sndWl2 == old(sndWl2)
      ensures dupAcks == if dup then Wrap16(old(dupAcks) + 1) else 0
      ensures lastAckSeq == ackSeq
    {
      var rightEdge := Wrap32(peerWnd + sndWl2);
      if UpdatesWindow(seqNo, ackSeq, window) {
        peerWnd, sndWl1, sndWl2 := window, seqNo, ackSeq;
      }
      dup := SeqLt(ackSeq, sndNxt) && ackSeq == lastAckSeq && payloadLen == 0 && Wrap32(sndWl2 + peerWnd) == rightEdge;
      if dup {
        dupAcks := Wrap16(dupAcks + 1);
      } else {
        dupAcks, lastAckSeq := 0, ackSeq;
      }
    }

    /** What the answer depends on: the number against the buffer. */
    function Answer(ackSeq: u32, bufLen: nat): int
      reads `sndUna
    {
      if SeqGt(ackSeq, Wrap32(sndUna + bufLen)) then -1 else if SeqGeq(sndUna, ackSeq) then -2 else 0
    }

    /** The answer by stream positions: beyond the buffer, not new, or new. */
    lemma AnswerByPosition(p: int, bufLen: nat)
      requires Valid() && Near(p, unaPos) && Near(p, unaPos + bufLen)
      ensures Answer(Wrap32(p), bufLen) == if p > unaPos + bufLen then -1 else if p <= unaPos then -2 else 0
    {
      hide Wrap32, SeqGt, SeqGeq;
      WrapAdd(unaPos, bufLen);
      SeqOrder(p, unaPos + bufLen);
      SeqOrder(unaPos, p);
    }

    /** src/usnet/tcp.c:185-291: everything before the test for new data. */
    method Judge(seqNo: u32, ackSeq: u32, window: u32, payloadLen: nat)
      requires Valid() && window < 0x4000_0000
      modifies `cwnd, `ssthresh, `sndNxt, `peerWnd, `sndWl1, `sndWl2, `dupAcks, `lastAckSeq
      ensures Valid()
      ensures sndNxt == if old(Triggers(seqNo, ackSeq, window, payloadLen)) || SeqGt(ackSeq, old(sndNxt)) then ackSeq else old(sndNxt)
      ensures if old(UpdatesWindow(seqNo, ackSeq, window)) then peerWnd == window && sndWl1 == seqNo && sndWl2 == ackSeq
              else peerWnd == old(peerWnd) && sndWl1 == old(sndWl1) && sndWl2 == old(sndWl2)
      ensures dupAcks == if old(Duplicate(seqNo, ackSeq, window, payloadLen)) then Wrap16(old(dupAcks) + 1) else 0
      ensures lastAckSeq == ackSeq
      ensures var third := old(Triggers(seqNo, ackSeq, window, payloadLen));
              && ssthresh == JudgedSsthresh(third, old(cwnd), old(ssthresh), peerWnd, sizes.mss)
              && cwnd == JudgedCwnd(third, dupAcks, old(cwnd), peerWnd, sizes.mss)
    {
      hide Wrap32, Sizes, SeqGt, SeqLt, Halved, UpdatesWindow, JudgedCwnd, JudgedSsthresh;
      ThirdOnly(dupAcks);
      SeqExclusive(ackSeq, sndNxt);
      var dup := Note(seqNo, ackSeq, window, payloadLen);
      OnDuplicate(ackSeq, dup);
      if SeqGt(ackSeq, sndNxt) {
        sndNxt := ackSeq;
      }
    }

    /**
     usnet_process_ack, for every number but the half-way one over an empty buffer.  The windows and
     `snd_una` never suffer.  From an ordered state `snd_nxt` falls behind the send buffer, so that
     the next flush fails its assertion, if and only if the number is older than the buffer and
     either is the third duplicate or compares as newer than everything sent.
     */
    method ProcessAck(seqNo: u32, ackSeq: u32, window: u32, payloadLen: nat, bufLen: nat, established: bool) returns (ret: int)
      requires Valid() && window < 0x4000_0000 && bufLen <= SNDBUF_SIZE
      requires bufLen > 0 || Ahead(ackSeq, sndUna) != -0x8000_0000
      modifies this
      ensures Valid() && ret == old(Answer(ackSeq, bufLen))
      ensures ret == -1 ==> sndNxt == old(sndNxt) && lastAckSeq == old(lastAckSeq) && dupAcks == old(dupAcks)
                            && peerWnd == old(peerWnd) && sndWl1 == old(sndWl1) && sndWl2 == old(sndWl2)
                            && cwnd == old(cwnd) && ssthresh == old(ssthresh)
      ensures if ret == 0 then sndUna == ackSeq && unaPos == old(unaPos) + Ahead(ackSeq, old(sndUna)) > old(unaPos)
              else sndUna == old(sndUna) && unaPos == old(unaPos)
      ensures ret != -1 ==>
                && sndNxt == (if old(Triggers(seqNo, ackSeq, window, payloadLen)) || SeqGt(ackSeq, old(sndNxt)) then ackSeq else old(sndNxt))
                && dupAcks == (if old(Duplicate(seqNo, ackSeq, window, payloadLen)) then Wrap16(old(dupAcks) + 1) else 0)
                && lastAckSeq == ackSeq
                && if old(UpdatesWindow(seqNo, ackSeq, window)) then peerWnd == window && sndWl1 == seqNo && sndWl2 == ackSeq
                   else peerWnd == old(peerWnd) && sndWl1 == old(sndWl1) && sndWl2 == old(sndWl2)
      ensures ret != -1 ==>
                var third := old(Triggers(seqNo, ackSeq, window, payloadLen));
                var judged := JudgedCwnd(third, dupAcks, old(cwnd), peerWnd, sizes.mss);
                && ssthresh == JudgedSsthresh(third, old(cwnd), old(ssthresh), peerWnd, sizes.mss)
                && cwnd == if ret == 0 && established
                           then Grown(judged, ssthresh, sizes.mss, Packets(Wrap32(ackSeq - old(sndUna)), sizes.effMss))
                           else judged
      ensures old(Ordered()) ==>
                && (Ordered() || Behind())
                && (Behind() <==>
                    && ret == -2 && Ahead(ackSeq, old(sndUna)) < 0
                    && (old(Triggers(seqNo, ackSeq, window, payloadLen)) || SeqGt(ackSeq, old(sndNxt))))
    {
      hide Wrap32, Sizes, SeqGt, SeqLt, SeqGeq, Signed32, Duplicate, UpdatesWindow, Grown, Packets, JudgedCwnd, JudgedSsthresh;
      ghost var una, nxt := sndUna, sndNxt;
      NotBehind(nxt, una);
      if SeqGt(ackSeq, Wrap32(sndUna + bufLen)) {
        return -1;
      }
      NotBeyondBuffer(ackSeq, sndUna, bufLen);
      AheadOf(ackSeq, sndUna);
      TestsOf(ackSeq, sndUna, sndNxt, Ahead(ackSeq, sndUna), Flight());
      ghost var moved := Triggers(seqNo, ackSeq, window, payloadLen) || SeqGt(ackSeq, sndNxt);
      Judge(seqNo, ackSeq, window, payloadLen);
      if SeqGeq(sndUna, ackSeq) {
        ret := -2;
        if old(Ordered()) {
          OrderWithoutProgress(ackSeq, una, nxt, moved);
        }
        return;
      }
      if old(Ordered()) {
        OrderWithProgress(ackSeq, una, nxt, moved);
      }
      OnProgress(ackSeq, established);
      ret := 0;
    }

    /** 500 bytes are in flight after number 501; number 1 arrives once more. */
    method Again()
      requires Valid() && sndUna == 501 && sndNxt == 1001 && lastAckSeq == 1 && sndWl1 == 7 && sndWl2 == 501 && dupAcks <= 2
      modifies this
      ensures Valid() && sndUna == 501 && lastAckSeq == 1 && sndWl1 == 7 && sndWl2 == 501
      ensures dupAcks == old(dupAcks) + 1 && sndNxt == if old(dupAcks) == 2 then 1 else 1001
    {
      hide Wrap32, Sizes, SeqLt, SeqGt, SeqGeq;
      OldNumbers();
      Fits32(1001);
      assert Duplicate(7, 1, 30000, 0);
      var _ := ProcessAck(7, 1, 30000, 0, 500, true);
    }

    /**
     Such acknowledgements exist: a connection that sent 1000 bytes, had the first 500 acknowledged
     and then sees the older number of its handshake four times is behind its send buffer.
     */
    static method StaleDuplicate() returns (s: Sender)
      ensures fresh(s) && s.Valid() && s.Behind()
    {
      hide Wrap32, Sizes, SeqLt, SeqGt, SeqGeq;
      OldNumbers();
      NewNumbers();
      s := new Sender(Mss(1460, 1448), false, 0, 30000);
      var r := s.SendOne(1000, true);
      r := s.ProcessAck(7, 501, 30000, 0, 1000, true);
      r := s.ProcessAck(7, 1, 30000, 0, 500, true);
      s.Again();
      s.Again();
      s.Again();
    }

    ghost function Seen(): Moment
      reads this
    {
      Moment(sndUna, sndNxt, lastAckSeq, dupAcks, sndWl1, sndWl2, peerWnd, cwnd, ssthresh)
    }

    /**
     What an arriving segment does to the windows: usnet_tcp_input overwrites `peer_wnd` with the
     window it scaled (src/usnet/tcp.c:1121-1127); usnet_process_ack steps an acknowledgement of our
     FIN back onto the last byte (src/usnet/tcp.c:165-174) and goes on.
     */
    method Arrive(e: Event) returns (ret: int)
      requires Valid() && e.Ack? && Fits(e)
      requires e.bufLen > 0 || Ahead(e.Number(), sndUna) != -0x8000_0000
      modifies this
      ensures Valid() && ret == old(Answer(e.Number(), e.bufLen))
      ensures unaPos == old(unaPos) + (if ret == 0 then Ahead(e.Number(), old(sndUna)) else 0) >= old(unaPos)
      ensures Seen() == old(Seen()).AfterAck(e, sizes)
    {
      hide Wrap32, Wrap16, SeqLt, SeqGt, SeqGeq, Inc32, Signed32, Ahead, Grown, Packets, JudgedCwnd, JudgedSsthresh;
      peerWnd := e.overwrite;
      ret := ProcessAck(e.seqNo, e.Number(), e.window, e.payloadLen, e.bufLen, true);
    }

    /** One segment: the window test, and `snd_nxt` after it (src/usnet/tcp_out.c:679-698, 338). */
    method SendOne(len: u16, wire: bool) returns (ret: int)
      requires Valid() && !Behind()
      modifies `sndNxt
      ensures Valid() && !Behind() && (ret < 0 ==> sndNxt == old(sndNxt))
      ensures ret == -3 <==> old(Flight()) + len > Min(cwnd, peerWnd)
      ensures ret == -2 <==> ret != -3 && !wire
      ensures ret < 0 ==> ret == -3 || ret == -2
      ensures ret >= 0 ==> Flight() == old(Flight()) + len <= Min(cwnd, peerWnd) && sndNxt == Wrap32(old(sndNxt) + len)
    {
      hide Wrap32, Sizes, SeqLt;
      var window := Min(cwnd, peerWnd);
      NotBehindIff(sndNxt, sndUna);
      Fits32(Flight() + len);
      if Wrap32(Flight() + len) > window {
        return -3;
      }
      if !wire {
        return -2;
      }
      Further(sndNxt, sndUna, len);
      sndNxt := Wrap32(sndNxt + len);
      NotBehindIff(sndNxt, sndUna);
      ret := len;
    }

    /**
     The loop of usnet_flush_tcp_sendbuf over the segments the buffer offers: its assertion fails
     exactly if `snd_nxt` is behind on entry; otherwise segments go out in order, the bytes in flight fit
     both windows after each, and the loop stops only where the buffer is empty, the wire refuses or the
     window is full.
     */
    method Flush(offers: seq<Offer>) returns (failed: bool, packets: nat, ghost flights: seq<int>)
      requires Valid()
      modifies `sndNxt
      ensures Valid() && (failed <==> offers != [] && old(Behind())) && (failed ==> sndNxt == old(sndNxt))
      ensures packets == |flights| <= |offers|
      ensures forall f <- flights :: 0 <= f <= Min(cwnd, peerWnd)
      ensures Adds(old(Flight()), offers, flights)
      ensures !failed && packets < |offers| ==>
                offers[packets].len == 0 || !offers[packets].wire || Flight() + offers[packets].len > Min(cwnd, peerWnd)
      ensures Flight() == if flights == [] then old(Flight()) else flights[|flights| - 1]
      ensures !old(Behind()) ==> !Behind()
    {
      hide Wrap32, Sizes, SeqLt;
      failed, packets, flights := false, 0, [];
      for i := 0 to |offers|
        invariant Valid() && packets == |flights| <= i && (i > 0 ==> !old(Behind()))
        invariant if i == 0 then sndNxt == old(sndNxt) else !Behind()
        invariant forall f <- flights :: 0 <= f <= Min(cwnd, peerWnd)
        invariant packets == i
        invariant Adds(old(Flight()), offers, flights)
        invariant Flight() == if flights == [] then old(Flight()) else flights[|flights| - 1]
      {
        if SeqLt(sndNxt, sndUna) {
          failed := true;
          return;
        }
        if offers[i].len == 0 {
          return;
        }
        ghost var before := Flight();
        var r := SendOne(offers[i].len, offers[i].wire);
        if r < 0 {
          return;
        }
        AddsMore(old(Flight()), offers, flights, before, Flight());
        packets := packets + 1;
        flights := flights + [Flight()];
      }
    }

    method Step(e: Event) returns (ok: bool)
      requires Valid() && Fits(e)
      modifies this
      ensures Valid() && unaPos >= old(unaPos)
      ensures ok ==> Follows(e, sizes, old(Seen()), Seen())
      ensures ok <==> !(e.Send? && e.offers != [] && old(Behind())) && !(e.Ack? && old(Halfway(e)))
      ensures !ok ==> Seen() == old(Seen())
    {
      hide Wrap32, SeqLt, Ahead, Answer, Moment.AfterAck, Halved;
      ok := true;
      match e
      case Expire =>
        Timeout();
      case Send(offers) =>
        var failed, _, _ := Flush(offers);
        ok := !failed;
      case Ack(_, _, _, _, _, _, _) =>
        if Halfway(e) {
          return false;
        }
        var _ := Arrive(e);
    }

    /** The one acknowledgement number that has no order, over an empty send buffer. */
    predicate Halfway(e: Event)
      requires e.Ack?
      reads `sndUna
    {
      e.bufLen == 0 && Ahead(e.Number(), sndUna) == -0x8000_0000
    }

    /**
     Every run of an established connection, also after acknowledgements that put `snd_nxt` behind:
     the congestion window is never below one segment, the threshold not below two from the first
     loss on, be it a timeout or a third duplicate, and `snd_una` never goes back.  A run ends early
     only where a flush fails its assertion, or at the number that has no order.  `moments` are the
     numbers and windows before each event and at the end; each follows from the one before and the
     event, in particular both windows.
     */
    method Run(events: seq<Event>) returns (done: nat, ghost moments: seq<Moment>)
      requires Valid() && forall e <- events :: Fits(e)
      modifies this
      ensures Valid() && done <= |events| && unaPos >= old(unaPos) && cwnd >= sizes.mss
      ensures |moments| == done + 1 && moments[0] == old(Seen()) && moments[done] == Seen()
      ensures forall i | 0 <= i < done :: Follows(events[i], sizes, moments[i], moments[i + 1])
      ensures forall m <- moments :: m.cwnd >= sizes.mss
      ensures old(ssthresh) > 0 ==> ssthresh >= 2 * sizes.mss
      ensures (exists i :: 0 <= i < done && IsLoss(events[i], moments[i])) ==> ssthresh >= 2 * sizes.mss
      ensures done < |events| ==>
                (events[done].Send? && Behind()) || (events[done].Ack? && Halfway(events[done]))
    {
      hide Wrap32, SeqLt, Sizes, Follows, IsLoss;
      moments := [Seen()];
      for i := 0 to |events|
        invariant Valid() && unaPos >= old(unaPos) && (old(ssthresh) > 0 ==> ssthresh >= 2 * sizes.mss)
        invariant |moments| == i + 1 && moments[0] == old(Seen()) && moments[i] == Seen()
        invariant forall j | 0 <= j < i :: Follows(events[j], sizes, moments[j], moments[j + 1])
        invariant forall m <- moments :: m.cwnd >= sizes.mss
        invariant (exists j :: 0 <= j < i && IsLoss(events[j], moments[j])) ==> ssthresh >= 2 * sizes.mss
      {
        var ok := Step(events[i]);
        if !ok {
          return i, moments;
        }
        LossTells(events[i], sizes, moments[i], Seen());
        moments := moments + [Seen()];
      }
      return |events|, moments;
    }
  }

  /** The wire took offer `i`, and it added its length to the bytes in flight. */
  ghost predicate Added(start: int, offers: seq<Offer>, flights: seq<int>, i: nat)
    requires i < |flights| <= |offers|
  {
    offers[i].wire && flights[i] == (if i == 0 then start else flights[i - 1]) + offers[i].len
  }

  ghost predicate Adds(start: int, offers: seq<Offer>, flights: seq<int>)
  {
    |flights| <= |offers| && forall i: nat {:trigger Added(start, offers, flights, i)} | i < |flights| :: Added(start, offers, flights, i)
  }

  lemma AddsMore(start: int, offers: seq<Offer>, flights: seq<int>, before: int, after: int)
    requires Adds(start, offers, flights) && |flights| < |offers| && offers[|flights|].wire
    requires before == (if |flights| == 0 then start else flights[|flights| - 1]) && after == before + offers[|flights|].len
    ensures Adds(start, offers, flights + [after])
  {
    var more := flights + [after];
    forall i: nat | i < |more|
      ensures Added(start, offers, more, i)
    {
      if i < |flights| {
        assert Added(start, offers, flights, i);
      }
    }
  }

  /** The numbers and windows of a sender that acknowledgements are judged by. */
  datatype Moment = Moment(una: u32, nxt: u32, last: u32, dups: u16, wl1: u32, wl2: u32, peer: u32, cwnd: u32, ssthresh: u32) {
    /** The duplicate test for an arriving segment, which has overwritten `peer_wnd` by then. */
    predicate Repeats(e: Event)
      requires e.Ack?
    {
      SeqLt(e.Number(), nxt) && e.Number() == last && e.payloadLen == 0 && (Updates(e) ==> Wrap32(e.Number() + e.window) == Wrap32(e.overwrite + wl2))
    }

    predicate Updates(e: Event)
      requires e.Ack?
    {
      SeqLt(wl1, e.seqNo) || (wl1 == e.seqNo && SeqLt(wl2, e.Number())) || (wl2 == e.Number() && e.window > e.overwrite)
    }

    predicate Beyond(e: Event)
      requires e.Ack?
    {
      SeqGt(e.Number(), Wrap32(una + e.bufLen))
    }

    /** The third duplicate in a row. */
    predicate Third(e: Event)
      requires e.Ack?
    {
      Repeats(e) && dups == 2
    }

    /** What an acknowledgement makes of it. */
    function AfterAck(e: Event, sizes: Mss): Moment
      requires e.Ack? && cwnd >= sizes.mss > 0 && sizes.effMss > 0
    {
      var n := e.Number();
      if Beyond(e) then this.(peer := e.overwrite)
      else
        var peer' := if Updates(e) then e.window else e.overwrite;
        var dups' := if Repeats(e) then Wrap16(dups + 1) else 0;
        var ssthresh' := JudgedSsthresh(Third(e), cwnd, ssthresh, peer', sizes.mss);
        var judged := JudgedCwnd(Third(e), dups', cwnd, peer', sizes.mss);
        Moment(if SeqGeq(una, n) then una else n,
               if Third(e) || SeqGt(n, nxt) then n else nxt,
               n, dups',
               if Updates(e) then e.seqNo else wl1, if Updates(e) then n else wl2, peer',
               if SeqGeq(una, n) then judged else Grown(judged, ssthresh', sizes.mss, Packets(Wrap32(n - una), sizes.effMss)),
               ssthresh')
    }
  }

  /** What an event makes of the sender's numbers and windows; a flush only moves `snd_nxt`. */
  ghost predicate Follows(e: Event, sizes: Mss, m: Moment, m': Moment)
  {
    && Sizes(sizes) && m.cwnd >= sizes.mss
    && match e
       case Ack(_, _, _, _, _, _, _) => m' == m.AfterAck(e, sizes)
       case Expire => m' == m.(nxt := m.una, cwnd := sizes.mss, ssthresh := Halved(m.cwnd, m.peer, sizes.mss))
       case Send(_) => m' == m.(nxt := m'.nxt)
  }

  /**
   The numbers are those by which the connection decides about its timers: both models of
   usnet_process_ack move them alike.
   */
  lemma AsConnection(e: Event, sizes: Mss, m: Moment, state: C.State, finSent: bool, fss: u32, snd: C.SendVars, seg: C.Segment, env: C.Env)
    requires e.Ack? && m.cwnd >= sizes.mss > 0 && sizes.effMss > 0
    requires seg.ackSeq == e.ackSeq && env.sndbuf && env.bufLen == e.bufLen && env.third == (!m.Beyond(e) && m.Third(e))
    requires e.fss == (if finSent && !state.ESTABLISHED? then Some(fss) else None)
    requires snd.nxt == m.nxt && snd.una == snd.head == m.una
    ensures var acked := C.AckedBy(state, finSent, fss, snd, seg, env);
            acked.nxt == m.AfterAck(e, sizes).nxt && acked.una == acked.head == m.AfterAck(e, sizes).una
  {
    hide Wrap32, Grown, Packets, JudgedCwnd, JudgedSsthresh, Moment.Updates;
    SeqExclusive(e.Number(), m.nxt);
  }

  lemma LossTells(e: Event, sizes: Mss, m: Moment, m': Moment)
    requires Follows(e, sizes, m, m')
    ensures if IsLoss(e, m) then m'.ssthresh >= 2 * sizes.mss else m'.ssthresh == m.ssthresh
  {
  }

  /** A timeout, or an acknowledgement inside the buffer that is the third duplicate in a row. */
  predicate IsLoss(e: Event, m: Moment) { e.Expire? || (e.Ack? && !m.Beyond(e) && m.Third(e)) }

  /** What happens to a sender: an acknowledgement, an expired timer, or a flush that is offered segments. */
  datatype Event =
    | Ack(seqNo: u32, ackSeq: u32, overwrite: u32, window: u32, payloadLen: nat, bufLen: nat, fss: Option<u32>)
    | Expire
    | Send(offers: seq<Offer>)
  {
    /** The acknowledgement number after the step back over our FIN, sent at `fss` while closing. */
    function Number(): u32
      requires Ack?
    {
      if fss.Some? && ackSeq == Inc32(fss.value) then fss.value else ackSeq
    }
  }

  /** A segment of `len` bytes taken from the send buffer, and whether the wire takes it. */
  datatype Offer = Offer(len: u16, wire: bool)

  /** Windows as scaled by at most 14 bits (section 2.3 of RFC 7323), and what a send buffer can hold. */
  predicate Fits(e: Event)
  {
    e.Ack? ==> e.overwrite < 0x4000_0000 && e.window < 0x4000_0000 && e.bufLen <= SNDBUF_SIZE
  }

  lemma OldNumbers()
    ensures Wrap32(501 + 500) == 1001 && Wrap32(1 + 1000) == 1001
    ensures !SeqGt(1, 1001) && SeqGeq(501, 1) && SeqLt(1, 1001) && SeqLt(1, 501) && !SeqLt(501, 1) && !SeqLt(7, 7)
    ensures Ahead(1, 501) == -500 && Wrap16(0 + 1) == 1 && Wrap16(1 + 1) == 2 && Wrap16(2 + 1) == 3
  {
    assert Wrap32(1 - 501) == 4294966796;
  }

  lemma NewNumbers()
    ensures !SeqGt(501, 1001) && !SeqGeq(1, 501) && SeqLt(0xFFFF_FFFF, 7) && Ahead(501, 1) == 500 && !SeqLt(1, 1)
    ensures Sizes(Mss(1460, 1448))
  {
  }

  lemma NotBehindIff(nxt: u32, una: u32)
    ensures SeqLt(nxt, una) <==> Wrap32(nxt - una) >= 0x8000_0000
  {
  }

  lemma Further(nxt: u32, una: u32, len: nat)
    requires Wrap32(nxt - una) + len < 0x1_0000_0000
    ensures Wrap32(Wrap32(nxt + len) - una) == Wrap32(nxt - una) + len
  {
  }
}
