/**
 The round-trip estimator and the retransmission timeout (src/usnet/tcp.c:88-134, 312-317,
 src/usnet/timer.c:86-90, 217-259), sections 2 and 5 of RFC 6298: `srtt` is kept times eight and
 `mdev` times four, in 32-bit unsigned fields.
 */
module Rtt {
  import opened Words
  import opened SeqNum

  const TCP_INITIAL_RTO: u32 := 500
  const TCP_MAX_RTX: nat := 16
  const TCP_MAX_BACKOFF: nat := 7

  function Pow2(k: nat): nat { if k == 0 then 1 else 2 * Pow2(k - 1) }

  /** `x << k` in `uint32_t`. */
  function Shl(x: nat, k: nat): u32 { Wrap32(x * Pow2(k)) }

  /** The new `srtt` for measurement `m`. */
  function Smooth(srtt: u32, m: int): u32 { Wrap32(srtt + (m - srtt / 8)) }

  /** The new `mdev` when the measurement differs from the average by `err`. */
  function Deviate(mdev: u32, err: int): u32
  {
    if err < 0 then
      var d := -err - mdev / 4;
      Wrap32(mdev + if d > 0 then d / 8 else d)
    else Wrap32(mdev + (err - mdev / 4))
  }

  /** With samples between `lo` and `hi` the average stays between them, to the tick. */
  lemma SmoothBounded(srtt: u32, m: int, lo: nat, hi: nat)
    requires 8 * lo <= srtt <= 8 * hi && lo <= m <= hi && 8 * hi < 0x1_0000_0000
    ensures 8 * lo <= Smooth(srtt, m) <= 8 * hi && Smooth(srtt, m) == srtt - srtt / 8 + m
  {
  }

  lemma DeviateBounded(mdev: u32, err: int, hi: int)
    requires mdev <= 4 * hi && -hi <= err <= hi && 4 * hi < 0x1_0000_0000
    ensures Deviate(mdev, err) <= 4 * hi
  {
  }

  /** The integer average never falls below the exact one, and is less than one tick above it. */
  lemma SmoothIsAverage(srtt: u32, m: int, exact: real, hi: nat)
    requires 0.0 <= srtt as real - exact <= 7.0 && srtt <= 8 * hi && 0 <= m <= hi && 8 * hi < 0x1_0000_0000
    ensures 0.0 <= Smooth(srtt, m) as real - (exact - exact / 8.0 + m as real) <= 7.0
  {
    var q, r := srtt / 8, srtt % 8;
    assert srtt == 8 * q + r;
    assert srtt as real == 8.0 * q as real + r as real;
    SmoothBounded(srtt, m, 0, hi);
    assert Smooth(srtt, m) as real == srtt as real - q as real + m as real;
  }

  /**
   The deviation (times four) is the average of section 2 of RFC 6298 to within a tick, except that
   when the round trip fell by more than the deviation it grows by no more than that average would.
   */
  lemma DeviateIsAverage(mdev: u32, err: int, hi: int)
    requires mdev <= 4 * hi && -hi <= err <= hi && 4 * hi < 0x1_0000_0000
    ensures var size := if err < 0 then -err else err;
            var average := mdev as real * 3.0 / 4.0 + size as real;
            && Deviate(mdev, err) as real - average <= 0.75
            && (err >= 0 || -err <= mdev / 4 ==> 0.0 <= Deviate(mdev, err) as real - average)
            && (err < 0 && -err > mdev / 4 ==> mdev <= Deviate(mdev, err) <= mdev + (-err - mdev / 4) / 8)
  {
    var q, r := mdev / 4, mdev % 4;
    assert mdev as real == 4.0 * q as real + r as real;
    if err < 0 {
      var d := -err - q;
      Fits32(mdev + if d > 0 then d / 8 else d);
      assert Deviate(mdev, err) == mdev + if d > 0 then d / 8 else d;
    } else {
      Fits32(mdev + (err - q));
      assert Deviate(mdev, err) == mdev + (err - q);
    }
  }

  lemma Pow2Bounded(k: nat)
    requires k <= TCP_MAX_BACKOFF
    ensures 1 <= Pow2(k) <= 128
  {
    assert Pow2(7) == 128;
    Pow2Monotone(k, 7);
  }

  lemma {:induction false} Pow2Monotone(j: nat, k: nat)
    requires j <= k
    ensures 1 <= Pow2(j) <= Pow2(k)
    decreases k
  {
    if j < k {
      Pow2Monotone(j, k - 1);
    } else if k > 0 {
      Pow2Monotone(j - 1, k - 1);
    }
  }

  /** The timeout after a first measurement `m`, and exactly when the assertion after it fails. */
  lemma FreshTimeoutIsPositive(m: int)
    requires 1 <= m < 0x1_0000_0000
    ensures Wrap32(Wrap32(8 * m) / 8 + Wrap32(2 * m)) == 0 <==> m == 0x8000_0000
  {
    var a := m / 0x2000_0000;
    var b := m % 0x2000_0000;
    assert m == 0x2000_0000 * a + b && 0 <= a < 8;
    assert Wrap32(8 * m) == 8 * b;
    assert a == 0 || a == 1 || a == 2 || a == 3 || a == 4 || a == 5 || a == 6 || a == 7;
  }

  /**
   An acknowledgement of new data with a measurement or without a timestamp to take one from, an
   expiry of the timer in some state, or a fast retransmission.
   */
  datatype Event =
    | Sample(mrtt: u32, sndUna: u32, sndNxt: u32)
    | Unmeasured
    | Expire(established: bool)
    | FastRetransmit

  /** The estimate at one moment. */
  datatype Moment = Moment(srtt: u32, mdev: u32, mdevMax: u32, rttvar: u32, rttSeq: u32, rto: u32, nrtx: nat)

  /** `rttvar` and what it follows after a measurement that left the deviation at `mdev` (src/usnet/tcp.c:115-127). */
  predicate Settles(rttvar: u32, mdevMax: u32, rttSeq: u32, mdev: u32, sndUna: u32, sndNxt: u32, rttvar': u32, mdevMax': u32, rttSeq': u32)
  {
    var top := Max(rttvar, mdev);
    if SeqGt(sndUna, rttSeq) then
      rttSeq' == sndNxt && mdevMax' == 0 && rttvar' == top - (top - Max(mdevMax, mdev)) / 4
    else rttSeq' == rttSeq && rttvar' == top && mdevMax' == Max(mdevMax, mdev)
  }

  /** What an event makes of the estimate. */
  predicate Follows(e: Event, m: Moment, m': Moment)
  {
    match e
    case Sample(mrtt, sndUna, sndNxt) =>
      && var t := Max(mrtt, 1);
      && m'.rto == m'.srtt / 8 + m'.rttvar && m'.nrtx == 0
      && if m.srtt == 0 then m'.srtt == 8 * t && m'.mdev == m'.mdevMax == m'.rttvar == 2 * t && m'.rttSeq == sndNxt
         else && m'.srtt == Smooth(m.srtt, t) && m'.mdev == Deviate(m.mdev, t - m.srtt / 8)
              && Settles(m.rttvar, m.mdevMax, m.rttSeq, m'.mdev, sndUna, sndNxt, m'.rttvar, m'.mdevMax, m'.rttSeq)
    case Unmeasured => m' == m.(nrtx := 0)
    case FastRetransmit => m' == m.(nrtx := if m.nrtx < TCP_MAX_RTX then m.nrtx + 1 else m.nrtx)
    case Expire(established) =>
      && m' == m.(nrtx := m'.nrtx, rto := m'.rto)
      && m'.nrtx == (if m.nrtx < TCP_MAX_RTX then m.nrtx + 1 else m.nrtx)
      && m'.rto == if m.nrtx < TCP_MAX_RTX && established && m.srtt != 0
                   then (m.srtt / 8 + m.rttvar) * Pow2(Min(m'.nrtx, TCP_MAX_BACKOFF)) else m.rto
  }

  class Estimator {
    var srtt: u32
    var mdev: u32
    var mdevMax: u32
    var rttvar: u32
    var rttSeq: u32
    var rto: u32
    var nrtx: nat

    /** Bounds on every sample so far, and the exact average (times eight) of the samples. */
    ghost const lo: nat
    ghost const hi: nat
    ghost var exact: real

    /** Every estimate stays within what the samples allow, and the timeout is positive. */
    ghost predicate Valid()
      reads this
    {
      && 1 <= lo <= hi && 640 * hi < 0x1_0000_0000
      && (if srtt == 0 then mdev == mdevMax == rttvar == 0 && rto == TCP_INITIAL_RTO
          else && 8 * lo <= srtt <= 8 * hi && mdev <= 4 * hi && mdevMax <= rttvar <= 4 * hi
               && lo <= rto <= 128 * (5 * hi)
               && 0.0 <= srtt as real - exact <= 7.0)
    }

    constructor (ghost lo: nat, ghost hi: nat)
      requires 1 <= lo <= hi && 640 * hi < 0x1_0000_0000
      ensures Valid() && srtt == 0 && this.lo == lo && this.hi == hi
    {
      this.lo, this.hi, exact := lo, hi, 0.0;
      srtt, mdev, mdevMax, rttvar, rttSeq, rto, nrtx := 0, 0, 0, 0, 0, TCP_INITIAL_RTO, 0;
    }

    /** src/usnet/tcp.c:102-114. */
    method Update(m: int)
      requires Valid() && srtt != 0 && lo <= m <= hi
      modifies `srtt, `mdev, `exact
      ensures Valid() && srtt != 0 && exact == old(exact) - old(exact) / 8.0 + m as real
      ensures srtt == Smooth(old(srtt), m) && mdev == Deviate(old(mdev), m - old(srtt) / 8)
    {
      hide Smooth, Deviate;
      var err := m - srtt / 8;
      SmoothBounded(srtt, m, lo, hi);
      SmoothIsAverage(srtt, m, exact, hi);
      DeviateBounded(mdev, err, hi);
      srtt, mdev := Smooth(srtt, m), Deviate(mdev, err);
      exact := exact - exact / 8.0 + m as real;
    }

    function Seen(): Moment
      reads this
    {
      Moment(srtt, mdev, mdevMax, rttvar, rttSeq, rto, nrtx)
    }

    /** The first measurement (src/usnet/tcp.c:129-133). */
    method Begin(m: int, sndNxt: u32)
      requires Valid() && lo <= m <= hi
      modifies `srtt, `mdev, `mdevMax, `rttvar, `rttSeq, `exact
      ensures srtt == 8 * m && mdev == mdevMax == rttvar == 2 * m && exact == srtt as real && rttSeq == sndNxt
    {
      hide Wrap32;
      Fits32(8 * m);
      Fits32(2 * m);
      srtt, mdev := Wrap32(8 * m), Wrap32(2 * m);
      exact := srtt as real;
      mdevMax, rttvar, rttSeq := mdev, mdev, sndNxt;
    }

    /** The decay of `rttvar` once per round trip (src/usnet/tcp.c:115-127). */
    method Settle(sndUna: u32, sndNxt: u32)
      requires mdevMax <= rttvar
      modifies `mdevMax, `rttvar, `rttSeq
      ensures mdevMax <= rttvar && mdev <= rttvar <= Max(old(rttvar), mdev)
      ensures Settles(old(rttvar), old(mdevMax), old(rttSeq), mdev, sndUna, sndNxt, rttvar, mdevMax, rttSeq)
    {
      if mdev > mdevMax {
        mdevMax := mdev;
        if mdevMax > rttvar {
          rttvar := mdevMax;
        }
      }
      if SeqGt(sndUna, rttSeq) {
        if mdevMax < rttvar {
          rttvar := rttvar - (rttvar - mdevMax) / 4;
        }
        rttSeq := sndNxt;
        mdevMax := 0;
      }
    }

    /**
     usnet_estimate_rtt and the timeout computed from it: between the smallest sample and five times
     the largest, so the assertion that it is positive holds.
     */
    method Measure(mrtt: u32, sndUna: u32, sndNxt: u32)
      requires Valid() && lo <= Max(mrtt, 1) <= hi
      modifies this
      ensures Valid() && srtt != 0 && lo <= rto <= 5 * hi && rto == srtt / 8 + rttvar && rttvar >= mdev
      ensures var m := Max(mrtt, 1);
              exact == if old(srtt) == 0 then (8 * m) as real else old(exact) - old(exact) / 8.0 + m as real
      ensures nrtx == old(nrtx) && Follows(Sample(mrtt, sndUna, sndNxt), old(Seen()), Seen().(nrtx := 0))
    {
      hide SeqGt, Wrap32, Smooth, Deviate, Settles;
      var m: int := if mrtt == 0 then 1 else mrtt;
      if srtt != 0 {
        Update(m);
        Settle(sndUna, sndNxt);
      } else {
        Begin(m, sndNxt);
      }
      Fits32(srtt / 8 + rttvar);
      rto := Wrap32(srtt / 8 + rttvar);
    }

    /** The backed-off timeout (src/usnet/timer.c:248-252); zero exactly while there is no sample. */
    method Scaled() returns (r: u32)
      requires Valid() && nrtx > 0
      ensures r == (srtt / 8 + rttvar) * Pow2(Min(nrtx, TCP_MAX_BACKOFF))
      ensures if srtt == 0 then r == 0 else lo <= r <= 128 * (5 * hi)
    {
      hide Wrap32;
      var backoff := Min(nrtx, TCP_MAX_BACKOFF);
      Pow2Bounded(backoff);
      ScaleBounded(srtt / 8 + rttvar, Pow2(backoff), hi);
      Fits32(srtt / 8 + rttvar);
      Fits32((srtt / 8 + rttvar) * Pow2(backoff));
      r := Shl(Wrap32(srtt / 8 + rttvar), backoff);
    }

    /** The timeout part of usnet_handle_rto; false when the retransmissions are exhausted. */
    method Backoff(established: bool) returns (ok: bool)
      requires Valid()
      modifies `nrtx, `rto
      ensures Valid() && (ok <==> old(nrtx) < TCP_MAX_RTX)
      ensures nrtx == old(nrtx) + if ok then 1 else 0
      ensures ok && established && srtt != 0 ==> rto == (srtt / 8 + rttvar) * Pow2(Min(nrtx, TCP_MAX_BACKOFF))
      ensures !(ok && established && srtt != 0) ==> rto == old(rto)
    {
      if nrtx >= TCP_MAX_RTX {
        return false;
      }
      nrtx := nrtx + 1;
      if established {
        var prev := rto;
        rto := Scaled();
        if rto <= 0 {
          rto := prev;
        }
      }
      ok := true;
    }

    /** usnet_update_retransmission_timer, at every acknowledgement of new data: its assertion holds, and the back-off starts anew. */
    method Restart()
      requires Valid()
      modifies `nrtx
      ensures Valid() && nrtx == 0
    {
      assert rto > 0;
      nrtx := 0;
    }

    /** src/usnet/tcp.c:260-265. */
    method CountRetransmission()
      requires Valid()
      modifies `nrtx
      ensures Valid() && nrtx == if old(nrtx) < TCP_MAX_RTX then old(nrtx) + 1 else old(nrtx)
    {
      if nrtx < TCP_MAX_RTX {
        nrtx := nrtx + 1;
      }
    }

    /** Every history: the bounds hold throughout, so none of the three assertions that `rto > 0` can fail. */
    method Run(events: seq<Event>) returns (ghost moments: seq<Moment>)
      requires Valid() && forall e <- events :: e.Sample? ==> lo <= Max(e.mrtt, 1) <= hi
      modifies this
      ensures Valid() && rto > 0
      ensures srtt != 0 ==> 8 * lo <= srtt <= 8 * hi && mdev <= 4 * hi && rttvar <= 4 * hi && lo <= rto <= 128 * (5 * hi)
      ensures (exists e <- events :: e.Sample?) ==> srtt != 0
      ensures |moments| == |events| + 1 && moments[0] == old(Seen()) && moments[|events|] == Seen()
      ensures forall i | 0 <= i < |events| :: Follows(events[i], moments[i], moments[i + 1])
    {
      hide Follows;
      moments := [Seen()];
      for i := 0 to |events|
        invariant Valid() && (old(srtt) != 0 ==> srtt != 0)
        invariant (exists j :: 0 <= j < i && events[j].Sample?) ==> srtt != 0
        invariant |moments| == i + 1 && moments[0] == old(Seen()) && moments[i] == Seen()
        invariant forall j | 0 <= j < i :: Follows(events[j], moments[j], moments[j + 1])
      {
        Step(events[i]);
        moments := moments + [Seen()];
      }
    }

    method Step(e: Event)
      requires Valid() && (e.Sample? ==> lo <= Max(e.mrtt, 1) <= hi)
      modifies this
      ensures Valid() && (e.Sample? || old(srtt) != 0 ==> srtt != 0)
      ensures Follows(e, old(Seen()), Seen())
    {
      hide Smooth, Deviate, Pow2, SeqGt;
      match e
      case Sample(mrtt, sndUna, sndNxt) =>
        Measure(mrtt, sndUna, sndNxt);
        Restart();
      case Unmeasured => Restart();
      case FastRetransmit => CountRetransmission();
      case Expire(established) =>
        var _ := Backoff(established);
    }
  }

  lemma ScaleBounded(x: nat, f: nat, hi: nat)
    requires x <= 5 * hi && 1 <= f <= 128
    ensures x <= x * f <= 128 * (5 * hi)
  {
    assert x * (f - 1) >= 0;
    assert x * (128 - f) >= 0;
  }
}
