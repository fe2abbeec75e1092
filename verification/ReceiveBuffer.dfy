/**
 The receive buffer of a connection (src/usnet/ringbuf.c): the byte ring's registers, the
 fragment list and `head_seq`, the next sequence number the connection will acknowledge.
 */
module ReceiveBuffer {
  import opened Words
  import opened SeqNum
  import opened Intervals
  import opened Reassembly
  import Ring

  /** Stream position of sequence number `s`, given that `headSeq` stands at `headPos`. */
  function PositionOf(s: u32, headSeq: u32, headPos: int): int
  {
    headPos + Wrap32(s - headSeq)
  }

  /** The list after the merged front fragment has been consumed (src/usnet/ringbuf.c:325-333). */
  lemma PopFront(l: seq<Iv>, headPos: int)
    requires Chain(l) && l != [] && l[0].lo == headPos
    ensures Chain(l[1..]) && (forall m | 1 <= m < |l| :: l[0].hi < l[m].lo)
    ensures forall p :: p < l[0].hi || Covers(l[1..], p) <==> p < headPos || Covers(l, p)
  {
    ChainTail(l);
    forall p
      ensures p < l[0].hi || Covers(l[1..], p) <==> p < headPos || Covers(l, p)
    {
      if Covers(l, p) {
        var i :| 0 <= i < |l| && l[i].Has(p);
        assert i > 0 ==> l[1..][i - 1].Has(p);
      }
      if Covers(l[1..], p) {
        var i :| 0 <= i < |l[1..]| && l[1..][i].Has(p);
        assert l[i + 1].Has(p);
      } else if headPos <= p < l[0].hi {
        assert l[0].Has(p);
      }
    }
  }

  /** The tests of src/usnet/ringbuf.c:225-239 for a ring of `size` bytes of which `avail` are free. */
  function Admission(headSeq: u32, size: nat, avail: int, seqNo: u32, len: nat): (r: int)
    ensures r <= 0
  {
    if MinSeq(headSeq, seqNo) != headSeq then -1
    else if len > size then -2
    else if Wrap32(seqNo - headSeq) + len > avail then -3
    else 0
  }

  /**
   The tests by stream positions, across any number of wraps: a segment at position `p` is refused as
   old exactly if it begins before the first gap, and admitted exactly if it begins at or after it, is
   no longer than the ring and ends inside the free bytes.
   */
  lemma AdmissionByPosition(headPos: int, size: nat, avail: int, p: int, len: nat)
    requires Near(p, headPos)
    ensures Admission(Wrap32(headPos), size, avail, Wrap32(p), len) ==
            if p < headPos then -1 else if len > size then -2 else if (p + len) - headPos > avail then -3 else 0
  {
    hide MinSeq, Wrap32;
    SeqOrder(headPos, p);
    WrapDifference(p, headPos);
    if p >= headPos {
      Fits32(p - headPos);
    }
  }

  /**
   What the registers show as free is what the ring does not hold, for `h - d` bytes between the
   positions of `data` and `head`.
   */
  lemma AvailIsFree(b: ReceiveBuffer, d: nat, h: nat)
    requires b.size > 0 && Ring.Apart(b.size, d, h) && b.data == Ring.Index(b.size, d) && b.head == Ring.Index(b.size, h)
    ensures b.Avail() == b.size - (h - d)
  {
    Ring.Distances(b.size, d, h);
  }

  /** An admitted in-order segment moves `head` to the register of the position behind its last byte. */
  lemma InOrderHead(b: ReceiveBuffer, h: nat, len: nat)
    requires 0 < b.size <= 0xFFFF && b.head == Ring.Index(b.size, h) && len <= b.size
    ensures b.HeadAfter(0, len) == Ring.Index(b.size, h + len)
  {
    Ring.AdvanceIndex(b.size, h, len);
  }

  /**
   Any other admitted segment moves `head` by its length too, wrapping with its copy.  The copy begins
   `dataOff` bytes further on, so that `head` ends `len` places on exactly if both wrap or neither does.
   */
  lemma HeadMovesIff(b: ReceiveBuffer, dataOff: nat, len: nat)
    requires 0 < b.size <= 0xFFFF && b.head <= b.size && dataOff + len <= b.size
    ensures b.HeadAfter(dataOff, len) == Ring.Advance(b.size, b.head, len) <==>
            (b.head + len > b.size <==> b.head + dataOff <= b.size < b.head + dataOff + len)
  {
  }

  /** Otherwise `head` can leave the ring: four bytes three places on, in an empty ring of ten with both registers at 8. */
  lemma HeadLeavesRing(b: ReceiveBuffer)
    requires b.size == 10 && b.head == b.data == 8
    ensures Admission(100, b.size, b.Avail(), 103, 4) == 0 && b.HeadAfter(3, 4) == 12
  {
  }

  /** The window is the free bytes less one, unless the ring was filled before anything was read; then it is the largest there is. */
  lemma WindowIff(size: nat, data: nat, head: nat)
    requires 0 < size <= 0xFFFF && data <= size && head <= size
    ensures Wrap32(Ring.Free(size, data, head) - 1) == Ring.Free(size, data, head) - 1 <==> !(data == 0 && head == size)
    ensures Wrap32(Ring.Free(size, 0, size) - 1) == 0xFFFF_FFFF
  {
  }

  /** A head that moved over received positions only is still inside the old window. */
  lemma HeadStaysInWindow(was: seq<Iv>, headWas: int, now: seq<Iv>, headNow: int, x: Iv)
    requires Within(was, headWas) && x.hi <= headWas + 0xFFFF
    requires forall p :: p < headNow || Covers(now, p) ==> p < headWas || Covers(was, p) || x.Has(p)
    ensures headNow <= headWas + 0xFFFF
  {
    var q := headWas + 0xFFFF;
    assert !Covers(was, q);
  }

  class ReceiveBuffer {
    const size: nat
    const frags: FragmentList
    var data: u16
    var head: u16
    var headSeq: u32
    var lastSeq: u32
    var mergedLen: u32
    var win: u32

    /** Stream position of `headSeq`. */
    ghost var headPos: int

    /** Position `p` has been received: it lies below `headPos` or in a fragment. */
    ghost predicate Got(p: int)
      reads `headPos, frags`ivs
    {
      p < headPos || Covers(frags.ivs, p)
    }

    ghost predicate Valid()
      reads `headSeq, `headPos, frags`first, frags`nodes, frags`ivs, frags`repr, frags.repr
    {
      && 0 < size <= 0xFFFF
      && frags.Valid()
      && headSeq == Wrap32(headPos)
      && Within(frags.ivs, headPos) && (frags.ivs != [] ==> headPos < frags.ivs[0].lo)
    }

    /** usnet_get_ringbuf (src/usnet/ringbuf.c:104-110). */
    constructor (size: nat, initSeq: u32, poolFree: nat)
      requires 0 < size <= 0xFFFF
      ensures Valid() && fresh(frags) && frags.repr == {} && frags.ivs == []
      ensures headPos == initSeq && headSeq == initSeq && data == 0 && head == 0 && this.size == size
    {
      this.size := size;
      frags := new FragmentList(poolFree);
      data, head, headSeq, lastSeq, mergedLen, win := 0, 0, initSeq, initSeq, 0, 0;
      headPos := initSeq;
    }

    /** Everything below `headPos` has been received and `headPos` has not: it is where the first gap begins. */
    lemma HeadIsFirstGap()
      requires Valid()
      ensures !Got(headPos) && forall p | p < headPos :: Got(p)
    {
      if frags.ivs != [] {
        ChainTail(frags.ivs);
      }
    }

    function Avail(): int
      reads this
    {
      if data > head then data - head else data + size - head
    }

    /** src/usnet/ringbuf.c:247-263: where `head` is left; the copies themselves are in ReceiveRing. */
    function HeadAfter(dataOff: int, len: int): u16
      reads this
    {
      var start := head + dataOff;
      var startOff := if start > size then start - size else start;
      if size - startOff >= len then Wrap16(head + len) else Wrap16(head + len - size)
    }

    /** src/usnet/ringbuf.c:325-333. */
    method Deliver()
      requires frags.Valid() && 0 < size <= 0xFFFF && headSeq == Wrap32(headPos) && Within(frags.ivs, headPos)
      requires frags.ivs != []
      modifies `headSeq, `mergedLen, `headPos, frags
      ensures Valid() && frags.repr == old(frags.repr)
      ensures forall p :: Got(p) <==> old(Got(p))
      ensures headPos >= old(headPos)
      ensures mergedLen == if headPos == old(headPos) then old(mergedLen) else headPos - old(headPos)
      ensures frags.poolFree + |frags.ivs| == old(frags.poolFree + |frags.ivs|)
    {
      var front := frags.first;
      ghost var l := frags.ivs;
      assert front == frags.nodes[0] && front.Coupled() && front.span == l[0];
      SeqOrder(headPos, l[0].lo);
      ChainTail(l);
      if headSeq == front.seqNo {
        PopFront(l, headPos);
        WrapAdd(headPos, front.len);
        mergedLen := front.len;
        headSeq := Wrap32(headSeq + front.len);
        headPos := l[0].hi;
        frags.PopFirst();
      }
    }

    /** The positions a segment of `len` bytes at `seqNo` carries. */
    ghost function Span(seqNo: u32, len: nat): Iv
      reads this
    {
      var lo := PositionOf(seqNo, headSeq, headPos);
      Iv(lo, lo + len)
    }

    /** What usnet_insert_fragment answers before it touches the list (src/usnet/ringbuf.c:225-239). */
    function Verdict(seqNo: u32, len: nat): (r: int)
      reads this
    {
      Admission(headSeq, size, Avail(), seqNo, len)
    }

    /** A segment that ends at or after `headSeq` is admitted only inside the receive window. */
    lemma AdmittedIsNear(seqNo: u32, len: nat)
      requires Valid() && Wrap32(seqNo + len - headSeq) < 0x8000_0000 && len < 0x1_0000
      requires Verdict(seqNo, len) == 0
      ensures headPos <= Span(seqNo, len).lo && Span(seqNo, len).hi <= headPos + 0xFFFF
      ensures seqNo == Wrap32(Span(seqNo, len).lo)
    {
      WrapAdd(headPos, Wrap32(seqNo - headSeq));
    }

    /** src/usnet/ringbuf.c:271-333: the list, then the contiguous front. */
    method Record(seqNo: u32, len: u16, ghost x: Iv) returns (ok: bool)
      requires Valid() && seqNo == Wrap32(x.lo) && len == x.hi - x.lo > 0
      requires headPos <= x.lo && x.hi <= headPos + 0xFFFF
      modifies `headSeq, `mergedLen, `headPos, frags, frags.repr
      ensures Valid() && fresh(frags.repr - old(frags.repr))
      ensures ok <==> old(frags.poolFree) > 0
      ensures forall p :: Got(p) <==> old(Got(p)) || (ok && x.Has(p))
      ensures old(headPos) <= headPos <= old(headPos) + 0xFFFF && (!ok ==> headPos == old(headPos))
      ensures ok ==> headPos != x.lo
      ensures mergedLen == if headPos == old(headPos) then old(mergedLen) else headPos - old(headPos)
      ensures frags.poolFree + |frags.ivs| == old(frags.poolFree + |frags.ivs|)
    {
      ghost var was := frags.ivs;
      ok := frags.Insert(seqNo, len, x, headPos);
      if ok {
        assert x.Has(x.lo) && Covers(frags.ivs, x.lo);
        label Listed:
        Deliver();
        forall p | p < headPos || Covers(frags.ivs, p)
          ensures p < old(headPos) || Covers(was, p) || x.Has(p)
        {
          assert Got(p) && old@Listed(Got(p));
        }
        HeadStaysInWindow(was, old(headPos), frags.ivs, headPos, x);
        assert Got(x.lo);
        HeadIsFirstGap();
      }
    }

    /** src/usnet/ringbuf.c:244-263, the registers. */
    method Advance(seqNo: u32, len: nat)
      modifies `lastSeq, `head
      ensures head == old(HeadAfter(Wrap32(seqNo - headSeq), len)) && lastSeq == Max(old(lastSeq), Wrap32(seqNo + len))
    {
      var dataOff := Wrap32(seqNo - headSeq);
      if Wrap32(seqNo + len) > lastSeq {
        lastSeq := Wrap32(seqNo + len);
      }
      head := HeadAfter(dataOff, len);
    }

    /** src/usnet/ringbuf.c:334-335. */
    method UpdateWin()
      modifies `win
      ensures win == Wrap32(Avail() - 1)
    {
      win := Wrap32((if data > head then data - head else size + data - head) - 1);
    }

    /**
     usnet_insert_fragment.  An admitted segment is recorded unless the fragment pool is exhausted;
     recording adds exactly its positions to those received, whatever the order of arrival, and
     `headSeq` moves to the end of the longest received prefix.
     */
    method Insert(seqNo: u32, len: nat) returns (ret: int)
      requires Valid() && 0 < len < 0x1_0000 && Wrap32(seqNo + len - headSeq) < 0x8000_0000
      modifies this, frags, frags.repr
      ensures Valid() && fresh(frags.repr - old(frags.repr))
      ensures old(Verdict(seqNo, len)) != 0 ==> ret == old(Verdict(seqNo, len))
      ensures old(Verdict(seqNo, len)) == 0 ==> ret == if old(frags.poolFree) > 0 then len else -4
      ensures forall p :: Got(p) <==> old(Got(p)) || (ret > 0 && old(Span(seqNo, len)).Has(p))
      ensures old(headPos) <= headPos <= old(headPos) + 0xFFFF && (ret < 0 ==> headPos == old(headPos))
      ensures ret > 0 ==> headSeq != seqNo && win == Wrap32(Avail() - 1)
      ensures old(Verdict(seqNo, len)) == 0 ==> head == old(HeadAfter(Wrap32(seqNo - headSeq), len))
      ensures data == old(data)
      ensures mergedLen == if headPos == old(headPos) then old(mergedLen) else headPos - old(headPos)
      ensures old(Verdict(seqNo, len)) == 0 ==> lastSeq == Max(old(lastSeq), Wrap32(seqNo + len))
      ensures frags.poolFree + |frags.ivs| == old(frags.poolFree + |frags.ivs|)
    {
      hide Admission, HeadAfter, Within, Avail;
      var verdict := Verdict(seqNo, len);
      if verdict != 0 {
        return verdict;
      }
      AdmittedIsNear(seqNo, len);
      ghost var x := Span(seqNo, len);
      Advance(seqNo, len);
      var ok := Record(seqNo, len, x);
      if !ok {
        return -4;
      }
      SeqOrder(headPos, x.lo);
      UpdateWin();
      return len;
    }
  }
}
