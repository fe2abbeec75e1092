/**
 The passive-open TCP state machine (src/usnet/tcp.c, src/usnet/tcb.c, src/usnet/timer.c,
 src/usnet/tcp_out.c): one connection, the segments that reach it, its timers and what it sends.

 `irs`, `iss`, `fss` and every sequence number are 32-bit; the ghost story beside them counts in
 unbounded stream positions and remembers which segments the connection has accepted.
 */
module Connection {
  import opened Words
  import opened SeqNum
  import opened Intervals
  import opened Reassembly
  import RB = ReceiveBuffer

  datatype State =
    | CLOSED | LISTEN | SYN_SENT | SYN_RECEIVED | ESTABLISHED | FIN_WAIT_1
    | FIN_WAIT_2 | CLOSE_WAIT | CLOSING | LAST_ACK | TIME_WAIT

  /** A segment that passed the length and checksum tests, with its parsed timestamp value. */
  datatype Segment = Segment(syn: bool, ack: bool, fin: bool, rst: bool,
                             seqNo: u32, ackSeq: u32, len: u16, tsVal: Option<u32>)

  /**
   What the rest of the stack answers while a connection is served: is a receive buffer free, how
   many fragments are left, is the connection on the send or ack list, does the wire take a packet,
   does an application socket hold the connection; is there a send buffer and how much does it hold,
   and is this the third duplicate acknowledgement.
   */
  datatype Env = Env(bufferFree: bool, fragmentsFree: nat, queued: bool, wire: bool, socket: bool,
                     sndbuf: bool, bufLen: nat, third: bool)

  /**
   Everything that can happen to a connection.  `ControlQueued` is usnet_send_control_packet outside of
   a segment or an expiry: after accept, from the control list, for a FIN that waited
   (src/usnet/event.c:443, src/usnet/core.c:240, 354, 446).  `Close` is the application closing it with
   our FIN at `fss`.
   */
  datatype Event =
    | Arrive(seg: Segment)
    | ControlQueued
    | SendQueued(len: u16)
    | Retransmit(exhausted: bool)
    | IdleTimeout
    | TimewaitExpire
    | AppRead(data: u16)
    | Close(fss: u32)

  /**
   The send side as far as the timers depend on it: `snd_nxt`, `snd_una`, the head of the send buffer,
   whether the connection is in an RTO bucket or in timewait, and whether the assertion of
   usnet_add_timewait_list against being in both has failed.
   */
  datatype SendVars = SendVars(nxt: u32, una: u32, head: u32, armed: bool, timewait: bool, tripped: bool) {
    /** usnet_remove_rto_list. */
    function Disarm(): SendVars { this.(armed := false) }

    /** usnet_add_rto_list: not for a connection in timewait. */
    function Arm(): SendVars { if timewait then this else this.(armed := true) }

    /** usnet_release_tcb. */
    function Released(): SendVars { this.(armed := false, timewait := false) }

    /** usnet_update_retransmission_timer (src/usnet/timer.c:93-104). */
    function Retime(): (r: SendVars)
      ensures r.timewait == timewait && r.tripped == tripped && (r.armed ==> !timewait)
      ensures nxt == una ==> !r.armed
    {
      if SeqGt(nxt, una) then Disarm().Arm() else Disarm()
    }

    /** usnet_add_timewait_list (src/usnet/timer.c:66-83). */
    function Park(): SendVars
    {
      if timewait then this else this.(armed := false, timewait := true, tripped := tripped || armed)
    }

    /** What usnet_process_ack does to these (src/usnet/tcp.c:176-183, 237-249, 283-304, 344, 353). */
    function Ack(ack: u32, bufLen: nat, third: bool): (r: SendVars)
      ensures r.timewait == timewait && r.tripped == tripped && (timewait && !armed ==> !r.armed)
    {
      if SeqGt(ack, Wrap32(head + bufLen)) then this
      else
        var back := if third && SeqLt(ack, nxt) then ack else nxt;
        var next := this.(nxt := if SeqGt(ack, back) then ack else back);
        if SeqGeq(head, ack) then next else next.(una := ack, head := ack).Retime()
    }
  }

  /**
   When an acknowledgement arms a timer that was not armed: it is of new data inside the buffer,
   something was sent after it, and it is not the third duplicate.
   */
  lemma RearmsIff(snd: SendVars, ack: u32, bufLen: nat, third: bool)
    requires !snd.armed && !snd.timewait
    ensures snd.Ack(ack, bufLen, third).armed <==>
            !SeqGt(ack, Wrap32(snd.head + bufLen)) && !SeqGeq(snd.head, ack) && SeqGt(snd.nxt, ack) && !third
  {
    SeqOpposite(snd.nxt, ack);
    SeqOpposite(ack, ack);
  }

  lemma NotBeforeItself(a: u32)
    ensures !SeqLt(a, a)
  {
  }

  lemma SeqOpposite(a: u32, b: u32)
    ensures SeqGt(a, b) ==> SeqLt(b, a) && !SeqGt(b, a)
    ensures a == b ==> !SeqGt(a, b)
  {
    Opposites(a - b);
  }

  lemma Opposites(d: int)
    ensures 0 < Signed32(Wrap32(d)) ==> Signed32(Wrap32(-d)) < 0
  {
    hide Wrap32;
    WrapDifference(0, d);
    var w: int := Wrap32(d);
    Fits32(0);
    assert 0 - w == -w;
    if 0 < w {
      Wraparound(w);
    }
  }

  lemma Wraparound(w: int)
    requires 0 < w < 0x1_0000_0000
    ensures Wrap32(-w) == 0x1_0000_0000 - w
  {
  }

  /**
   With nothing left in the send buffer and no more than a window sent after its head, no
   acknowledgement at all arms the timer.
   */
  lemma EmptyNeverRearms(snd: SendVars, ack: u32, third: bool)
    requires !snd.armed && Wrap32(snd.nxt - snd.head) < 0x4000_0000
    ensures !snd.Ack(ack, 0, third).armed
  {
    if !snd.timewait {
      RearmsIff(snd, ack, 0, third);
      Fits32(snd.head);
      AheadIsOrder(ack, snd.head);
      AheadIsOrder(snd.head, ack);
      AheadIsOrder(snd.nxt, ack);
      AheadOf(ack, snd.head);
      var d, f: int := Ahead(ack, snd.head), Wrap32(snd.nxt - snd.head);
      Fits32(0);
      Fits32(f);
      if -0x8000_0000 < d <= 0 {
        SeenFrom(snd.head, snd.head, ack, 0, d);
      } else if d == -0x8000_0000 {
        SeenFrom(snd.head, snd.nxt, ack, f, 0x8000_0000);
      }
    }
  }

  /** The send side once `usnet_process_ack` has seen the segment; an acknowledgement of our FIN counts for the byte before. */
  function AckedBy(state: State, finSent: bool, fss: u32, snd: SendVars, seg: Segment, env: Env): SendVars
  {
    if !env.sndbuf then snd
    else snd.Ack(if finSent && seg.ackSeq == Inc32(fss) && !state.ESTABLISHED? then fss else seg.ackSeq, env.bufLen, env.third)
  }

  /** The send side when our FIN has been acknowledged in FIN_WAIT_1 (src/usnet/tcp.c:808-815). */
  function FinAcked(snd: SendVars, ackSeq: u32): SendVars
  {
    snd.(una := ackSeq, nxt := if SeqGt(ackSeq, snd.nxt) then ackSeq else snd.nxt).Disarm()
  }

  /** Then nothing is left to be acknowledged before `ackSeq`, and no timer runs. */
  lemma FinAckedSettles(snd: SendVars, ackSeq: u32)
    requires Wrap32(snd.nxt - ackSeq) != 0x8000_0000
    ensures var r := FinAcked(snd, ackSeq); r.una == ackSeq && !r.armed && !SeqLt(r.nxt, r.una) && (SeqGeq(snd.nxt, ackSeq) ==> r.nxt == snd.nxt)
  {
    SeqOpposite(snd.nxt, ackSeq);
    SeqOpposite(ackSeq, snd.nxt);
    SeqOpposite(ackSeq, ackSeq);
  }

  /** What usnet_validate_seq answers: timestamps in order, and the last byte inside the window. */
  function Screening(state: State, rcvNxt: u32, rcvWnd: u32, sawTimestamp: bool, tsRecent: u32, seg: Segment): int
  {
    if !seg.rst && sawTimestamp && seg.tsVal.None? then -1
    else if !seg.rst && sawTimestamp && SeqLt(seg.tsVal.value, tsRecent) then -2
    else if SeqBetween(Wrap32(seg.seqNo + seg.len), rcvNxt, Wrap32(rcvNxt + rcvWnd - 1)) then 0
    else if seg.rst then -3
    else if state.ESTABLISHED? && Inc32(seg.seqNo) == rcvNxt then -4
    else -5
  }

  /** The bytes of a segment would be stored: every test of the window, the ring and the allocators passes. */
  predicate Storable(rcvNxt: u32, rcvWnd: u32, hasBuffer: bool, ringSize: nat, room: int, seg: Segment, env: Env)
  {
    && WindowTest(seg, rcvNxt, rcvWnd) == 0
    && (!hasBuffer ==> env.bufferFree)
    && RB.Admission(rcvNxt, ringSize, room, seg.seqNo, seg.len) == 0
    && env.fragmentsFree > 0
  }

  /** The handlers that take payload and a FIN come to it. */
  predicate Listens(state: State, seg: Segment)
  {
    (state.ESTABLISHED? && !seg.syn) || ((state.FIN_WAIT_1? || state.FIN_WAIT_2?) && seg.ack)
  }

  /** The peer's FIN in `seg` is taken at `rcv_nxt`: exactly when its bytes, if any, were not stored. */
  predicate FinFits(rcvNxt: u32, stored: bool, seg: Segment)
  {
    seg.fin && seg.seqNo == rcvNxt && !(seg.len > 0 && stored)
  }

  /** A connection at one moment of a run. */
  datatype Instant = Instant(state: State, finSent: bool, fss: u32, snd: SendVars, onTable: bool,
                             rcvNxt: u32, rcvWnd: u32, sawTimestamp: bool, tsRecent: u32, hasBuffer: bool, room: int)
  {
    /** The segment reaches its handler and is not a RST. */
    predicate Heeds(seg: Segment)
    {
      Screening(state, rcvNxt, rcvWnd, sawTimestamp, tsRecent, seg) == 0 && !seg.rst
    }

    /** The segment is consumed as the peer's FIN. */
    predicate Consumes(seg: Segment, ringSize: nat, env: Env)
    {
      && Heeds(seg) && Listens(state, seg)
      && FinFits(rcvNxt, Storable(rcvNxt, rcvWnd, hasBuffer, ringSize, room, seg, env), seg)
    }
  }

  /** What a segment that arrives makes of a connection. */
  ghost predicate Took(seg: Segment, env: Env, iss: u32, ringSize: nat, a: Instant, b: Instant)
  {
    var acked := AckedBy(a.state, a.finSent, a.fss, a.snd, seg, env);
    && b.fss == a.fss && b.sawTimestamp == a.sawTimestamp && (a.finSent ==> b.finSent)
    && (b.onTable != a.onTable ==> b.state.CLOSED?)
    && Earned(a.state, b.state, a.finSent, iss, a.fss, seg)
    && (b.state != a.state ==> a.state.LISTEN? || a.Heeds(seg) || seg.rst)
    && (b.snd.tripped <==> a.snd.tripped || (a.state.FIN_WAIT_2? && a.Consumes(seg, ringSize, env) && acked.armed))
    && (seg.len == 0 && !a.state.LISTEN? ==>
          b.rcvWnd == a.rcvWnd && b.rcvNxt == if a.Consumes(seg, ringSize, env) then Inc32(a.rcvNxt) else a.rcvNxt)
    && (a.state.SYN_RECEIVED? && a.Heeds(seg) ==> Establishes(seg, iss, a.snd, b.state, b.snd))
    && (a.state.FIN_WAIT_1? && a.Heeds(seg) ==> AcksOurFin(seg, a.rcvNxt, a.finSent, a.fss, acked, b.state, b.snd))
    && StaysCalm(a.state, a.snd, acked, b.state, b.snd)
  }

  /** What a segment does to a connection in SYN_RECEIVED. */
  predicate Establishes(seg: Segment, iss: u32, was: SendVars, state: State, snd: SendVars)
  {
    if seg.ack && seg.ackSeq == Inc32(iss)
    then state.ESTABLISHED? && snd == was.(una := Inc32(was.una), nxt := seg.ackSeq).Disarm()
    else state.SYN_RECEIVED?
  }

  /** What a segment without FIN and payload, at `next`, does to a connection in FIN_WAIT_1. */
  predicate AcksOurFin(seg: Segment, next: u32, wasSent: bool, fss: u32, was: SendVars, state: State, snd: SendVars)
  {
    seg.ack && seg.seqNo == next && !seg.fin && seg.len == 0 && wasSent && seg.ackSeq == Inc32(fss) ==>
      state.FIN_WAIT_2? && snd == FinAcked(was, seg.ackSeq)
  }

  /** In FIN_WAIT_2 the timer is as it was, or as this acknowledgement left it, or our FIN has just been acknowledged. */
  predicate StaysCalm(was: State, snd0: SendVars, acked: SendVars, state: State, snd: SendVars)
  {
    state.FIN_WAIT_2? ==> (was.FIN_WAIT_1? && !snd.armed) || (was.FIN_WAIT_2? && (snd == snd0 || snd == acked))
  }

  /** What an expiry makes of a connection. */
  ghost predicate Expired(e: Event, env: Env, a: Instant, b: Instant)
  {
    && b == a.(state := b.state, finSent := b.finSent, snd := b.snd, onTable := b.onTable)
    && b.snd.tripped == a.snd.tripped
    && if a.state.LISTEN? || (e.TimewaitExpire? && !a.state.TIME_WAIT?) then b == a
       else
         && b.state == (if e.Retransmit? && !e.exhausted then a.state else CLOSED)
         && (e.Retransmit? ==> !b.snd.armed)
         && b.onTable == match e
                         case Retransmit(exhausted) =>
                           if exhausted then env.socket && !a.state.CLOSED? && !a.state.SYN_RECEIVED?
                           else a.onTable && !(a.state.CLOSED? || a.state.FIN_WAIT_2? || a.state.TIME_WAIT?)
                         case IdleTimeout => env.socket
                         case _ => false
  }

  /** The application closes: FIN_WAIT_1 or LAST_ACK, with our FIN at `fss`. */
  function Closed(fss: u32, a: Instant): Instant
  {
    if a.state.ESTABLISHED? then a.(state := FIN_WAIT_1, fss := fss)
    else if a.state.CLOSE_WAIT? then a.(state := LAST_ACK, fss := fss)
    else a
  }

  /** What an event makes of a connection at moment `a`; one that has left the table is not found any more. */
  ghost predicate Follows(e: Event, env: Env, iss: u32, ringSize: nat, a: Instant, b: Instant)
  {
    if !a.onTable then b == a
    else if e.Arrive? then Took(e.seg, env, iss, ringSize, a, b)
    else if e.ControlQueued? then
      b == a.(snd := ControlSent(a.state, Goes(a.state, env), iss, a.finSent, a.fss, a.snd),
              finSent := a.finSent || (Goes(a.state, env) && SendsFin(a.state, a.finSent, a.fss, a.snd)),
              onTable := !(Goes(a.state, env) && a.state.CLOSED?))
    else if e.SendQueued? then b == a.(snd := DataSent(a.state, e.len, a.snd))
    else if e.Close? then b == Closed(e.fss, a)
    else if e.AppRead? then b == a.(room := b.room)
    else Expired(e, env, a, b)
  }

  /** No byte is buffered behind our FIN any more, and no more than a window was sent. */
  predicate Drained(snd: SendVars, env: Env)
  {
    env.sndbuf ==> env.bufLen == 0 && Wrap32(snd.nxt - snd.head) < 0x4000_0000
  }

  /** In FIN_WAIT_2 the timer is not armed. */
  predicate Calm(state: State, snd: SendVars) { state.FIN_WAIT_2? ==> !snd.armed }

  /** The transitions of one event. */
  predicate Passage(a: State, b: State, e: Event)
  {
    || (if e.Arrive? then Edge(a, b) else a == b || b.CLOSED?)
    || (e.Close? && ((a.ESTABLISHED? && b.FIN_WAIT_1?) || (a.CLOSE_WAIT? && b.LAST_ACK?)))
  }

  /** Never in a bucket and in timewait at once; in timewait exactly from TIME_WAIT on. */
  ghost predicate Clocked(state: State, snd: SendVars)
  {
    && !(snd.armed && snd.timewait)
    && (state.TIME_WAIT? ==> snd.timewait) && (snd.timewait ==> state.TIME_WAIT? || state.CLOSED?)
  }

  /** The control packet is our FIN: CLOSING sends it unless it was sent and something else is next. */
  predicate SendsFin(state: State, finSent: bool, fss: u32, snd: SendVars)
  {
    state.LAST_ACK? || state.FIN_WAIT_1? || (state.CLOSING? && !(finSent && snd.nxt != fss))
  }

  /** The send side after usnet_send_control_packet. */
  function ControlSent(state: State, goes: bool, iss: u32, finSent: bool, fss: u32, snd: SendVars): (r: SendVars)
    ensures r.tripped == snd.tripped
  {
    if state.SYN_RECEIVED? then (if goes then snd.(nxt := Inc32(iss)).Arm() else snd.(nxt := iss))
    else if !goes then snd
    else if state.CLOSED? then snd.Released()
    else if SendsFin(state, finSent, fss, snd) then snd.(nxt := Inc32(snd.nxt)).Arm()
    else snd
  }

  /** The send side after a segment of `len` bytes was sent; data arms the timer. */
  function DataSent(state: State, len: u16, snd: SendVars): SendVars
  {
    if len > 0 && CanSendData(state) then snd.(nxt := Wrap32(snd.nxt + len)).Arm() else snd
  }

  const TCP_INITIAL_WINDOW: u32 := 14600

  /** `(flags & (TH_SYN|TH_ACK)) == TH_SYN`, the only segment a connection is created for. */
  predicate OpensConnection(seg: Segment) { seg.syn && !seg.ack }

  /**
   What has happened to a connection.
   `rcvPos` is the stream position of `rcv_nxt`; `acks` the positions every acknowledgement sent so
   far carried; `opener`, `finAcker` and `peerFin` the segments that completed the handshake,
   acknowledged our FIN, and were consumed as the peer's FIN.
   */
  datatype Story = Story(rcvPos: int, acks: seq<int>, seen: seq<Segment>,
                         opener: Option<Segment>, finAcker: Option<Segment>, peerFin: Option<Segment>)
  {
    /** The consumed FIN carried bytes that were not stored: its own place is further on. */
    ghost predicate Lossy() { peerFin.Some? && peerFin.value.len > 0 }

    /** A packet with the ACK bit goes out now. */
    ghost function Acked(): Story { this.(acks := acks + [rcvPos]) }

    ghost function Saw(seg: Segment): Story { this.(seen := seen + [seg]) }
  }

  /** What later keeps of earlier: nothing sent, seen or acknowledged is taken back. */
  ghost predicate Extends(a: Story, b: Story)
  {
    && a.rcvPos <= b.rcvPos && a.acks <= b.acks && a.seen <= b.seen
    && (a.peerFin.Some? ==> b.peerFin == a.peerFin)
  }

  /** The transitions one segment can cause. */
  predicate Edge(a: State, b: State)
  {
    || a == b
    || (a.LISTEN? && b.SYN_RECEIVED?)
    || (a.SYN_RECEIVED? && (b.ESTABLISHED? || b.CLOSED?))
    || (a.ESTABLISHED? && (b.CLOSE_WAIT? || b.CLOSED?))
    || (a.FIN_WAIT_1? && (b.FIN_WAIT_2? || b.CLOSING? || b.TIME_WAIT? || b.CLOSED?))
    || (a.FIN_WAIT_2? && (b.TIME_WAIT? || b.CLOSED?))
    || (a.CLOSING? && (b.TIME_WAIT? || b.CLOSED?))
    || ((a.LAST_ACK? || a.TIME_WAIT?) && b.CLOSED?)
  }

  ghost predicate NotAhead(acks: seq<int>, i: int, j: int)
    requires 0 <= i < |acks| && 0 <= j < |acks|
  {
    acks[i] <= acks[j]
  }

  /** The acknowledgements sent are non-decreasing and none is ahead of `rcvPos`. */
  ghost predicate AcksInOrder(acks: seq<int>, rcvPos: int)
  {
    && (forall i | 0 <= i < |acks| :: acks[i] <= rcvPos)
    && (forall i, j {:trigger NotAhead(acks, i, j)} | 0 <= i < j < |acks| :: NotAhead(acks, i, j))
  }

  lemma AckKeepsOrder(acks: seq<int>, rcvPos: int)
    requires AcksInOrder(acks, rcvPos)
    ensures AcksInOrder(acks + [rcvPos], rcvPos)
  {
    var more := acks + [rcvPos];
    forall i, j | 0 <= i < j < |more| ensures NotAhead(more, i, j) { assert j < |acks| ==> NotAhead(acks, i, j); }
  }

  ghost predicate Recorded(who: Option<Segment>, story: Story)
  {
    who.Some? ==> who.value in story.seen
  }

  /** What each state says about the past. */
  ghost predicate Explained(state: State, iss: u32, fss: u32, finSent: bool, headPos: int, story: Story)
  {
    && Recorded(story.opener, story) && Recorded(story.finAcker, story) && Recorded(story.peerFin, story)
    && (story.opener.Some? ==> story.opener.value.ack && story.opener.value.ackSeq == Inc32(iss))
    && (story.finAcker.Some? ==> finSent && story.finAcker.value.ack && story.finAcker.value.ackSeq == Inc32(fss))
    && (story.peerFin.Some? ==> story.peerFin.value.fin && Wrap32(headPos) == story.peerFin.value.seqNo)
    && story.rcvPos == headPos + (if story.peerFin.Some? then 1 else 0) - (if state.LISTEN? then 1 else 0)
    && !state.SYN_SENT?
    && ((state.LISTEN? || state.SYN_RECEIVED?) ==> story.peerFin.None?)
    && ((state.ESTABLISHED? || state.FIN_WAIT_1? || state.FIN_WAIT_2?) ==> story.peerFin.None?)
    && (!(state.LISTEN? || state.SYN_RECEIVED? || state.CLOSED?) ==> story.opener.Some?)
    && ((state.FIN_WAIT_2? || state.TIME_WAIT?) ==> story.finAcker.Some?)
    && (story.finAcker.Some? ==> state.FIN_WAIT_2? || state.TIME_WAIT? || state.CLOSED?)
    && ((state.CLOSING? || state.TIME_WAIT?) ==> story.peerFin.Some?)
  }

  /** What a change from state `a` to `b` tells about the segment that caused it. */
  predicate Earned(a: State, b: State, finSent: bool, iss: u32, fss: u32, seg: Segment)
  {
    && Edge(a, b)
    && (b.ESTABLISHED? && !a.ESTABLISHED? ==> a.SYN_RECEIVED? && seg.ack && seg.ackSeq == Inc32(iss))
    && (a.LAST_ACK? && b.CLOSED? ==> seg.rst || (finSent && seg.ack && seg.ackSeq == Inc32(fss)))
    && ((b.TIME_WAIT? || b.FIN_WAIT_2?) && (a.FIN_WAIT_1? || a.CLOSING?) ==> finSent && seg.ack && seg.ackSeq == Inc32(fss))
    && ((b.TIME_WAIT? || b.CLOSING?) && (a.FIN_WAIT_1? || a.FIN_WAIT_2?) ==> seg.fin)
    && (b.CLOSE_WAIT? && a.ESTABLISHED? ==> seg.fin || seg.rst)
  }

  /** Where a segment with RST leaves the connection before its handler runs. */
  predicate AfterRst(a: State, b: State, seg: Segment)
  {
    if seg.rst && !a.LISTEN? then
      (b.CLOSE_WAIT? && (a.ESTABLISHED? || a.CLOSE_WAIT?)) || (b.CLOSED? && Edge(a, b)) || (b.SYN_RECEIVED? && a.SYN_RECEIVED?)
    else b == a
  }

  lemma RstThenHandler(a: State, b: State, c: State, finSent: bool, iss: u32, fss: u32, seg: Segment)
    requires AfterRst(a, b, seg) && Earned(b, c, finSent, iss, fss, seg)
    ensures Earned(a, c, finSent, iss, fss, seg)
  {
  }

  /** States a connection can be in while the application has not closed it. */
  predicate Unclosed(state: State)
  {
    (state.LISTEN? || state.SYN_RECEIVED? || state.ESTABLISHED? || state.CLOSE_WAIT? || state.CLOSED?)
  }

  /** A control packet goes out: FIN and RST wait until the connection is off the send and ack lists. */
  predicate Goes(state: State, env: Env)
  {
    && env.wire && !state.LISTEN? && !state.SYN_SENT?
    && ((state.LAST_ACK? || state.FIN_WAIT_1? || state.CLOSED?) ==> !env.queued)
  }

  /** States whose send list is flushed (src/usnet/core.c:401-412). */
  predicate CanSendData(state: State)
  {
    state.ESTABLISHED? || state.CLOSE_WAIT? || state.FIN_WAIT_1? || state.LAST_ACK?
  }

  class Connection {
    const irs: u32
    const iss: u32
    const ringSize: nat

    var state: State
    var rcvNxt: u32
    var rcvWnd: u32
    var rcvbuf: RB.ReceiveBuffer?
    var fss: u32
    var finSent: bool
    var sawTimestamp: bool
    var tsRecent: u32
    var snd: SendVars
    /** The connection is in the table, so segments and timers still find it. */
    var onTable: bool

    ghost var story: Story
    /** Where the first gap in the received stream begins. */
    ghost var headPos: int

    ghost function First(): u32 { Inc32(irs) }

    /** Stream position `p` has been received. */
    ghost predicate Got(p: int)
      reads `rcvbuf, rcvbuf, if rcvbuf == null then {} else {rcvbuf.frags}
    {
      if rcvbuf == null then p < First() else rcvbuf.Got(p)
    }

    ghost function Footprint(): set<object>
      reads `rcvbuf, rcvbuf, if rcvbuf == null then {} else {rcvbuf.frags}
    {
      if rcvbuf == null then {} else {rcvbuf, rcvbuf.frags} + rcvbuf.frags.repr
    }

    /** The receive buffer is in order and its head is the first gap. */
    ghost predicate Buffered()
      reads `rcvbuf, `headPos, rcvbuf, if rcvbuf == null then {} else {rcvbuf.frags}
      reads if rcvbuf == null then {} else rcvbuf.frags.repr
    {
      && 0 < ringSize <= 0xFFFF && this !in Footprint()
      && (if rcvbuf == null then headPos == First()
          else rcvbuf.Valid() && rcvbuf.size == ringSize && rcvbuf.headPos == headPos)
    }

    /** The control block agrees with its story. */
    ghost predicate Sound()
      reads `state, `rcvNxt, `rcvbuf, `fss, `finSent, `snd, `story, `headPos
    {
      && ((state.LISTEN? || state.SYN_RECEIVED?) ==> rcvbuf == null)
      && rcvNxt == Wrap32(story.rcvPos)
      && AcksInOrder(story.acks, story.rcvPos)
      && Explained(state, iss, fss, finSent, headPos, story)
      && Clocked(state, snd)
    }

    ghost predicate Valid()
      reads this, rcvbuf, if rcvbuf == null then {} else {rcvbuf.frags}
      reads if rcvbuf == null then {} else rcvbuf.frags.repr
    {
      Sound() && Buffered()
    }

    /** usnet_create_tcb for a SYN whose sequence number is `irs`. */
    constructor (irs: u32, iss: u32, ringSize: nat, ts: Option<u32>)
      requires 0 < ringSize <= 0xFFFF
      ensures Valid() && state.LISTEN? && rcvNxt == irs && onTable && this.iss == iss && this.irs == irs && this.ringSize == ringSize
      ensures rcvbuf == null && story.seen == [] && story.acks == [] && !finSent
      ensures snd == SendVars(iss, iss, Inc32(iss), false, false, false)
      ensures rcvWnd == TCP_INITIAL_WINDOW && sawTimestamp == ts.Some?
    {
      this.irs, this.iss, this.ringSize := irs, iss, ringSize;
      state, rcvNxt, rcvWnd, rcvbuf := LISTEN, irs, TCP_INITIAL_WINDOW, null;
      fss, finSent, onTable := 0, false, true;
      snd := SendVars(iss, iss, Inc32(iss), false, false, false);
      sawTimestamp, tsRecent := ts.Some?, if ts.Some? then ts.value else 0;
      story, headPos := Story(Inc32(irs) - 1, [], [], None, None, None), Inc32(irs);
    }

    /** usnet_send_control_packet, and the call of it that usnet_add_control_list begins with. */
    method SendControl(env: Env)
      requires Sound()
      modifies `finSent, `onTable, `story, `snd
      ensures Sound()
      ensures story == if Goes(state, env) && !state.CLOSED? then old(story).Acked() else old(story)
      ensures finSent == (old(finSent) || (Goes(state, env) && SendsFin(state, old(finSent), fss, old(snd))))
      ensures onTable == (old(onTable) && !(Goes(state, env) && state.CLOSED?))
      ensures snd == ControlSent(state, Goes(state, env), iss, old(finSent), fss, old(snd))
    {
      hide AcksInOrder;
      AckKeepsOrder(story.acks, story.rcvPos);
      if state.CLOSED? {
        if !env.queued && env.wire {
          onTable, snd := false, snd.Released();
        }
      } else if state.LAST_ACK? || state.FIN_WAIT_1? {
        if !env.queued && env.wire {
          SendFin();
        }
      } else if state.CLOSING? {
        if env.wire {
          if finSent && snd.nxt != fss {
            story := story.Acked();
          } else {
            SendFin();
          }
        }
      } else if !(state.LISTEN? || state.SYN_SENT?) {
        if state.SYN_RECEIVED? {
          snd := snd.(nxt := iss);
        }
        if env.wire {
          story := story.Acked();
          if state.SYN_RECEIVED? {
            snd := snd.(nxt := Inc32(snd.nxt)).Arm();
          }
        }
      }
    }

    /** A packet with FIN and ACK: it takes up a number, so it arms the timer (src/usnet/tcp_out.c:338-357). */
    method SendFin()
      requires Sound() && (state.LAST_ACK? || state.FIN_WAIT_1? || state.CLOSING?)
      modifies `finSent, `story, `snd
      ensures Sound() && finSent && story == old(story).Acked() && snd == old(snd).(nxt := Inc32(old(snd.nxt))).Arm()
    {
      AckKeepsOrder(story.acks, story.rcvPos);
      finSent, story, snd := true, story.Acked(), snd.(nxt := Inc32(snd.nxt)).Arm();
    }

    /** A segment of the ack list or a data segment goes out (src/usnet/core.c:284-337, src/usnet/tcp_out.c:698); data arms the timer. */
    method SendData(len: u16)
      requires Sound()
      modifies `story, `snd
      ensures Sound() && story.rcvPos == old(story.rcvPos) && snd.tripped == old(snd.tripped)
      ensures story == old(story) || story == old(story).Acked()
      ensures state.LISTEN? || state.SYN_RECEIVED? || state.CLOSING? || state.CLOSED? <==> story == old(story)
      ensures snd == DataSent(state, len, old(snd))
    {
      AckKeepsOrder(story.acks, story.rcvPos);
      if CanSendData(state) || state.FIN_WAIT_2? || state.TIME_WAIT? {
        story := story.Acked();
      }
      if len > 0 && CanSendData(state) {
        snd := snd.(nxt := Wrap32(snd.nxt + len)).Arm();
      }
    }

    function AfterAck(seg: Segment, env: Env): SendVars
      reads `state, `fss, `finSent, `snd
    {
      AckedBy(state, finSent, fss, snd, seg, env)
    }

    // ----- payload

    /** Bytes the receive ring can take. */
    function Room(): int
      reads `rcvbuf, rcvbuf
    {
      if rcvbuf == null then ringSize else rcvbuf.Avail()
    }

    /** The bytes of a segment would be stored. */
    ghost predicate Stores(seg: Segment, env: Env)
      reads `rcvNxt, `rcvWnd, `rcvbuf, rcvbuf
    {
      Storable(rcvNxt, rcvWnd, rcvbuf != null, ringSize, Room(), seg, env)
    }

    /** Payload that needs a receive buffer when none is to be had. */
    ghost predicate Starved(seg: Segment, env: Env)
      reads `rcvNxt, `rcvWnd, `rcvbuf
    {
      seg.len > 0 && WindowTest(seg, rcvNxt, rcvWnd) == 0 && rcvbuf == null && !env.bufferFree
    }

    /** The stream positions of a segment's bytes. */
    ghost function Span(seg: Segment): Iv
      reads `rcvNxt, `headPos
    {
      var lo := RB.PositionOf(seg.seqNo, rcvNxt, headPos);
      Iv(lo, lo + seg.len)
    }

    /** usnet_get_ringbuf on the first payload (src/usnet/tcp.c:382-393). */
    method Allocate(env: Env)
      requires Buffered()
      modifies `rcvbuf
      ensures Buffered() && (rcvbuf != null <==> old(rcvbuf) != null || env.bufferFree)
      ensures rcvbuf != old(rcvbuf) ==> fresh(rcvbuf) && fresh(rcvbuf.frags) && rcvbuf.frags.repr == {}
      ensures old(rcvbuf) != null ==> rcvbuf == old(rcvbuf)
      ensures Room() == old(Room())
      ensures forall p :: Got(p) <==> old(Got(p))
    {
      if rcvbuf == null && env.bufferFree {
        rcvbuf := new RB.ReceiveBuffer(ringSize, Inc32(irs), env.fragmentsFree);
      }
    }

    /** Other connections take and return fragments of the shared pool. */
    method SharePool(env: Env)
      requires Buffered() && rcvbuf != null
      modifies rcvbuf.frags`poolFree
      ensures Buffered() && rcvbuf.frags.poolFree == env.fragmentsFree
      ensures forall p :: Got(p) <==> old(Got(p))
    {
      rcvbuf.frags.poolFree := env.fragmentsFree;
    }

    /** src/usnet/tcp.c:395-415: insert, then let `rcv_nxt` follow `head_seq`. */
    method Store(seg: Segment, env: Env) returns (ghost stored: bool)
      requires Buffered() && rcvbuf != null && seg.len > 0 && rcvNxt == Wrap32(headPos)
      requires Wrap32(seg.seqNo + seg.len - rcvNxt) < 0x8000_0000
      modifies `rcvNxt, `rcvWnd, `headPos, rcvbuf, rcvbuf.frags, rcvbuf.frags.repr
      ensures Buffered() && fresh(rcvbuf.frags.repr - old(rcvbuf.frags.repr))
      ensures rcvNxt == Wrap32(headPos) && old(headPos) <= headPos <= old(headPos) + 0xFFFF && rcvWnd == rcvbuf.win
      ensures forall p :: Got(p) <==> old(Got(p)) || (stored && old(Span(seg)).Has(p))
      ensures stored ==> rcvNxt != seg.seqNo
      ensures !stored ==> headPos == old(headPos)
      ensures stored <==> old(RB.Admission(rcvNxt, ringSize, Room(), seg.seqNo, seg.len)) == 0 && env.fragmentsFree > 0
    {
      hide RB.Admission, Within, FragmentList.Valid;
      SharePool(env);
      var ret := rcvbuf.Insert(seg.seqNo, seg.len);
      stored := ret > 0;
      rcvNxt, rcvWnd, headPos := rcvbuf.headSeq, rcvbuf.win, rcvbuf.headPos;
    }

    /** src/usnet/tcp.c:382-415 for a segment that passed the window tests. */
    method Accept(seg: Segment, env: Env) returns (ghost stored: bool)
      requires Buffered() && seg.len > 0 && rcvNxt == Wrap32(headPos) && WindowTest(seg, rcvNxt, rcvWnd) == 0
      modifies `rcvNxt, `rcvWnd, `rcvbuf, `headPos, Footprint()
      ensures Buffered() && fresh(Footprint() - old(Footprint()))
      ensures rcvbuf != null <==> old(rcvbuf) != null || env.bufferFree
      ensures rcvNxt == Wrap32(headPos) && old(headPos) <= headPos <= old(headPos) + 0xFFFF
      ensures forall p :: Got(p) <==> old(Got(p)) || (stored && old(Span(seg)).Has(p))
      ensures if stored then rcvNxt != seg.seqNo else headPos == old(headPos)
      ensures stored <==>
                && rcvbuf != null && env.fragmentsFree > 0
                && old(RB.Admission(rcvNxt, ringSize, Room(), seg.seqNo, seg.len)) == 0
    {
      Allocate(env);
      if rcvbuf == null {
        return false;
      }
      NotOld(seg, rcvNxt, rcvWnd);
      stored := Store(seg, env);
    }

    /** src/usnet/tcp.c:383-434: `rcv_nxt` has moved to the head; what the caller is told. */
    method Follow(prevRcvNxt: u32) returns (ret: int)
      requires (state.ESTABLISHED? || state.FIN_WAIT_1? || state.FIN_WAIT_2?) && rcvNxt == Wrap32(headPos)
      requires story.rcvPos <= headPos <= story.rcvPos + 0xFFFF && AcksInOrder(story.acks, story.rcvPos)
      requires prevRcvNxt == Wrap32(story.rcvPos)
      requires Explained(state, iss, fss, finSent, story.rcvPos, story) && Clocked(state, snd)
      modifies `state, `story
      ensures Sound() && story == old(story).(rcvPos := headPos)
      ensures state == if rcvbuf == null then CLOSED else old(state)
      ensures ret == if rcvbuf == null then -3 else if headPos == old(story.rcvPos) then -1 else 0
    {
      SeqOrder(headPos, story.rcvPos);
      story := story.(rcvPos := headPos);
      if rcvbuf == null {
        state := CLOSED;
        return -3;
      }
      ret := if SeqLeq(rcvNxt, prevRcvNxt) then -1 else 0;
    }

    /** usnet_process_tcp_payload.  Bytes are recorded exactly when every test passes, and then `rcv_nxt` leaves `seg.seqNo`. */
    method TakePayload(seg: Segment, env: Env) returns (ret: int, ghost stored: bool)
      requires Valid() && (state.ESTABLISHED? || state.FIN_WAIT_1? || state.FIN_WAIT_2?) && seg.len > 0
      modifies `state, `rcvNxt, `rcvWnd, `rcvbuf, `headPos, `story, Footprint()
      ensures Valid() && fresh(Footprint() - old(Footprint()))
      ensures state == if old(Starved(seg, env)) then CLOSED else old(state)
      ensures story == old(story).(rcvPos := story.rcvPos) && story.rcvPos >= old(story.rcvPos)
      ensures forall p :: Got(p) <==> old(Got(p)) || (stored && old(Span(seg)).Has(p))
      ensures if stored then rcvNxt != seg.seqNo else rcvNxt == old(rcvNxt)
      ensures stored <==> old(Stores(seg, env))
      ensures stored && seg.seqNo == old(rcvNxt) ==> ret == 0
      ensures var test := old(WindowTest(seg, rcvNxt, rcvWnd));
              ret == if test != 0 then test else if rcvbuf == null then -3
                     else if story.rcvPos == old(story.rcvPos) then -1 else 0
    {
      hide WindowTest;
      stored := false;
      ret := WindowTest(seg, rcvNxt, rcvWnd);
      if ret != 0 {
        return;
      }
      var prevRcvNxt := rcvNxt;
      stored := Accept(seg, env);
      ret := Follow(prevRcvNxt);
    }

    /**
     In-order bytes that fit the window and the ring are stored at the first gap whenever there is a
     buffer and a fragment for them.
     */
    lemma InOrderFits(seg: Segment, env: Env)
      requires rcvNxt == Wrap32(headPos) && seg.seqNo == rcvNxt
      requires 0 < seg.len <= rcvWnd < 0x8000_0000 && seg.len <= ringSize && seg.len <= Room()
      requires (rcvbuf != null || env.bufferFree) && env.fragmentsFree > 0
      ensures Stores(seg, env) && Span(seg) == Iv(headPos, headPos + seg.len)
    {
      hide Storable;
      StorableByPosition(seg, env, headPos, rcvWnd, rcvbuf != null, ringSize, Room(), headPos);
    }

    /** They pass the validation if they leave a byte of the window. */
    lemma InOrderScreened(seg: Segment)
      requires rcvNxt == Wrap32(headPos) && seg.seqNo == rcvNxt && 0 < seg.len < rcvWnd < 0x8000_0000 && !seg.rst
      requires sawTimestamp ==> seg.tsVal.Some? && !SeqLt(seg.tsVal.value, tsRecent)
      ensures Screen(seg) == 0
    {
      hide Wrap32;
      WrapAdd(headPos, seg.len);
      WrapAdd(headPos, rcvWnd - 1);
      SeqOrder(headPos + seg.len, headPos);
      SeqOrder(headPos + seg.len, headPos + rcvWnd - 1);
    }

    // ----- handlers that leave the receive buffer alone

    /** The peer's FIN is consumed: `rcv_nxt` steps over it. */
    method ConsumeFin(seg: Segment, next: State)
      requires Sound() && seg.fin && seg.seqNo == rcvNxt && seg in story.seen
      requires story.peerFin.None? && story.opener.Some?
      requires state.ESTABLISHED? || state.FIN_WAIT_1? || state.FIN_WAIT_2? || state.CLOSED?
      requires next.CLOSED? || (if story.finAcker.Some? then next.TIME_WAIT? else next.CLOSE_WAIT? || next.CLOSING?)
      requires !snd.timewait
      modifies `state, `rcvNxt, `story, `snd
      ensures Sound() && state == next && snd == if next.TIME_WAIT? then old(snd).Park() else old(snd)
      ensures story == old(story).(rcvPos := old(story.rcvPos) + 1, peerFin := Some(seg))
    {
      Inc32Wraps(story.rcvPos);
      state, rcvNxt := next, Inc32(rcvNxt);
      story := story.(rcvPos := story.rcvPos + 1, peerFin := Some(seg));
      if state.TIME_WAIT? {
        snd := snd.Park();
      }
    }

    /** usnet_handle_listen. */
    method HandleListen(seg: Segment)
      requires Sound() && state.LISTEN?
      modifies `state, `rcvNxt, `story
      ensures Sound() && state == (if seg.syn then SYN_RECEIVED else LISTEN)
      ensures story == old(story).(rcvPos := old(story.rcvPos) + if seg.syn then 1 else 0)
    {
      if seg.syn {
        Inc32Wraps(story.rcvPos);
        state, rcvNxt := SYN_RECEIVED, Inc32(rcvNxt);
        story := story.(rcvPos := story.rcvPos + 1);
      }
    }

    /** usnet_handle_syn_received: only the acknowledgement of our SYN establishes the connection. */
    method HandleSynReceived(seg: Segment, env: Env)
      requires Sound() && state.SYN_RECEIVED? && seg in story.seen
      modifies `state, `story, `finSent, `onTable, `snd
      ensures Sound() && onTable == old(onTable) && snd.tripped == old(snd.tripped)
      ensures state == (if seg.ack && seg.ackSeq == Inc32(iss) then ESTABLISHED else SYN_RECEIVED)
      ensures state.ESTABLISHED? ==> snd == old(snd).(una := Inc32(old(snd.una)), nxt := seg.ackSeq).Disarm()
      ensures story.seen == old(story.seen) && story.rcvPos == old(story.rcvPos) && finSent == old(finSent)
      ensures Extends(old(story), story) && story.peerFin == old(story.peerFin)
    {
      if seg.ack {
        if seg.ackSeq == Inc32(iss) {
          state, story := ESTABLISHED, story.(opener := Some(seg));
          snd := snd.(una := Inc32(snd.una), nxt := seg.ackSeq).Disarm();
        }
      } else {
        snd := snd.(nxt := iss);
        SendControl(env);
      }
    }

    /** usnet_handle_close_wait. */
    method HandleCloseWait(seg: Segment, env: Env)
      requires Sound() && state.CLOSE_WAIT?
      modifies `story, `finSent, `onTable, `snd
      ensures Sound() && onTable == old(onTable) && finSent == old(finSent) && snd.tripped == old(snd.tripped)
      ensures story == if SeqLt(seg.seqNo, rcvNxt) && Goes(state, env) then old(story).Acked() else old(story)
      ensures snd == if SeqLt(seg.seqNo, rcvNxt) then old(snd) else old(AfterAck(seg, env))
    {
      hide SendVars.Ack;
      if SeqLt(seg.seqNo, rcvNxt) {
        SendControl(env);
      } else {
        snd := AfterAck(seg, env);
      }
    }

    /** usnet_handle_closing: TIME_WAIT only on the acknowledgement of our FIN, and with the timer disarmed by then. */
    method HandleClosing(seg: Segment, env: Env)
      requires Sound() && state.CLOSING? && seg in story.seen
      modifies `state, `story, `snd
      ensures Sound() && snd.tripped == old(snd.tripped)
      ensures state == if seg.ack && finSent && seg.ackSeq == Inc32(fss) then TIME_WAIT else CLOSING
      ensures Extends(old(story), story) && story.peerFin == old(story.peerFin)
      ensures story.seen == old(story.seen) && story.rcvPos == old(story.rcvPos)
      ensures state.CLOSING? ==> snd == if seg.ack then old(AfterAck(seg, env)) else old(snd)
    {
      hide SendVars.Ack;
      if seg.ack {
        snd := AfterAck(seg, env);
        if finSent && seg.ackSeq == Inc32(fss) {
          snd := snd.(una := seg.ackSeq, nxt := seg.ackSeq).Retime();
          state, story := TIME_WAIT, story.(finAcker := Some(seg));
          snd := snd.Park();
        }
      }
    }

    /** usnet_handle_last_ack: CLOSED only on the acknowledgement of our FIN. */
    method HandleLastAck(seg: Segment, env: Env)
      requires Sound() && state.LAST_ACK?
      modifies `state, `story, `finSent, `onTable, `snd
      ensures Sound() && snd.tripped == old(snd.tripped)
      ensures state == if !SeqLt(seg.seqNo, rcvNxt) && seg.ack && old(finSent) && seg.ackSeq == Inc32(fss) then CLOSED else LAST_ACK
      ensures onTable == (old(onTable) && !state.CLOSED?) && (old(finSent) ==> finSent)
      ensures story == old(story) || story == old(story).Acked()
    {
      if SeqLt(seg.seqNo, rcvNxt) {
        return;
      }
      hide SendVars.Ack;
      if !seg.ack {
        SendControl(env);
        return;
      }
      snd := AfterAck(seg, env);
      if finSent {
        if seg.ackSeq == Inc32(fss) {
          snd := snd.(una := Inc32(snd.una)).Retime();
          state, onTable, snd := CLOSED, false, snd.Released();
        } else {
          SendControl(env);
        }
      }
    }

    /** usnet_handle_rst.  Its answer 0 lets the segment run on into the handler of the new state. */
    method HandleRst(seg: Segment)
      requires Sound() && !state.LISTEN? && !state.CLOSED?
      modifies `state, `onTable, `snd
      ensures Sound() && snd == if state.CLOSED? then old(snd).Released() else old(snd)
      ensures old(state).ESTABLISHED? || old(state).CLOSE_WAIT? ==> state.CLOSE_WAIT?
      ensures old(state).SYN_RECEIVED? ==> state == if seg.ackSeq == rcvNxt then CLOSED else SYN_RECEIVED
      ensures !(old(state).ESTABLISHED? || old(state).CLOSE_WAIT? || old(state).SYN_RECEIVED?) ==> state.CLOSED?
      ensures onTable == (old(onTable) && !state.CLOSED?)
    {
      if state.SYN_RECEIVED? {
        if seg.ackSeq == rcvNxt {
          state, onTable, snd := CLOSED, false, snd.Released();
        }
      } else if state.ESTABLISHED? || state.CLOSE_WAIT? {
        state := CLOSE_WAIT;
      } else {
        state, onTable, snd := CLOSED, false, snd.Released();
      }
    }

    /** The end of the three handlers that take a FIN (src/usnet/tcp.c:750-764, 834-850, 971-981). */
    method FinishFin(seg: Segment, env: Env, next: State)
      requires Sound() && seg in story.seen && story.peerFin.None? && story.opener.Some?
      requires state.ESTABLISHED? || state.FIN_WAIT_1? || state.FIN_WAIT_2? || state.CLOSED?
      requires next.CLOSED? || (if story.finAcker.Some? then next.TIME_WAIT? else next.CLOSE_WAIT? || next.CLOSING?)
      requires !snd.timewait
      modifies `state, `rcvNxt, `story, `finSent, `onTable, `snd
      ensures Sound() && Extends(old(story), story)
      ensures snd.tripped == (old(snd.tripped) || (old(snd.armed) && next.TIME_WAIT? && seg.fin && seg.seqNo == old(rcvNxt)))
      ensures story.seen == old(story.seen) && (old(finSent) ==> finSent)
      ensures story.rcvPos == old(story.rcvPos) + if seg.fin && seg.seqNo == old(rcvNxt) then 1 else 0
      ensures !(seg.fin && seg.seqNo == old(rcvNxt)) ==> snd == old(snd)
      ensures onTable != old(onTable) ==> state.CLOSED?
      ensures if seg.fin && seg.seqNo == old(rcvNxt) then state == next && story.peerFin == Some(seg)
              else state == old(state) && story.peerFin == None
    {
      if seg.fin && seg.seqNo == rcvNxt {
        ConsumeFin(seg, next);
        SendControl(env);
      }
    }

    // ----- handlers that take payload

    /** The peer's FIN in `seg` is the next to be taken. */
    ghost predicate FinIsNext(seg: Segment, env: Env)
      reads `rcvNxt, `rcvWnd, `rcvbuf, rcvbuf
    {
      FinFits(rcvNxt, Stores(seg, env), seg)
    }

    /** The segment's bytes are recorded: a state that takes payload, and every test passed. */
    ghost predicate Takes(seg: Segment, env: Env)
      reads `state, `rcvNxt, `rcvWnd, `rcvbuf, rcvbuf
    {
      seg.len > 0 && Stores(seg, env) && Listens(state, seg)
    }

    /** Bytes that would be stored do not begin before `rcv_nxt`. */
    lemma StoredIsNotOld(seg: Segment, env: Env)
      requires Buffered() && Stores(seg, env)
      ensures !SeqLt(seg.seqNo, rcvNxt)
    {
    }

    method Receive(seg: Segment, env: Env)
      requires Valid() && (state.ESTABLISHED? || state.FIN_WAIT_1? || state.FIN_WAIT_2?)
      modifies `state, `rcvNxt, `rcvWnd, `rcvbuf, `headPos, `story, Footprint()
      ensures Valid() && fresh(Footprint() - old(Footprint()))
      ensures state == if old(Starved(seg, env)) then CLOSED else old(state)
      ensures story == old(story).(rcvPos := story.rcvPos) && story.rcvPos >= old(story.rcvPos)
      ensures forall p :: Got(p) <==> old(Got(p)) || (seg.len > 0 && old(Stores(seg, env)) && old(Span(seg)).Has(p))
      ensures seg.fin ==> (rcvNxt == seg.seqNo <==> old(FinIsNext(seg, env)))
      ensures seg.len == 0 ==> story == old(story) && rcvWnd == old(rcvWnd)
    {
      hide WindowTest;
      if seg.len > 0 {
        var _, _ := TakePayload(seg, env);
      }
    }

    /** What the states that take payload say about the past. */
    lemma StillOpen()
      requires Sound() && (state.ESTABLISHED? || state.FIN_WAIT_1? || state.FIN_WAIT_2?)
      ensures story.peerFin.None? && story.opener.Some? && !snd.timewait && (story.finAcker.Some? <==> state.FIN_WAIT_2?)
      ensures rcvNxt == Wrap32(headPos)
    {
      hide AcksInOrder;
    }

    /** The send side changes, with timewait as it was. */
    method SetSend(next: SendVars)
      requires Sound() && next.timewait == snd.timewait && !(next.armed && next.timewait)
      modifies `snd
      ensures Sound() && snd == next
    {
      hide AcksInOrder, Explained;
      snd := next;
    }

    /** usnet_handle_established. */
    method HandleEstablished(seg: Segment, env: Env)
      requires Valid() && state.ESTABLISHED? && seg in story.seen
      modifies `state, `rcvNxt, `rcvWnd, `rcvbuf, `headPos, `story, `finSent, `onTable, `snd, Footprint()
      ensures Valid() && fresh(Footprint() - old(Footprint()))
      ensures Extends(old(story), story)
      ensures forall p :: Got(p) <==> old(Got(p)) || (old(Takes(seg, env)) && old(Span(seg)).Has(p))
      ensures state == if seg.syn then ESTABLISHED else if old(FinIsNext(seg, env)) then CLOSE_WAIT
                       else if old(Starved(seg, env)) then CLOSED else ESTABLISHED
      ensures story.peerFin == if !seg.syn && old(FinIsNext(seg, env)) then Some(seg) else None
      ensures story.seen == old(story.seen) && (old(finSent) ==> finSent)
      ensures seg.len == 0 ==> rcvWnd == old(rcvWnd) && story.rcvPos == old(story.rcvPos) + if story.peerFin == old(story.peerFin) then 0 else 1
      ensures snd.tripped == old(snd.tripped) && (onTable != old(onTable) ==> state.CLOSED?)
    {
      hide Buffered, Sound, Stores, SendVars.Ack, WindowTest, ControlSent, SendsFin, SeqLt;
      StillOpen();
      if seg.syn {
        SetSend(snd.(nxt := seg.ackSeq));
        SendControl(env);
        return;
      }
      Receive(seg, env);
      if seg.ack {
        SetSend(AfterAck(seg, env));
      }
      FinishFin(seg, env, CLOSE_WAIT);
    }

    /**
     What FIN_WAIT_1 and FIN_WAIT_2 do with an acknowledging segment (src/usnet/tcp.c:824-850, 961-981).
     The first looks at the state again before a FIN, the second goes to TIME_WAIT in any case.
     */
    method FinWaitReceive(seg: Segment, env: Env, second: bool)
      requires Valid() && (state.FIN_WAIT_2? || (state.FIN_WAIT_1? && !second)) && seg in story.seen
      modifies `state, `rcvNxt, `rcvWnd, `rcvbuf, `headPos, `story, `finSent, `onTable, `snd, Footprint()
      ensures Valid() && fresh(Footprint() - old(Footprint()))
      ensures Extends(old(story), story)
      ensures forall p :: Got(p) <==> old(Got(p)) || (seg.len > 0 && old(Stores(seg, env)) && old(Span(seg)).Has(p))
      ensures state == if old(FinIsNext(seg, env)) && second then TIME_WAIT
                       else if old(Starved(seg, env)) then CLOSED
                       else if !old(FinIsNext(seg, env)) then old(state)
                       else if old(state).FIN_WAIT_1? then CLOSING else TIME_WAIT
      ensures story.peerFin == if old(FinIsNext(seg, env)) then Some(seg) else None
      ensures second ==> snd.tripped == (old(snd.tripped) || (old(snd.armed) && old(FinIsNext(seg, env))))
      ensures !old(snd.armed) || old(state).FIN_WAIT_1? ==> snd.tripped == old(snd.tripped)
      ensures !old(FinIsNext(seg, env)) ==> snd == old(snd)
      ensures onTable != old(onTable) ==> state.CLOSED?
      ensures story.seen == old(story.seen) && (old(finSent) ==> finSent)
      ensures seg.len == 0 ==> rcvWnd == old(rcvWnd) && story.rcvPos == old(story.rcvPos) + if story.peerFin == old(story.peerFin) then 0 else 1
    {
      hide Buffered, Sound, Stores, WindowTest;
      StillOpen();
      Receive(seg, env);
      FinishFin(seg, env, if second || state.FIN_WAIT_2? then TIME_WAIT else if state.FIN_WAIT_1? then CLOSING else CLOSED);
    }

    /**
     usnet_handle_fin_wait2.  Entering timewait fails its assertion exactly if the acknowledgement in
     the same segment left the timer armed.
     */
    method HandleFinWait2(seg: Segment, env: Env)
      requires Valid() && state.FIN_WAIT_2? && seg in story.seen
      modifies `state, `rcvNxt, `rcvWnd, `rcvbuf, `headPos, `story, `finSent, `onTable, `snd, Footprint()
      ensures Valid() && fresh(Footprint() - old(Footprint()))
      ensures Extends(old(story), story)
      ensures forall p :: Got(p) <==> old(Got(p)) || (old(Takes(seg, env)) && old(Span(seg)).Has(p))
      ensures state == if !seg.ack then FIN_WAIT_2 else if old(FinIsNext(seg, env)) then TIME_WAIT
                       else if old(Starved(seg, env)) then CLOSED else FIN_WAIT_2
      ensures story.peerFin == if seg.ack && old(FinIsNext(seg, env)) then Some(seg) else None
      ensures snd.tripped == (old(snd.tripped) || (seg.ack && old(FinIsNext(seg, env)) && old(AfterAck(seg, env)).armed))
      ensures state.FIN_WAIT_2? ==> snd == if seg.ack then old(AfterAck(seg, env)) else old(snd)
      ensures onTable != old(onTable) ==> state.CLOSED?
      ensures story.seen == old(story.seen) && (old(finSent) ==> finSent)
      ensures seg.len == 0 ==> rcvWnd == old(rcvWnd) && story.rcvPos == old(story.rcvPos) + if story.peerFin == old(story.peerFin) then 0 else 1
    {
      hide Buffered, Stores, SendVars.Ack, AcksInOrder, WindowTest;
      if seg.ack {
        snd := AfterAck(seg, env);
        FinWaitReceive(seg, env, true);
      }
    }

    /** src/usnet/tcp.c:793-822: an acknowledgement of our FIN moves on to FIN_WAIT_2. */
    method FinWait1Ack(seg: Segment, env: Env) returns (go: bool)
      requires Sound() && state.FIN_WAIT_1? && seg in story.seen
      modifies `state, `story, `finSent, `onTable, `snd
      ensures Sound() && Extends(old(story), story) && story.peerFin == None
      ensures snd.tripped == old(snd.tripped) && (state.FIN_WAIT_2? ==> !snd.armed) && onTable == old(onTable)
      ensures go <==> seg.ack && !SeqLt(seg.seqNo, rcvNxt)
      ensures state.FIN_WAIT_2? ==> snd == FinAcked(old(AfterAck(seg, env)), seg.ackSeq)
      ensures story.seen == old(story.seen) && story.rcvPos == old(story.rcvPos) && (old(finSent) ==> finSent)
      ensures state == if go && old(finSent) && seg.ackSeq == Inc32(fss) then FIN_WAIT_2 else FIN_WAIT_1
    {
      hide SendVars.Ack;
      if SeqLt(seg.seqNo, rcvNxt) {
        SendControl(env);
        return false;
      }
      if !seg.ack {
        return false;
      }
      snd := AfterAck(seg, env);
      if finSent && seg.ackSeq == Inc32(fss) {
        snd := FinAcked(snd, seg.ackSeq);
        state, story := FIN_WAIT_2, story.(finAcker := Some(seg));
      }
      go := true;
    }

    /** usnet_handle_fin_wait1. */
    method HandleFinWait1(seg: Segment, env: Env)
      requires Valid() && state.FIN_WAIT_1? && seg in story.seen
      modifies `state, `rcvNxt, `rcvWnd, `rcvbuf, `headPos, `story, `finSent, `onTable, `snd, Footprint()
      ensures Valid() && fresh(Footprint() - old(Footprint()))
      ensures Extends(old(story), story)
      ensures forall p :: Got(p) <==> old(Got(p)) || (old(Takes(seg, env)) && old(Span(seg)).Has(p))
      ensures var open := if old(finSent) && seg.ackSeq == Inc32(fss) then FIN_WAIT_2 else FIN_WAIT_1;
              state == if !seg.ack || SeqLt(seg.seqNo, old(rcvNxt)) then FIN_WAIT_1
                       else if old(Starved(seg, env)) then CLOSED
                       else if !old(FinIsNext(seg, env)) then open
                       else if open.FIN_WAIT_1? then CLOSING else TIME_WAIT
      ensures state.FIN_WAIT_2? ==> snd == FinAcked(old(AfterAck(seg, env)), seg.ackSeq)
      ensures story.seen == old(story.seen) && (old(finSent) ==> finSent)
      ensures seg.len == 0 ==> rcvWnd == old(rcvWnd) && story.rcvPos == old(story.rcvPos) + if story.peerFin == old(story.peerFin) then 0 else 1
      ensures story.peerFin == if seg.ack && old(FinIsNext(seg, env)) then Some(seg) else None
      ensures snd.tripped == old(snd.tripped) && (onTable != old(onTable) ==> state.CLOSED?)
    {
      hide Buffered, Sound, Stores, SeqLt, Inc32, WindowTest, SendVars.Ack, FinAcked;
      if Stores(seg, env) {
        StoredIsNotOld(seg, env);
      }
      NotBeforeItself(rcvNxt);
      var go := FinWait1Ack(seg, env);
      if go {
        FinWaitReceive(seg, env, false);
      }
    }

    // ----- one segment

    /** What usnet_validate_seq answers. */
    function Screen(seg: Segment): int
      reads `state, `rcvNxt, `rcvWnd, `sawTimestamp, `tsRecent
    {
      Screening(state, rcvNxt, rcvWnd, sawTimestamp, tsRecent, seg)
    }

    lemma ScreenRange(seg: Segment)
      ensures Screen(seg) <= 0
      ensures Screen(seg) != -1 && !seg.rst && sawTimestamp ==> seg.tsVal.Some?
    {
    }

    method Validate(seg: Segment, env: Env) returns (ret: int)
      requires Sound()
      modifies `tsRecent, `story, `finSent, `onTable, `snd
      ensures Sound() && ret == old(Screen(seg)) && snd.tripped == old(snd.tripped) && (ret == 0 || state.FIN_WAIT_2? ==> snd == old(snd))
      ensures old(finSent) ==> finSent
      ensures story == old(story) || story == old(story).Acked()
      ensures ret == 0 || state.ESTABLISHED? ==> story == old(story) && finSent == old(finSent)
      ensures onTable != old(onTable) ==> state.CLOSED?
      ensures tsRecent == if ret != -1 && ret != -2 && !seg.rst && sawTimestamp then seg.tsVal.value else old(tsRecent)
    {
      hide Screen, Sound, SeqLt;
      ScreenRange(seg);
      ret := Screen(seg);
      if ret == -1 || ret == -2 {
        return;
      }
      if !seg.rst && sawTimestamp {
        tsRecent := seg.tsVal.value;
      }
      if ret == -5 && !state.ESTABLISHED? {
        Rebuff(env);
      }
    }

    /** src/usnet/tcp.c:501-506. */
    method Rebuff(env: Env)
      requires Sound()
      modifies `story, `finSent, `onTable, `snd
      ensures Sound() && (story == old(story) || story == old(story).Acked()) && snd.tripped == old(snd.tripped)
      ensures onTable != old(onTable) ==> state.CLOSED?
      ensures (old(finSent) ==> finSent) && (state.FIN_WAIT_2? ==> snd == old(snd))
    {
      hide AcksInOrder, Explained;
      if state.TIME_WAIT? {
        snd := snd.Park();
      }
      SendControl(env);
    }

    /** The peer's FIN is consumed by exactly such a segment. */
    ghost predicate Consumes(seg: Segment, env: Env)
      reads `state, `rcvNxt, `rcvWnd, `rcvbuf, rcvbuf
    {
      FinIsNext(seg, env) && Listens(state, seg)
    }

    /** usnet_handle_time_wait: leave timewait and join it again at the tail. */
    method HandleTimeWait(env: Env)
      requires Sound() && state.TIME_WAIT?
      modifies `story, `finSent, `onTable, `snd
      ensures Sound() && snd == old(snd) && onTable == old(onTable) && finSent == old(finSent)
      ensures story == if Goes(state, env) then old(story).Acked() else old(story)
    {
      snd := snd.(timewait := false).Park();
      SendControl(env);
    }

    method ProcessQuiet(seg: Segment, env: Env)
      requires Sound() && seg in story.seen && !(state.ESTABLISHED? || state.FIN_WAIT_1? || state.FIN_WAIT_2?)
      modifies `state, `rcvNxt, `story, `finSent, `onTable, `snd
      ensures Sound() && Extends(old(story), story) && story.peerFin == old(story.peerFin) && snd.tripped == old(snd.tripped)
      ensures story.seen == old(story.seen) && (old(finSent) ==> finSent) && !state.FIN_WAIT_2?
      ensures !old(state).LISTEN? ==> story.rcvPos == old(story.rcvPos)
      ensures old(state).SYN_RECEIVED? ==> Establishes(seg, iss, old(snd), state, snd)
      ensures Earned(old(state), state, old(finSent), iss, fss, seg)
      ensures if old(state.CLOSED?) then onTable == old(onTable) else onTable != old(onTable) ==> state.CLOSED?
    {
      hide AcksInOrder, SendVars.Ack, ControlSent, SeqLt, Explained, Sound;
      match state
      case LISTEN => HandleListen(seg);
      case SYN_RECEIVED => HandleSynReceived(seg, env);
      case CLOSE_WAIT => HandleCloseWait(seg, env);
      case CLOSING => HandleClosing(seg, env);
      case LAST_ACK => HandleLastAck(seg, env);
      case TIME_WAIT => HandleTimeWait(env);
      case _ =>
    }

    method ProcessBusy(seg: Segment, env: Env)
      requires Valid() && seg in story.seen && (state.ESTABLISHED? || state.FIN_WAIT_1? || state.FIN_WAIT_2?)
      modifies `state, `rcvNxt, `rcvWnd, `rcvbuf, `headPos, `story, `finSent, `onTable, `snd, Footprint()
      ensures Valid() && fresh(Footprint() - old(Footprint()))
      ensures Extends(old(story), story)
      ensures forall p :: Got(p) <==> old(Got(p)) || (old(Takes(seg, env)) && old(Span(seg)).Has(p))
      ensures Earned(old(state), state, old(finSent), iss, fss, seg)
      ensures story.peerFin == if old(Consumes(seg, env)) then Some(seg) else None
      ensures snd.tripped == (old(snd.tripped) || (old(state).FIN_WAIT_2? && old(Consumes(seg, env)) && old(AfterAck(seg, env)).armed))
      ensures story.seen == old(story.seen) && (old(finSent) ==> finSent)
      ensures seg.len == 0 && !old(state).LISTEN? ==>
                rcvWnd == old(rcvWnd) && story.rcvPos == old(story.rcvPos) + if story.peerFin == old(story.peerFin) then 0 else 1
      ensures old(state).SYN_RECEIVED? ==> Establishes(seg, iss, old(snd), state, snd)
      ensures old(state).FIN_WAIT_1? ==> AcksOurFin(seg, old(rcvNxt), old(finSent), fss, old(AfterAck(seg, env)), state, snd)
      ensures StaysCalm(old(state), old(snd), old(AfterAck(seg, env)), state, snd) && (onTable != old(onTable) ==> state.CLOSED?)
    {
      hide SendVars.Ack, SeqLt, WindowTest;
      NotBeforeItself(rcvNxt);
      match state
      case ESTABLISHED => HandleEstablished(seg, env);
      case FIN_WAIT_1 => HandleFinWait1(seg, env);
      case FIN_WAIT_2 => HandleFinWait2(seg, env);
    }

    method Process(seg: Segment, env: Env)
      requires Valid() && seg in story.seen
      modifies `state, `rcvNxt, `rcvWnd, `rcvbuf, `headPos, `story, `finSent, `onTable, `snd, Footprint()
      ensures Valid() && fresh(Footprint() - old(Footprint()))
      ensures Extends(old(story), story)
      ensures forall p :: Got(p) <==> old(Got(p)) || (old(Takes(seg, env)) && old(Span(seg)).Has(p))
      ensures Earned(old(state), state, old(finSent), iss, fss, seg)
      ensures story.peerFin == if old(Consumes(seg, env)) then Some(seg) else old(story.peerFin)
      ensures old(state.CLOSED?) ==> onTable == old(onTable)
      ensures snd.tripped == (old(snd.tripped) || (old(state).FIN_WAIT_2? && old(Consumes(seg, env)) && old(AfterAck(seg, env)).armed))
      ensures story.seen == old(story.seen) && (old(finSent) ==> finSent)
      ensures seg.len == 0 && !old(state).LISTEN? ==>
                rcvWnd == old(rcvWnd) && story.rcvPos == old(story.rcvPos) + if story.peerFin == old(story.peerFin) then 0 else 1
      ensures old(state).SYN_RECEIVED? ==> Establishes(seg, iss, old(snd), state, snd)
      ensures old(state).FIN_WAIT_1? ==> AcksOurFin(seg, old(rcvNxt), old(finSent), fss, old(AfterAck(seg, env)), state, snd)
      ensures StaysCalm(old(state), old(snd), old(AfterAck(seg, env)), state, snd) && (onTable != old(onTable) ==> state.CLOSED?)
    {
      hide SendVars.Ack, FinAcked, WindowTest;
      if state.ESTABLISHED? || state.FIN_WAIT_1? || state.FIN_WAIT_2? {
        ProcessBusy(seg, env);
      } else {
        ProcessQuiet(seg, env);
      }
    }

    /** The part of usnet_tcp_input before the switch: validation, then RST. */
    method Admit(seg: Segment, env: Env) returns (ok: bool)
      requires Sound()
      modifies `state, `tsRecent, `story, `finSent, `onTable, `snd
      ensures snd.tripped == old(snd.tripped) && (ok && state == old(state) ==> snd == old(snd))
      ensures onTable != old(onTable) ==> state.CLOSED?
      ensures (old(finSent) ==> finSent) && (state.FIN_WAIT_2? ==> snd == old(snd))
      ensures !ok ==> story.seen == old(story.seen) && story.rcvPos == old(story.rcvPos)
      ensures Sound() && ok == (old(state.LISTEN?) || old(state.CLOSED?) || old(Screen(seg)) == 0)
      ensures ok ==> story == old(story).Saw(seg) && finSent == old(finSent)
      ensures !ok ==> Extends(old(story), story) && story.peerFin == old(story.peerFin) && state == old(state)
      ensures ok ==> AfterRst(old(state), state, seg)
    {
      hide Screen;
      if !state.LISTEN? && !state.CLOSED? {
        ScreenRange(seg);
        var ret := Validate(seg, env);
        if ret < 0 {
          return false;
        }
      }
      story := story.Saw(seg);
      if seg.rst && !state.LISTEN? && !state.CLOSED? {
        HandleRst(seg);
      }
      ok := true;
    }

    /** The segment reaches its handler. */
    predicate Admits(seg: Segment)
      reads `state, `rcvNxt, `rcvWnd, `sawTimestamp, `tsRecent
    {
      state.LISTEN? || state.CLOSED? || Screen(seg) == 0
    }

    /** usnet_tcp_input for a connection in the table. */
    method Input(seg: Segment, env: Env) returns (ret: int)
      requires Valid()
      modifies `state, `rcvNxt, `rcvWnd, `rcvbuf, `headPos, `story, `finSent, `onTable, `tsRecent, `snd, Footprint()
      ensures Valid() && fresh(Footprint() - old(Footprint()))
      ensures Extends(old(story), story)
      ensures forall p :: Got(p) <==> old(Got(p)) || (old(Screen(seg)) == 0 && !seg.rst && old(Takes(seg, env)) && old(Span(seg)).Has(p))
      ensures Earned(old(state), state, old(finSent), iss, fss, seg)
      ensures state != old(state) ==> old(state.LISTEN?) || old(Screen(seg)) == 0
      ensures story.peerFin ==
              if old(Screen(seg)) == 0 && !seg.rst && old(Consumes(seg, env)) then Some(seg) else old(story.peerFin)
      ensures snd.tripped ==
              (old(snd.tripped) || (old(Screen(seg)) == 0 && !seg.rst && old(state).FIN_WAIT_2? && old(Consumes(seg, env)) && old(AfterAck(seg, env)).armed))
      ensures story.seen == old(story.seen) + if old(Admits(seg)) then [seg] else []
      ensures old(finSent) ==> finSent
      ensures seg.len == 0 && !old(state).LISTEN? ==>
                rcvWnd == old(rcvWnd) && story.rcvPos == old(story.rcvPos) + if story.peerFin == old(story.peerFin) then 0 else 1
      ensures old(state).SYN_RECEIVED? && old(Screen(seg)) == 0 && !seg.rst ==> Establishes(seg, iss, old(snd), state, snd)
      ensures old(state).FIN_WAIT_1? && old(Screen(seg)) == 0 && !seg.rst ==>
                AcksOurFin(seg, old(rcvNxt), old(finSent), fss, old(AfterAck(seg, env)), state, snd)
      ensures StaysCalm(old(state), old(snd), old(AfterAck(seg, env)), state, snd) && (onTable != old(onTable) ==> state.CLOSED?)
    {
      hide Buffered, Sound, Screen, FinIsNext, SendVars.Ack, FinAcked, Inc32;
      var ok := Admit(seg, env);
      ret := if ok then 0 else -3;
      if ok {
        ghost var mid := state;
        assert Footprint() == old(Footprint());
        Process(seg, env);
        RstThenHandler(old(state), mid, state, old(finSent), iss, fss, seg);
      }
    }

    // ----- timers, the application, and whole runs

    /** What usnet_handle_rto and the two expiry scans do to the state (src/usnet/timer.c:219-241, 271-358, 444-451, 480-492). */
    method Timeout(event: Event, env: Env)
      requires Sound() && !state.LISTEN?
      requires event.Retransmit? || event.IdleTimeout? || (event.TimewaitExpire? && state.TIME_WAIT?)
      modifies `state, `story, `finSent, `onTable, `snd
      ensures Sound() && (story == old(story) || story == old(story).Acked()) && snd.tripped == old(snd.tripped)
      ensures event.Retransmit? ==> !snd.armed
      ensures state == if event.Retransmit? && !event.exhausted then old(state) else CLOSED
      ensures event.TimewaitExpire? ==> !onTable
      ensures event.IdleTimeout? ==> onTable == env.socket
      ensures event.Retransmit? && event.exhausted ==> onTable == (env.socket && !old(state.CLOSED?) && !old(state.SYN_RECEIVED?))
      ensures event.Retransmit? && !event.exhausted ==>
                onTable == (old(onTable) && !(state.CLOSED? || state.FIN_WAIT_2? || state.TIME_WAIT?))
    {
      hide Sound;
      if event.TimewaitExpire? {
        Shut(false, false);
      } else if event.IdleTimeout? {
        Shut(env.socket, snd.armed);
      } else if event.exhausted {
        Shut(env.socket && !(state.CLOSED? || state.SYN_RECEIVED?), false);
      } else if state.CLOSED? || state.FIN_WAIT_2? || state.TIME_WAIT? {
        Release();
      } else {
        Retransmission(env);
      }
    }

    /** CLOSED, and released unless a socket keeps it. */
    method Shut(keep: bool, armed: bool)
      requires Sound() && !state.LISTEN? && (armed ==> snd.armed)
      modifies `state, `onTable, `snd
      ensures Sound() && state.CLOSED? && onTable == keep && snd.tripped == old(snd.tripped)
      ensures snd.armed == (keep && armed)
    {
      hide AcksInOrder;
      state, onTable := CLOSED, keep;
      snd := if keep then snd.(armed := armed) else snd.Released();
    }

    /** An expiry in a state the source does not expect (src/usnet/timer.c:317-325). */
    method Release()
      requires Sound()
      modifies `onTable, `snd
      ensures Sound() && !onTable && !snd.armed && snd.tripped == old(snd.tripped)
    {
      hide AcksInOrder, Explained;
      onTable, snd := false, snd.Disarm();
    }

    /** src/usnet/timer.c:328-356, and the unlinking after it at src/usnet/timer.c:394-396. */
    method Retransmission(env: Env)
      requires Sound() && !(state.LISTEN? || state.CLOSED? || state.FIN_WAIT_2? || state.TIME_WAIT?)
      modifies `story, `finSent, `onTable, `snd
      ensures Sound() && (story == old(story) || story == old(story).Acked()) && onTable == old(onTable)
      ensures !snd.armed && snd.tripped == old(snd.tripped) && snd.una == old(snd.una)
    {
      hide AcksInOrder, SeqLt;
      snd := snd.(nxt := snd.una);
      if state.SYN_RECEIVED? || ((state.FIN_WAIT_1? || state.CLOSING? || state.LAST_ACK?) && !SeqLt(snd.nxt, fss)) {
        SendControl(env);
      }
      snd := snd.Disarm();
    }

    /** The application closes: the step that supplies FIN_WAIT_1 and LAST_ACK. */
    method AppClose(newFss: u32)
      requires Sound()
      modifies `state, `fss
      ensures fss == if old(state).ESTABLISHED? || old(state).CLOSE_WAIT? then newFss else old(fss)
      ensures Sound() && state == (match old(state) case ESTABLISHED => FIN_WAIT_1 case CLOSE_WAIT => LAST_ACK case s => s)
    {
      if state.ESTABLISHED? || state.CLOSE_WAIT? {
        fss := newFss;
        state := if state.ESTABLISHED? then FIN_WAIT_1 else LAST_ACK;
      }
    }

    /** usnet_read frees ring space: the application moves `data`. */
    method AppTake(data: u16)
      requires Buffered()
      modifies rcvbuf
      ensures Buffered() && forall p :: Got(p) <==> old(Got(p))
    {
      if rcvbuf != null {
        rcvbuf.data := data;
      }
    }

    function Now(): Instant
      reads this, rcvbuf
    {
      Instant(state, finSent, fss, snd, onTable, rcvNxt, rcvWnd, sawTimestamp, tsRecent, rcvbuf != null, Room())
    }

    /** What the class says of a segment is what is said of this moment. */
    lemma NowSays(seg: Segment, env: Env)
      ensures Now().Heeds(seg) <==> Screen(seg) == 0 && !seg.rst
      ensures Now().Consumes(seg, ringSize, env) <==> Screen(seg) == 0 && !seg.rst && Consumes(seg, env)
    {
    }

    /** No FIN was consumed before this one, which is one number further on. */
    lemma FinIsFirst(seg: Segment, env: Env)
      requires Sound()
      ensures Consumes(seg, env) ==> story.peerFin == None
      ensures rcvNxt == Wrap32(story.rcvPos) && Inc32(rcvNxt) == Wrap32(story.rcvPos + 1)
    {
      Inc32Wraps(story.rcvPos);
    }

    lemma NextIs()
      requires Sound()
      ensures rcvNxt == Wrap32(story.rcvPos)
    {
    }

    /** A segment arrives for a connection in the table. */
    method OnSegment(seg: Segment, env: Env)
      requires Valid() && onTable
      modifies this, Footprint()
      ensures Valid() && fresh(Footprint() - old(Footprint()))
      ensures Extends(old(story), story) && forall p :: old(Got(p)) ==> Got(p)
      ensures story.seen == old(story.seen) || story.seen == old(story.seen) + [seg]
      ensures Took(seg, env, iss, ringSize, old(Now()), Now())
    {
      hide Buffered, Sound, Screen, Consumes, Stores, Storable, SendVars.Ack, Establishes, AcksOurFin, Earned, Screening, Instant.Consumes, Instant.Heeds, Extends, StaysCalm, FinAcked, Inc32, Listens, FinFits;
      NowSays(seg, env);
      FinIsFirst(seg, env);
      var _ := Input(seg, env);
      NextIs();
    }

    /** One event.  A timer event needs an entry on a timer list, so the connection is past LISTEN. */
    method Step(event: Event, env: Env)
      requires Valid()
      modifies this, Footprint()
      ensures Valid() && fresh(Footprint() - old(Footprint()))
      ensures Extends(old(story), story) && forall p :: old(Got(p)) ==> Got(p)
      ensures story.seen == old(story.seen) || (event.Arrive? && story.seen == old(story.seen) + [event.seg])
      ensures Passage(old(state), state, event)
      ensures Follows(event, env, iss, ringSize, old(Now()), Now())
      ensures snd.tripped != old(snd.tripped) ==> event.Arrive? && old(state).FIN_WAIT_2?
      ensures old(Calm(state, snd)) && (event.Arrive? && old(state).FIN_WAIT_2? ==> Drained(old(snd), env)) ==>
                Calm(state, snd) && snd.tripped == old(snd.tripped)
    {
      hide Buffered, Sound, Took, Follows, Expired, Calm, Passage, ControlSent, SendsFin, Extends;
      NoneArrived(story, []);
      if !onTable {
        NoChange(event, env, iss, ringSize, Now());
      } else if event.Arrive? {
        OnSegment(event.seg, env);
        TookFollows(event, env, iss, ringSize, old(Now()), Now());
      } else {
        OnOther(event, env);
        OtherPassage(event, env, iss, ringSize, old(Now()), Now());
      }
    }

    /** An event other than a segment happens to a connection in the table. */
    method OnOther(event: Event, env: Env)
      requires Valid() && onTable && !event.Arrive?
      modifies this, rcvbuf
      ensures Valid() && Footprint() == old(Footprint())
      ensures Extends(old(story), story) && story.seen == old(story.seen) && forall p :: old(Got(p)) ==> Got(p)
      ensures Follows(event, env, iss, ringSize, old(Now()), Now())
    {
      hide Buffered, Sound, ControlSent, SendsFin, DataSent, Goes, Expired, Took, Extends;
      AckedExtends(story);
      if event.AppRead? {
        AppTake(event.data);
      } else if event.ControlQueued? {
        SendControl(env);
      } else if event.SendQueued? {
        SendData(event.len);
      } else if event.Close? {
        AppClose(event.fss);
      } else {
        OnTimer(event, env);
      }
    }

    method OnTimer(event: Event, env: Env)
      requires Sound() && (event.Retransmit? || event.IdleTimeout? || event.TimewaitExpire?)
      modifies `state, `story, `finSent, `onTable, `snd
      ensures Sound() && (story == old(story) || story == old(story).Acked())
      ensures Expired(event, env, old(Now()), Now())
    {
      hide Sound;
      if !state.LISTEN? && (event.TimewaitExpire? ==> state.TIME_WAIT?) {
        Timeout(event, env);
      }
    }

    /**
     Any run.  Acknowledgements never go back and cover only received positions; every segment the
     story tells of is one that arrived; every transition is an allowed one, so that CLOSED is absorbing
     and unless the application closes no state past CLOSE_WAIT is ever entered.  Each moment follows
     from the one before and the event, in particular when entering timewait fails its assertion; that
     never happens as long as nothing is buffered behind our FIN once that is acknowledged.
     */
    method Run(events: seq<Event>, envs: seq<Env>) returns (ghost trace: seq<Instant>)
      requires Valid() && |envs| == |events|
      modifies this, Footprint()
      ensures Valid() && fresh(Footprint() - old(Footprint()))
      ensures Extends(old(story), story) && forall p :: old(Got(p)) ==> Got(p)
      ensures Arrived(old(story), story, events)
      ensures |trace| == |events| + 1 && trace[0] == old(Now()) && trace[|events|] == Now()
      ensures forall i | 0 <= i < |events| :: Passage(trace[i].state, trace[i + 1].state, events[i])
      ensures forall i | 0 <= i < |events| :: Follows(events[i], envs[i], iss, ringSize, trace[i], trace[i + 1])
      ensures old(state.CLOSED?) ==> state.CLOSED?
      ensures Unclosed(old(state)) && (forall e <- events :: !e.Close?) ==> Unclosed(state) && snd.tripped == old(snd.tripped)
      ensures old(Calm(state, snd)) && AlwaysDrained(trace, events, envs) ==> snd.tripped == old(snd.tripped)
    {
      hide Buffered, Sound, Arrived, Extends, Passage, Follows, DrainedSoFar, Drained;
      trace := [Now()];
      NoneArrived(story, events);
      for i := 0 to |events|
        invariant Valid() && fresh(Footprint() - old(Footprint()))
        invariant Extends(old(story), story) && forall p :: old(Got(p)) ==> Got(p)
        invariant Arrived(old(story), story, events)
        invariant |trace| == i + 1 && trace[0] == old(Now()) && trace[i] == Now()
        invariant forall j | 0 <= j < i :: Passage(trace[j].state, trace[j + 1].state, events[j])
        invariant forall j | 0 <= j < i :: Follows(events[j], envs[j], iss, ringSize, trace[j], trace[j + 1])
        invariant old(state.CLOSED?) ==> state.CLOSED?
        invariant Unclosed(old(state)) && (forall j | 0 <= j < i :: !events[j].Close?) ==> Unclosed(state) && snd.tripped == old(snd.tripped)
        invariant old(Calm(state, snd)) && DrainedSoFar(trace, events, envs, i) ==> Calm(state, snd) && snd.tripped == old(snd.tripped)
      {
        ghost var was := story;
        Step(events[i], envs[i]);
        MoreArrived(old(story), was, story, events, i);
        DrainedStep(trace, Now(), events, envs, i);
        PassageTells(trace[i].state, state, events[i]);
        trace := trace + [Now()];
      }
    }

    /** The stream position of the FIN that was consumed: after the bytes its segment carried. */
    ghost function FinPos(): int
      reads `headPos, `story
    {
      headPos + if story.peerFin.Some? then story.peerFin.value.len else 0
    }

    /**
     `rcv_nxt` covers exactly the received prefix and the peer's FIN, if and only if no FIN was
     consumed whose own bytes had not been stored.
     */
    lemma AcknowledgesOnlyReceived()
      requires Valid() && !state.LISTEN?
      ensures story.rcvPos == headPos + if story.peerFin.Some? then 1 else 0
      ensures !Got(headPos) && forall p | p < headPos :: Got(p)
      ensures !story.Lossy() <==>
              forall p | p < story.rcvPos :: Got(p) || (story.peerFin.Some? && p == FinPos())
    {
      if rcvbuf != null {
        rcvbuf.HeadIsFirstGap();
      }
      forall p | p < headPos ensures Got(p) { assert rcvbuf != null ==> rcvbuf.Got(p); }
      assert !Got(headPos);
    }

    /** So every acknowledgement ever sent covers only received bytes and the peer's FIN. */
    lemma EveryAckIsSound(i: nat)
      requires Valid() && i < |story.acks| && !story.Lossy() && !state.LISTEN?
      ensures forall p | p < story.acks[i] :: Got(p) || (story.peerFin.Some? && p == FinPos())
      ensures forall j | i <= j < |story.acks| :: story.acks[i] <= story.acks[j] <= story.rcvPos
    {
      AcknowledgesOnlyReceived();
      forall j | i <= j < |story.acks| ensures story.acks[i] <= story.acks[j] { assert i < j ==> NotAhead(story.acks, i, j); }
    }

    /** TIME_WAIT is entered only with our FIN acknowledged at `fss + 1` and the peer's FIN consumed. */
    lemma TimeWaitIsEarned()
      requires Valid() && state.TIME_WAIT?
      ensures exists s <- story.seen :: finSent && s.ack && s.ackSeq == Inc32(fss)
      ensures exists s <- story.seen :: s.fin && s.seqNo == Wrap32(headPos) && Wrap32(headPos + 1) == rcvNxt
      ensures exists s <- story.seen :: s.ack && s.ackSeq == Inc32(iss)
    {
      assert story.finAcker.value in story.seen;
      assert story.peerFin.value in story.seen;
      assert story.opener.value in story.seen;
    }

    /**
     What the receive path is for: in-order data that fits, to a connection that takes data, is
     received, and the next number to acknowledge is at least the one behind it.
     */
    method InOrderIsReceived(seg: Segment, env: Env)
      requires Valid() && Listens(state, seg) && !seg.rst && seg.seqNo == rcvNxt
      requires 0 < seg.len < rcvWnd < 0x8000_0000 && seg.len <= ringSize && seg.len <= Room()
      requires (rcvbuf != null || env.bufferFree) && env.fragmentsFree > 0
      requires sawTimestamp ==> seg.tsVal.Some? && !SeqLt(seg.tsVal.value, tsRecent)
      modifies this, Footprint()
      ensures Valid() && story.peerFin == old(story.peerFin)
      ensures story.rcvPos == headPos >= old(headPos) + seg.len
      ensures forall p | old(headPos) <= p < old(headPos) + seg.len :: Got(p)
    {
      hide Buffered, Screen, Stores, SeqLt;
      StillOpen();
      InOrderFits(seg, env);
      InOrderScreened(seg);
      var _ := Input(seg, env);
      AcknowledgesOnlyReceived();
    }

    /** Such a segment: one byte with FIN at `rcv_nxt` while the fragment pool is exhausted. */
    lemma LosesByte(seg: Segment, env: Env)
      requires Sound() && state.ESTABLISHED? && 2 <= rcvWnd < 0x8000_0000
      requires seg == Segment(false, true, true, false, rcvNxt, seg.ackSeq, 1, seg.tsVal) && env.fragmentsFree == 0
      requires sawTimestamp ==> seg.tsVal.Some? && !SeqLt(seg.tsVal.value, tsRecent)
      ensures Screen(seg) == 0 && Consumes(seg, env)
    {
      hide Sound, WindowTest, RB.Admission, Screen, SeqLt;
      StillOpen();
      InOrderScreened(seg);
    }

    /**
     The failing family is not empty: in every established connection with a window such a segment
     moves `rcv_nxt` past a byte that was not received and is not the FIN.
     */
    method LostByteIsAcknowledged(seg: Segment, env: Env) returns (ghost lost: int)
      requires Valid() && state.ESTABLISHED? && 2 <= rcvWnd < 0x8000_0000
      requires seg == Segment(false, true, true, false, rcvNxt, seg.ackSeq, 1, seg.tsVal) && env.fragmentsFree == 0
      requires sawTimestamp ==> seg.tsVal.Some? && !SeqLt(seg.tsVal.value, tsRecent)
      modifies this, Footprint()
      ensures Valid() && story.Lossy()
      ensures lost < story.rcvPos && !Got(lost) && lost != FinPos()
    {
      hide Buffered, Screen, Consumes;
      LosesByte(seg, env);
      var _ := Input(seg, env);
      AcknowledgesOnlyReceived();
      lost := headPos;
    }
  }

  /** In FIN_WAIT_2 the segments so far found nothing buffered behind our FIN. */
  ghost predicate DrainedSoFar(trace: seq<Instant>, events: seq<Event>, envs: seq<Env>, k: nat)
    requires k < |trace| && k <= |events| == |envs|
  {
    forall i | 0 <= i < k :: events[i].Arrive? && trace[i].state.FIN_WAIT_2? ==> Drained(trace[i].snd, envs[i])
  }

  ghost predicate AlwaysDrained(trace: seq<Instant>, events: seq<Event>, envs: seq<Env>)
    requires |trace| == |events| + 1 && |events| == |envs|
  {
    DrainedSoFar(trace, events, envs, |events|)
  }

  lemma AckedExtends(a: Story)
    ensures Extends(a, a) && Extends(a, a.Acked())
  {
  }

  lemma NoChange(e: Event, env: Env, iss: u32, ringSize: nat, a: Instant)
    requires !a.onTable
    ensures Follows(e, env, iss, ringSize, a, a) && Passage(a.state, a.state, e)
  {
  }

  lemma TookFollows(e: Event, env: Env, iss: u32, ringSize: nat, a: Instant, b: Instant)
    requires a.onTable && e.Arrive? && Took(e.seg, env, iss, ringSize, a, b)
    ensures Follows(e, env, iss, ringSize, a, b) && Passage(a.state, b.state, e)
    ensures b.snd.tripped != a.snd.tripped ==> a.state.FIN_WAIT_2?
    ensures Calm(a.state, a.snd) && (a.state.FIN_WAIT_2? ==> Drained(a.snd, env)) ==> Calm(b.state, b.snd) && b.snd.tripped == a.snd.tripped
  {
    hide Instant.Heeds, Instant.Consumes, AckedBy, Establishes, AcksOurFin, Drained;
    if !a.snd.armed && Drained(a.snd, env) {
      DrainedStaysCalm(a.state, a.finSent, a.fss, a.snd, e.seg, env);
    }
  }

  lemma OtherPassage(e: Event, env: Env, iss: u32, ringSize: nat, a: Instant, b: Instant)
    requires a.onTable && !e.Arrive? && Follows(e, env, iss, ringSize, a, b)
    ensures Passage(a.state, b.state, e) && b.snd.tripped == a.snd.tripped
    ensures Calm(a.state, a.snd) ==> Calm(b.state, b.snd)
  {
  }

  lemma PassageTells(a: State, b: State, e: Event)
    requires Passage(a, b, e)
    ensures a.CLOSED? ==> b.CLOSED?
    ensures Unclosed(a) && !e.Close? ==> Unclosed(b)
  {
  }

  lemma DrainedStep(trace: seq<Instant>, next: Instant, events: seq<Event>, envs: seq<Env>, i: nat)
    requires |trace| == i + 1 && i < |events| == |envs|
    ensures DrainedSoFar(trace + [next], events, envs, i + 1) ==>
              && DrainedSoFar(trace, events, envs, i)
              && (events[i].Arrive? && trace[i].state.FIN_WAIT_2? ==> Drained(trace[i].snd, envs[i]))
  {
    hide Drained;
    if DrainedSoFar(trace + [next], events, envs, i + 1) {
      forall j | 0 <= j <= i
        ensures events[j].Arrive? && trace[j].state.FIN_WAIT_2? ==> Drained(trace[j].snd, envs[j])
      {
        assert (trace + [next])[j] == trace[j];
      }
    }
  }

  lemma DrainedStaysCalm(state: State, finSent: bool, fss: u32, snd: SendVars, seg: Segment, env: Env)
    requires !snd.armed && Drained(snd, env)
    ensures !AckedBy(state, finSent, fss, snd, seg, env).armed
  {
    hide SendVars.Ack;
    if env.sndbuf {
      EmptyNeverRearms(snd, if finSent && seg.ackSeq == Inc32(fss) && !state.ESTABLISHED? then fss else seg.ackSeq, env.third);
    }
  }

  /** Every segment the story tells of that was not there before is one of the arrivals. */
  ghost predicate Arrived(a: Story, b: Story, events: seq<Event>)
  {
    |a.seen| <= |b.seen| && forall k | |a.seen| <= k < |b.seen| :: Arrive(b.seen[k]) in events
  }

  lemma NoneArrived(a: Story, events: seq<Event>)
    ensures Arrived(a, a, events) && Extends(a, a)
  {
  }

  lemma MoreArrived(a: Story, b: Story, c: Story, events: seq<Event>, i: nat)
    requires Arrived(a, b, events) && i < |events| && Extends(a, b) && Extends(b, c)
    requires c.seen == b.seen || (events[i].Arrive? && c.seen == b.seen + [events[i].seg])
    ensures Arrived(a, c, events) && Extends(a, c)
  {
    if c.seen != b.seen {
      assert Arrive(c.seen[|b.seen|]) == events[i];
    }
  }

  datatype Answer = NoAnswer | Reset(seqNo: u32) | ResetAck(ackNo: u32)

  /**
   A segment for which no connection exists (src/usnet/tcp.c:996-1062, then the LISTEN case of
   src/usnet/tcp.c:1143-1146): a connection results exactly for a SYN without ACK to the listener
   while the table has room.
   */
  method PassiveOpen(seg: Segment, listening: bool, tableFree: bool, iss: u32, ringSize: nat)
    returns (c: Connection?, answer: Answer)
    requires 0 < ringSize <= 0xFFFF
    ensures c != null <==> seg.syn && !seg.ack && listening && tableFree
    ensures c != null ==>
              && fresh(c) && c.Valid() && c.state.SYN_RECEIVED? && c.rcvNxt == Inc32(seg.seqNo) && c.iss == iss
              && c.story.seen == [seg] && c.story.rcvPos == Inc32(seg.seqNo) && c.story.peerFin == None && c.rcvbuf == null
              && c.snd == SendVars(iss, iss, Inc32(iss), false, false, false) && !c.finSent
              && c.rcvWnd == TCP_INITIAL_WINDOW && c.sawTimestamp == seg.tsVal.Some? && c.onTable && c.ringSize == ringSize
    ensures answer.NoAnswer? <==> c != null || (seg.rst && !(seg.syn && !seg.ack))
  {
    answer := NoAnswer;
    if OpensConnection(seg) {
      if !listening || !tableFree {
        return null, ResetAck(Wrap32(seg.seqNo + seg.len + 1));
      }
      c := new Connection(seg.seqNo, iss, ringSize, seg.tsVal);
      c.story := c.story.Saw(seg);
      c.HandleListen(seg);
    } else {
      c := null;
      if !seg.rst {
        answer := if seg.ack then Reset(seg.ackSeq) else ResetAck(Wrap32(seg.seqNo + seg.len));
      }
    }
  }

  // ----- a run in which entering timewait fails its assertion

  function Bare(fin: bool, ackSeq: u32): Segment { Segment(false, true, fin, false, 1, ackSeq, 0, None) }

  /**
   A connection is opened and closed at once, with our FIN at 101; five bytes written after it are sent
   behind the FIN; the peer acknowledges the FIN alone, and then two of the five bytes together with
   its own FIN.
   */
  function TripEvents(): seq<Event>
  {
    [ControlQueued, Arrive(Bare(false, 101)), Close(101), ControlQueued, SendQueued(5),
     Arrive(Bare(false, 102)), Arrive(Bare(true, 104))]
  }

  /** Every packet is taken; the send buffer holds ten bytes when there is one. */
  function TripEnv(sndbuf: bool): Env { Env(true, 1, false, true, false, sndbuf, 10, false) }

  function TripEnvs(): seq<Env>
  {
    [TripEnv(false), TripEnv(false), TripEnv(false), TripEnv(false), TripEnv(false), TripEnv(true), TripEnv(true)]
  }

  /** Nothing received but the SYN at 0; the state and the send side are as given. */
  predicate At(i: Instant, state: State, nxt: u32, una: u32, armed: bool)
  {
    && i.state == state && i.snd == SendVars(nxt, una, 101, armed, false, false)
    && i.onTable && i.rcvNxt == 1 && i.rcvWnd == TCP_INITIAL_WINDOW && !i.sawTimestamp
  }

  lemma PlainHeeded(i: Instant, fin: bool, ackSeq: u32)
    requires i.rcvNxt == 1 && i.rcvWnd == TCP_INITIAL_WINDOW && !i.sawTimestamp
    ensures i.Heeds(Bare(fin, ackSeq))
  {
    assert Wrap32(1 + 0) == 1 && Wrap32(1 + 14600 - 1) == 14600;
  }

  /** The handshake: SYN/ACK out, its acknowledgement in. */
  lemma TripOpens(a: Instant, b: Instant, c: Instant)
    requires At(a, SYN_RECEIVED, 100, 100, false)
    requires Follows(ControlQueued, TripEnv(false), 100, 8096, a, b)
    requires Follows(Arrive(Bare(false, 101)), TripEnv(false), 100, 8096, b, c)
    ensures At(c, ESTABLISHED, 101, 101, false)
  {
    hide Instant.Heeds, AckedBy, Earned;
    assert At(b, SYN_RECEIVED, 101, 100, true);
    PlainHeeded(b, false, 101);
  }

  /** The application closes, the FIN goes out and then five bytes behind it. */
  lemma TripCloses(a: Instant, b: Instant, c: Instant, d: Instant)
    requires At(a, ESTABLISHED, 101, 101, false)
    requires Follows(Close(101), TripEnv(false), 100, 8096, a, b)
    requires Follows(ControlQueued, TripEnv(false), 100, 8096, b, c)
    requires Follows(SendQueued(5), TripEnv(false), 100, 8096, c, d)
    ensures At(d, FIN_WAIT_1, 107, 101, true) && d.finSent && d.fss == 101
  {
    assert At(b, FIN_WAIT_1, 101, 101, false) && b.fss == 101;
    assert At(c, FIN_WAIT_1, 102, 101, true) && c.finSent && c.fss == 101;
    assert Wrap32(102 + 5) == 107;
  }

  /** Our FIN is acknowledged alone, and then two bytes behind it together with the peer's FIN. */
  lemma TripEnds(a: Instant, b: Instant, c: Instant)
    requires At(a, FIN_WAIT_1, 107, 101, true) && a.finSent && a.fss == 101
    requires Follows(Arrive(Bare(false, 102)), TripEnv(true), 100, 8096, a, b)
    requires Follows(Arrive(Bare(true, 104)), TripEnv(true), 100, 8096, b, c)
    ensures At(b, FIN_WAIT_2, 107, 102, false) && c.snd.tripped
  {
    hide Instant.Heeds, SendVars.Ack, FinAcked;
    TripNumbers();
    PlainHeeded(a, false, 102);
    PlainHeeded(b, true, 104);
  }

  /** The moments of a run over these events. */
  ghost predicate TripTrace(trace: seq<Instant>)
  {
    |trace| == 8 && forall i | 0 <= i < 7 :: Follows(TripEvents()[i], TripEnvs()[i], 100, 8096, trace[i], trace[i + 1])
  }

  lemma EndsTripped(trace: seq<Instant>)
    requires TripTrace(trace) && At(trace[0], SYN_RECEIVED, 100, 100, false)
    ensures trace[7].snd.tripped
  {
    hide Follows, At;
    TripOpens(trace[0], trace[1], trace[2]);
    TripCloses(trace[2], trace[3], trace[4], trace[5]);
    TripEnds(trace[5], trace[6], trace[7]);
  }

  /** The failing family of the timewait assertion is not empty: a run over these events, from the SYN on. */
  method TimewaitTrips() returns (c: Connection, ghost trace: seq<Instant>)
    ensures fresh(c) && c.Valid() && c.snd.tripped
    ensures TripTrace(trace) && At(trace[0], SYN_RECEIVED, 100, 100, false) && trace[7] == c.Now()
  {
    hide Follows, Passage, Arrived, AlwaysDrained, Extends, Unclosed, Calm, Connection.Valid, Connection.Got;
    var o, _ := PassiveOpen(Segment(true, false, false, false, 0, 0, 0, None), true, true, 100, 8096);
    c := o;
    trace := c.Run(TripEvents(), TripEnvs());
    EndsTripped(trace);
  }

  lemma TripNumbers()
    ensures SendVars(107, 101, 101, true, false, false).Ack(101, 10, false) == SendVars(107, 101, 101, true, false, false)
    ensures FinAcked(SendVars(107, 101, 101, true, false, false), 102) == SendVars(107, 102, 101, false, false, false)
    ensures SendVars(107, 102, 101, false, false, false).Ack(104, 10, false).armed
  {
    assert Wrap32(101 + 10) == 111;
    RearmsIff(SendVars(107, 102, 101, false, false, false), 104, 10, false);
  }

  /** src/usnet/tcp.c:373-380. */
  function WindowTest(seg: Segment, rcvNxt: u32, rcvWnd: u32): int
  {
    if SeqLt(Wrap32(seg.seqNo + seg.len), rcvNxt) then -1
    else if SeqGt(Wrap32(seg.seqNo + seg.len), Wrap32(rcvNxt + rcvWnd)) then -2
    else 0
  }

  /**
   The window tests by stream positions, across any number of wraps: what ends before the first gap is
   old, what ends behind the window is outside, and anything else goes on.
   */
  lemma WindowByPosition(seg: Segment, next: int, rcvWnd: u32, p: int)
    requires seg.seqNo == Wrap32(p) && Near(p + seg.len, next) && Near(p + seg.len, next + rcvWnd)
    ensures WindowTest(seg, Wrap32(next), rcvWnd) ==
            if p + seg.len < next then -1 else if p + seg.len > next + rcvWnd then -2 else 0
  {
    hide Wrap32, SeqLt, SeqGt;
    WrapAdd(p, seg.len);
    WrapAdd(next, rcvWnd);
    SeqOrder(p + seg.len, next);
    SeqOrder(p + seg.len, next + rcvWnd);
  }

  /** Bytes are stored exactly if they lie between the first gap and the end of the window and of the ring, and there is memory for them. */
  lemma StorableByPosition(seg: Segment, env: Env, next: int, rcvWnd: u32, hasBuffer: bool, ringSize: nat, room: int, p: int)
    requires seg.seqNo == Wrap32(p) && Near(p, next) && Near(p + seg.len, next) && Near(p + seg.len, next + rcvWnd)
    ensures Storable(Wrap32(next), rcvWnd, hasBuffer, ringSize, room, seg, env) <==>
            && next <= p && p + seg.len <= next + rcvWnd
            && seg.len <= ringSize && (p + seg.len) - next <= room
            && (hasBuffer || env.bufferFree) && env.fragmentsFree > 0
  {
    hide Wrap32, WindowTest, RB.Admission;
    WindowByPosition(seg, next, rcvWnd, p);
    RB.AdmissionByPosition(next, ringSize, room, p, seg.len);
  }

  /**
   The verdict on a segment by stream positions and, where timestamps are in use, by the ticks `t` of
   its own and `recent` of the latest: passing means a timestamp that is not older and a last byte
   inside the window.
   */
  lemma ScreenByPosition(state: State, next: int, rcvWnd: u32, sawTimestamp: bool, recent: int, seg: Segment, p: int, t: int)
    requires seg.seqNo == Wrap32(p) && Near(p + 1, next) && Near(p + seg.len, next) && Near(p + seg.len, next + rcvWnd - 1)
    requires seg.tsVal.Some? ==> seg.tsVal.value == Wrap32(t) && Near(t, recent)
    ensures Screening(state, Wrap32(next), rcvWnd, sawTimestamp, Wrap32(recent), seg) ==
            if sawTimestamp && !seg.rst && seg.tsVal.None? then -1
            else if sawTimestamp && !seg.rst && t < recent then -2
            else if next <= p + seg.len < next + rcvWnd then 0
            else if seg.rst then -3
            else if state.ESTABLISHED? && p + 1 == next then -4
            else -5
  {
    hide Wrap32, SeqLt, SeqGeq, SeqLeq, Inc32;
    WrapAdd(p, seg.len);
    WrapAdd(next, rcvWnd - 1);
    SeqOrder(p + seg.len, next);
    SeqOrder(p + seg.len, next + rcvWnd - 1);
    SeqOrder(p + 1, next);
    Inc32Wraps(p);
    if seg.tsVal.Some? {
      SeqOrder(t, recent);
    }
  }

  lemma NotOld(seg: Segment, rcvNxt: u32, rcvWnd: u32)
    requires WindowTest(seg, rcvNxt, rcvWnd) == 0
    ensures Wrap32(seg.seqNo + seg.len - rcvNxt) < 0x8000_0000
  {
    WrapDifference(seg.seqNo + seg.len, rcvNxt);
    assert Wrap32(rcvNxt) == rcvNxt;
  }
}
