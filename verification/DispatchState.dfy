/**
 What the dispatch lists and timers are made of (src/usnet/core.c:212-530, src/usnet/tcp_out.c:305-583,
 src/usnet/timer.c:61-154, 328-499, src/usnet/tcb.c:334-355): tail queues with flags and counters, the
 fields the loops look at, the outcomes of the wire, walks over a list that changes under them, and
 what every event makes of one moment of the whole.
 */
module DispatchState {
  import opened Words
  import opened Lists
  import opened C = Connection
  import RtoWheel

  /** A tail queue, the connections whose flag says they are on it, and its counter. */
  datatype Queue = Queue(items: seq<Id>, flags: set<Id>, count: int) {
    /** Everyone is on the queue exactly once iff flagged, and the counter is the length. */
    ghost predicate Ok() {
      NoDup(items) && (forall x :: x in items <==> x in flags) && count == |items|
    }

    function Add(x: Id): Queue { if x in flags then this else Queue(items + [x], flags + {x}, count + 1) }

    function Drop(x: Id): Queue { if x in flags then Queue(Remove(items, x), flags - {x}, count - 1) else this }

    /** To the tail, if on the queue at all. */
    function Touch(x: Id): Queue { if x in flags then this.(items := Remove(items, x) + [x]) else this }

    lemma Distinct()
      requires Ok()
      ensures NoDup(items)
    {
    }

    lemma Counted()
      requires Ok()
      ensures count == |items|
    {
    }

    lemma Listed(x: Id)
      requires Ok()
      ensures x in items <==> x in flags
    {
    }

    lemma AddOk(x: Id)
      requires Ok()
      ensures Add(x).Ok() && Add(x).flags == flags + {x}
    {
      if x !in flags {
        NoDupSnoc(items, x);
      }
    }

    lemma DropOk(x: Id)
      requires Ok()
      ensures Drop(x).Ok() && Drop(x).flags == flags - {x}
    {
      RemoveExact(items, x);
    }

    /** The source unlinks the entry first and leaves its flag and the counter for later. */
    lemma Moved(x: Id)
      requires x in flags
      ensures Drop(x) == Queue(Remove(items, x), flags - {x}, count - 1) && Touch(x) == Queue(Remove(items, x) + [x], flags, count)
    {
    }

    lemma DropAgain(x: Id)
      requires x !in flags
      ensures Drop(x) == this
    {
    }

    lemma TouchTwice(x: Id)
      requires Ok()
      ensures Touch(x).Touch(x) == Touch(x)
    {
      if x in flags {
        RemoveExact(items, x);
        RemoveMiddle(Remove(items, x), x, []);
        assert Remove(items, x) + ([x] + []) == Remove(items, x) + [x];
      }
    }

    lemma TouchOk(x: Id)
      requires Ok()
      ensures Touch(x).Ok() && Touch(x).flags == flags
    {
      RemoveExact(items, x);
      NoDupSnoc(Remove(items, x), x);
    }
  }

  /**
   The fields of a connection the dispatch loops look at; `ackable` is `rcvbuf && rcv_nxt <= head_seq`,
   `finNext` that the packet of CLOSING is our FIN, `dataLeft` that `snd_una` is before `fss`.
   */
  datatype Tcb = Tcb(state: State, ackCnt: nat, isWack: bool, waiting: bool, ackable: bool, hasSndbuf: bool,
                     rto: u32, finNext: bool, dataLeft: bool)
  {
    /** The control packet takes up sequence space, so sending it arms the timer (src/usnet/tcp_out.c:340-357). */
    predicate Arms() {
      state.SYN_SENT? || state.SYN_RECEIVED? || state.LAST_ACK? || state.FIN_WAIT_1? || (state.CLOSING? && finNext)
    }

    /** The state is past the handshake; only then is a connection on the timeout list. */
    predicate Opened() { !state.LISTEN? && !state.SYN_SENT? && !state.SYN_RECEIVED? }
  }

  /** What the outside does next: the wire takes a packet or not, the send buffer is drained, the window is full. */
  datatype Outcome = Taken | NoRoom | Drained | WindowFull(probe: bool)

  /** The next packet would be taken; what the world is after it was offered one. */
  predicate Accepts(world: seq<Outcome>) { world != [] && world[0].Taken? }

  function Later(world: seq<Outcome>): seq<Outcome> { if world == [] then [] else world[1..] }

  /** `now` is what is left of `was`. */
  predicate LeftOf(now: seq<Outcome>, was: seq<Outcome>) { |now| <= |was| && now == was[|was| - |now|..] }

  lemma LeftOfTwice(a: seq<Outcome>, b: seq<Outcome>, c: seq<Outcome>)
    requires LeftOf(a, b) && LeftOf(b, c)
    ensures LeftOf(a, c)
  {
  }

  lemma LeftRest(was: seq<Outcome>, k: nat)
    requires k <= |was|
    ensures LeftOf(was[k..], was) && LeftOf(Later(was[k..]), was)
  {
    if k < |was| {
      assert was[k..][1..] == was[k + 1..];
    }
  }

  lemma {:induction false} SendsLeave(world: seq<Outcome>, n: nat)
    ensures LeftOf(AfterSends(world, n), world)
  {
    if n > 0 && Accepts(world) {
      SendsLeave(world[1..], n - 1);
      LeftOfTwice(AfterSends(world, n), world[1..], world);
    }
  }

  /** Something is still owed to a connection once the ack list has served it in this world. */
  predicate Owes(t: Tcb, world: seq<Outcome>)
  {
    && CanAck(t.state) && t.ackable
    && (t.ackCnt > Sent(world, t.ackCnt) || (t.isWack && !Accepts(AfterSends(world, t.ackCnt))))
  }

  /** How many of `n` packets in a row are taken. */
  function Sent(world: seq<Outcome>, n: nat): nat
  {
    if n == 0 || !Accepts(world) then 0 else 1 + Sent(world[1..], n - 1)
  }

  /** The world after `n` packets in a row were offered, up to the first that was refused. */
  function AfterSends(world: seq<Outcome>, n: nat): seq<Outcome>
  {
    if n == 0 then world else if Accepts(world) then AfterSends(world[1..], n - 1) else Later(world)
  }

  lemma {:induction false} SentWithin(world: seq<Outcome>, n: nat)
    ensures Sent(world, n) <= |world| && Sent(world, n) <= n
  {
    if n > 0 && Accepts(world) {
      SentWithin(world[1..], n - 1);
    }
  }

  /** One packet more is taken. */
  lemma SentRest(was: seq<Outcome>, k: nat)
    requires k < |was| && Accepts(was[k..])
    ensures Sent(was[k..], |was[k..]|) == 1 + Sent(was[k + 1..], |was[k + 1..]|) && was[k..][1..] == was[k + 1..]
  {
  }

  lemma LaterIsRest(world: seq<Outcome>)
    requires Accepts(world)
    ensures Later(world) == world[1..]
  {
  }

  lemma SentNone(world: seq<Outcome>, n: nat)
    requires !Accepts(world)
    ensures Sent(world, n) == 0
  {
  }

  datatype AckOption = Now | Aggregate | Wack

  /** `ack_cnt` is a six-bit field and its overflow guard compares after promotion, so it never stops the count. */
  function AckRequest(cnt: nat, opt: AckOption): nat
  {
    match opt
    case Now => (cnt + 1) % 64
    case Aggregate => if cnt == 0 then 1 else cnt
    case Wack => cnt
  }

  /** TAILQ_FIRST, TAILQ_LAST and TAILQ_NEXT. */
  function First(s: seq<Id>): Option<Id> { if s == [] then None else Some(s[0]) }

  function Last(s: seq<Id>): Option<Id> { if s == [] then None else Some(s[|s| - 1]) }

  function After(s: seq<Id>, x: Id): Option<Id>
  {
    if s == [] then None else if s[0] == x then First(s[1..]) else After(s[1..], x)
  }

  lemma {:induction false} AfterMiddle(a: seq<Id>, x: Id, b: seq<Id>)
    requires x !in a
    ensures After(a + ([x] + b), x) == First(b)
  {
    if a == [] {
      assert a + ([x] + b) == [x] + b;
    } else {
      assert (a + ([x] + b))[1..] == a[1..] + ([x] + b);
      AfterMiddle(a[1..], x, b);
    }
  }

  /** Only the last entry equals the last entry. */
  lemma LastOnce(s: seq<Id>, i: nat)
    requires NoDup(s) && i < |s| && Last(s) == Some(s[i])
    ensures i == |s| - 1
  {
    assert i < |s| - 1 ==> Apart(s, i, |s| - 1);
  }

  /** The entries of `s` not in `gone`, in their order. */
  function Keep(s: seq<Id>, gone: set<Id>): seq<Id>
  {
    if s == [] then [] else Keep(s[..|s| - 1], gone) + if s[|s| - 1] in gone then [] else [s[|s| - 1]]
  }

  lemma {:induction false} KeepIn(s: seq<Id>, gone: set<Id>, x: Id)
    ensures x in Keep(s, gone) <==> x in s && x !in gone
  {
    if s != [] {
      KeepIn(s[..|s| - 1], gone, x);
      assert s == s[..|s| - 1] + [s[|s| - 1]];
    }
  }

  lemma {:induction false} KeepMore(s: seq<Id>, gone: set<Id>, x: Id)
    requires x !in s
    ensures Keep(s, gone + {x}) == Keep(s, gone)
  {
    if s != [] {
      KeepMore(s[..|s| - 1], gone, x);
    }
  }

  lemma KeepNext(all: seq<Id>, i: nat, gone: set<Id>)
    requires i < |all|
    ensures Keep(all[..i + 1], gone) == Keep(all[..i], gone) + if all[i] in gone then [] else [all[i]]
  {
    var done := all[..i + 1];
    assert done[..|done| - 1] == all[..i] && done[|done| - 1] == all[i];
  }

  /** A walk over `all` that has dropped `gone` has come to entry `i`. */
  ghost predicate Walked(all: seq<Id>, i: nat, gone: set<Id>, items: seq<Id>)
  {
    && i <= |all| && NoDup(all) && items == Keep(all[..i], gone) + all[i..]
    && forall x <- gone :: x in all[..i]
  }

  lemma WalkStart(all: seq<Id>)
    requires NoDup(all)
    ensures Walked(all, 0, {}, all)
  {
    assert all[..0] == [] && all[0..] == all;
  }

  lemma WalkStep(all: seq<Id>, i: nat, gone: set<Id>, items: seq<Id>)
    requires Walked(all, i, gone, items) && i < |all|
    ensures all[i] in items && After(items, all[i]) == First(all[i + 1..])
    ensures Walked(all, i + 1, gone, items)
    ensures Walked(all, i + 1, gone + {all[i]}, Remove(items, all[i]))
  {
    hide Keep, After, Remove;
    var x, kept := all[i], Keep(all[..i], gone);
    assert all == all[..i] + ([x] + all[i + 1..]) && all[i..] == [x] + all[i + 1..];
    NoDupMiddle(all[..i], x, all[i + 1..]);
    KeepIn(all[..i], gone, x);
    AfterMiddle(kept, x, all[i + 1..]);
    RemoveMiddle(kept, x, all[i + 1..]);
    KeepMore(all[..i], gone, x);
    KeepNext(all, i, gone);
    KeepNext(all, i, gone + {x});
    assert items[|kept|] == x;
    assert (kept + [x]) + all[i + 1..] == items;
    assert kept + [] == kept;
    assert forall y <- gone + {x} :: y in all[..i + 1] by {
      assert all[..i + 1] == all[..i] + [x];
    }
  }

  /** Each of the first `k` entries left the list or is owed what its turn's world did not take. */
  ghost predicate Served(all: seq<Id>, k: nat, gone: set<Id>, tcbs: map<Id, Tcb>, worlds: seq<seq<Outcome>>)
  {
    && k <= |all| && |worlds| == k + 1
    && (forall j | 0 <= j < k :: LeftOf(worlds[j + 1], worlds[j]))
    && (forall j | 0 <= j < k :: all[j] in gone || (all[j] in tcbs && Owes(tcbs[all[j]], worlds[j])))
  }

  lemma ServedNone(all: seq<Id>, tcbs: map<Id, Tcb>, world: seq<Outcome>)
    ensures Served(all, 0, {}, tcbs, [world])
  {
  }

  lemma ServedStep(all: seq<Id>, i: nat, gone: set<Id>, left: bool, tcbs: map<Id, Tcb>, worlds: seq<seq<Outcome>>, world: seq<Outcome>)
    requires Served(all, i, gone, tcbs, worlds) && i < |all| && LeftOf(world, worlds[i])
    requires left || (all[i] in tcbs && Owes(tcbs[all[i]], worlds[i]))
    ensures Served(all, i + 1, if left then gone + {all[i]} else gone, tcbs, worlds + [world])
  {
    hide Owes, LeftOf;
  }

  /** From entry `i` on the fields are as they were when the walk began. */
  ghost predicate Unmet(all: seq<Id>, i: nat, tcbs: map<Id, Tcb>, tcbs0: map<Id, Tcb>)
  {
    NoDup(all) && forall j | i <= j < |all| :: all[j] in tcbs && all[j] in tcbs0 && tcbs[all[j]] == tcbs0[all[j]]
  }

  lemma UnmetAll(all: seq<Id>, q: Queue, tcbs: map<Id, Tcb>)
    requires q.Ok() && all == q.items && q.flags <= tcbs.Keys
    ensures Unmet(all, 0, tcbs, tcbs)
  {
    forall j | 0 <= j < |all| ensures all[j] in tcbs { assert all[j] in q.items; }
  }

  /** Serving entry `i` leaves the fields of the later ones alone. */
  lemma UnmetStep(all: seq<Id>, i: nat, was: map<Id, Tcb>, now: map<Id, Tcb>, tcbs0: map<Id, Tcb>)
    requires Unmet(all, i, was, tcbs0) && i < |all| && now - {all[i]} == was - {all[i]}
    ensures Unmet(all, i + 1, now, tcbs0) && all[i] in tcbs0 && all[i] in was && was[all[i]] == tcbs0[all[i]]
  {
    forall j | i + 1 <= j < |all|
      ensures all[j] in now && now[all[j]] == tcbs0[all[j]]
    {
      assert Apart(all, i, j);
      assert all[j] in was - {all[i]} && (now - {all[i]})[all[j]] == (was - {all[i]})[all[j]];
    }
  }

  /** Sending the control packet of `t` succeeds in this world; `busy` says it is on the send or ack list. */
  predicate ControlGoes(t: Tcb, busy: bool, world: seq<Outcome>)
  {
    t.state.LISTEN? || (!(Waits(t.state) && busy) && Accepts(world))
  }

  /** The world after the control packet of `t` was tried. */
  function ControlLeaves(t: Tcb, busy: bool, world: seq<Outcome>): seq<Outcome>
  {
    if t.state.LISTEN? || (Waits(t.state) && busy) then world else Later(world)
  }

  /** The first `k` entries were served in turn, each going in the world the one before left. */
  ghost predicate ControlsServed(all: seq<Id>, k: nat, tcbs: map<Id, Tcb>, busy: set<Id>, worlds: seq<seq<Outcome>>)
  {
    && k <= |all| && |worlds| == k + 1
    && forall j | 0 <= j < k ::
         && all[j] in tcbs && ControlGoes(tcbs[all[j]], all[j] in busy, worlds[j])
         && worlds[j + 1] == ControlLeaves(tcbs[all[j]], all[j] in busy, worlds[j])
  }

  lemma ControlsServedNone(all: seq<Id>, tcbs: map<Id, Tcb>, busy: set<Id>, world: seq<Outcome>)
    ensures ControlsServed(all, 0, tcbs, busy, [world])
  {
  }

  lemma ControlsServedStep(all: seq<Id>, k: nat, tcbs: map<Id, Tcb>, busy: set<Id>, worlds: seq<seq<Outcome>>, world: seq<Outcome>)
    requires ControlsServed(all, k, tcbs, busy, worlds) && k < |all| && all[k] in tcbs
    requires ControlGoes(tcbs[all[k]], all[k] in busy, worlds[k]) && world == ControlLeaves(tcbs[all[k]], all[k] in busy, worlds[k])
    ensures ControlsServed(all, k + 1, tcbs, busy, worlds + [world])
  {
    hide ControlGoes, ControlLeaves;
  }

  /** Flushing the send buffer of a connection succeeds: every packet is taken until the buffer is drained. */
  predicate FlushGoes(world: seq<Outcome>)
  {
    var n := Sent(world, |world|);
    n >= |world| || world[n].Drained?
  }

  /** The send list is done with `t` in this world. */
  predicate DataGoes(t: Tcb, onControl: bool, world: seq<Outcome>)
  {
    !(t.state.ESTABLISHED? && onControl) && (!CanFlush(t.state) || FlushGoes(world))
  }

  /** The first `k` entries were served in turn, each going in what the ones before left of the world. */
  ghost predicate DataServed(all: seq<Id>, k: nat, tcbs: map<Id, Tcb>, onControl: set<Id>, worlds: seq<seq<Outcome>>)
  {
    && k <= |all| && |worlds| == k + 1
    && forall j | 0 <= j < k ::
         all[j] in tcbs && DataGoes(tcbs[all[j]], all[j] in onControl, worlds[j]) && LeftOf(worlds[j + 1], worlds[j])
  }

  lemma DataServedNone(all: seq<Id>, tcbs: map<Id, Tcb>, onControl: set<Id>, world: seq<Outcome>)
    ensures DataServed(all, 0, tcbs, onControl, [world])
  {
  }

  lemma DataServedStep(all: seq<Id>, k: nat, tcbs: map<Id, Tcb>, onControl: set<Id>, worlds: seq<seq<Outcome>>, world: seq<Outcome>)
    requires DataServed(all, k, tcbs, onControl, worlds) && k < |all| && all[k] in tcbs
    requires DataGoes(tcbs[all[k]], all[k] in onControl, worlds[k]) && LeftOf(world, worlds[k])
    ensures DataServed(all, k + 1, tcbs, onControl, worlds + [world])
  {
    hide DataGoes, LeftOf;
  }

  /** From entry `i` on, membership in `flags` is as it was in `flags0`. */
  ghost predicate SameFrom(all: seq<Id>, i: nat, flags: set<Id>, flags0: set<Id>)
  {
    NoDup(all) && forall j | i <= j < |all| :: all[j] in flags <==> all[j] in flags0
  }

  lemma SameAll(all: seq<Id>, flags: set<Id>)
    requires NoDup(all)
    ensures SameFrom(all, 0, flags, flags)
  {
  }

  lemma SameStep(all: seq<Id>, i: nat, was: set<Id>, now: set<Id>, flags0: set<Id>)
    requires SameFrom(all, i, was, flags0) && i < |all| && now - {all[i]} == was - {all[i]}
    ensures SameFrom(all, i + 1, now, flags0) && (all[i] in was <==> all[i] in flags0)
  {
    forall j | i + 1 <= j < |all|
      ensures all[j] in now <==> all[j] in flags0
    {
      assert Apart(all, i, j);
      assert all[j] in now <==> all[j] in now - {all[i]};
      assert all[j] in was <==> all[j] in was - {all[i]};
    }
  }

  /** How many entries a walk with threshold `limit` can reach. */
  function Reach(limit: int, n: nat): nat { if limit < 0 then 0 else if limit < n then limit else n }

  /** A state change other than the completion of the handshake: by a segment, by the application, or to CLOSED. */
  predicate Moves(a: State, b: State)
  {
    && (Edge(a, b) || b.CLOSED? || (a.ESTABLISHED? && b.FIN_WAIT_1?) || (a.CLOSE_WAIT? && b.LAST_ACK?))
    && (b.ESTABLISHED? ==> a.ESTABLISHED?)
  }

  /**
   What the network process does between and during dispatch.  `Become` is any change a segment makes
   to the fields looked at, `Establish` the completion of the handshake, which joins the timeout list;
   `Rearm` is usnet_update_retransmission_timer, `Idle` and `Timewaited` the expiry of an entry of the
   timeout and the timewait list.
   */
  datatype Event =
    | Create(x: Id, tcb: Tcb)
    | Become(x: Id, tcb: Tcb)
    | Establish(x: Id, timed: bool)
    | WantControl(x: Id)
    | WantSend(x: Id)
    | WantAck(x: Id, opt: AckOption)
    | Disarm(x: Id)
    | Rearm(x: Id, outstanding: bool)
    | EnterTimewait(x: Id)
    | Idle(x: Id, socket: bool)
    | Timewaited(x: Id)
    | Destroy(x: Id)
    | DispatchControl(limit: int)
    | DispatchAck(limit: int)
    | DispatchData(limit: int)
    | Tick(thresh: int)
    | Time(clock: u32)
    | World(more: seq<Outcome>)
  {
    /** The event is about one existing connection. */
    predicate One() {
      || Become? || Establish? || WantControl? || WantSend? || WantAck? || Disarm? || Rearm? || EnterTimewait?
      || Idle? || Timewaited? || Destroy?
    }
  }

  /** States in which the source releases a connection whose timer expired, and then unlinks it again. */
  predicate Released(state: State) { state.LISTEN? || state.CLOSED? || state.FIN_WAIT_2? || state.TIME_WAIT? }

  /** States whose control packet is a FIN or a RST. */
  predicate Waits(state: State) { state.LAST_ACK? || state.FIN_WAIT_1? || state.CLOSED? }

  predicate CanFlush(state: State)
  {
    state.ESTABLISHED? || state.CLOSE_WAIT? || state.FIN_WAIT_1? || state.LAST_ACK?
  }

  predicate CanAck(state: State)
  {
    state.ESTABLISHED? || state.CLOSE_WAIT? || state.FIN_WAIT_1? || state.FIN_WAIT_2? || state.TIME_WAIT?
  }

  // ----- one moment of all lists and timers, and what every operation makes of it

  /**
   The lists, the connections, the outcomes to come, who is on the wheel, the timewait list and its
   flags, and every `ts_rto` and the clock.
   */
  datatype Moment = Moment(control: Queue, send: Queue, ack: Queue, timeout: Queue, tcbs: map<Id, Tcb>, world: seq<Outcome>,
                           armed: set<Id>, timewait: seq<Id>, parked: set<Id>, stamps: map<Id, u32>, clock: u32)
  {
    /** On the send or the ack list. */
    predicate Busy(x: Id) { x in send.flags || x in ack.flags }

    function Busies(): set<Id> { send.flags + ack.flags }

    /** Sending the control packet of `x` would succeed. */
    predicate Goes(x: Id)
      requires x in tcbs
    {
      ControlGoes(tcbs[x], Busy(x), world)
    }

    // The small steps.

    /** A packet of `x` is offered to the wire; one that acknowledges counts as activity. */
    function Offered(x: Id, acking: bool): Moment
    {
      this.(world := Later(world), timeout := if Accepts(world) && acking then timeout.Touch(x) else timeout)
    }

    /** `ts_rto` is set, and the timer armed unless it is `linked` or in timewait. */
    function Timed(x: Id, linked: bool): Moment
      requires x in tcbs
    {
      this.(stamps := stamps[x := Wrap32(clock + tcbs[x].rto)], armed := if linked || x in parked then armed else armed + {x})
    }

    function Disarmed(x: Id): Moment { this.(armed := armed - {x}) }

    /** usnet_release_tcb. */
    function Freed(x: Id): Moment
    {
      this.(control := control.Drop(x), send := send.Drop(x), ack := ack.Drop(x), timeout := timeout.Drop(x), tcbs := tcbs - {x},
            armed := armed - {x}, timewait := if x in parked then Remove(timewait, x) else timewait, parked := parked - {x})
    }

    /** usnet_add_timewait_list. */
    function Parked(x: Id): Moment
    {
      this.(armed := armed - {x}, timewait := Remove(timewait, x) + [x], parked := parked + {x})
    }

    function Queued(x: Id): Moment
      requires x in tcbs
    {
      if tcbs[x].hasSndbuf then this.(send := send.Add(x)) else this
    }

    /** usnet_enqueue_ack. */
    function Asked(x: Id, opt: AckOption): Moment
      requires x in tcbs
    {
      this.(ack := ack.Add(x),
            tcbs := tcbs[x := tcbs[x].(ackCnt := AckRequest(tcbs[x].ackCnt, opt), isWack := opt.Wack? || tcbs[x].isWack)])
    }

    // The control list.

    /** usnet_send_control_packet. */
    function Tried(x: Id, linked: bool): Moment
      requires x in tcbs
    {
      var t := tcbs[x];
      if t.state.LISTEN? || (Waits(t.state) && Busy(x)) then this
      else if t.state.CLOSED? then
        if Accepts(world) then Offered(x, false).Freed(x) else Offered(x, false)
      else
        var o := Offered(x, !t.state.SYN_SENT?);
        var a := if t.state.SYN_SENT? then o else o.(ack := o.ack.Drop(x));
        if Accepts(world) && t.Arms() then a.Timed(x, linked) else a
    }

    /** usnet_add_control_list. */
    function Controlled(x: Id, linked: bool): Moment
      requires x in tcbs
    {
      var m := Tried(x, linked);
      m.(control := if Goes(x) then m.control.Drop(x) else m.control.Add(x))
    }

    /** One round of the control list. */
    function ControlRound(x: Id): Moment
      requires x in tcbs
    {
      var m := this.(control := control.Drop(x)).Tried(x, false);
      if Goes(x) then m else m.(control := Queue([x] + m.control.items, m.control.flags + {x}, m.control.count + 1))
    }

    /** The control list is served from its head, `n` entries or up to the first that cannot be sent. */
    function ControlPass(n: nat): Moment
      decreases n
    {
      if n == 0 || control.items == [] || control.items[0] !in tcbs then this
      else
        var x := control.items[0];
        if Goes(x) then ControlRound(x).ControlPass(n - 1) else ControlRound(x)
    }

    // The ack list.

    /** What was asked for is sent; off the list when nothing is left to send. */
    function Acked(x: Id): Moment
      requires x in tcbs
    {
      var t := tcbs[x];
      if CanAck(t.state) && t.ackable then
        var rest := AfterSends(world, t.ackCnt);
        var active := Sent(world, t.ackCnt) > 0 || (t.isWack && Accepts(rest));
        this.(world := if t.isWack then Later(rest) else rest, timeout := if active then timeout.Touch(x) else timeout)
            .Settled(x, t.ackCnt - Sent(world, t.ackCnt), t.isWack && !Accepts(rest))
      else Settled(x, 0, false)
    }

    function Settled(x: Id, n: int, wack: bool): Moment
      requires x in tcbs
    {
      this.(tcbs := tcbs[x := tcbs[x].(ackCnt := if n < 0 then 0 else n, isWack := wack)],
            ack := if n > 0 || wack then ack else ack.Drop(x))
    }

    /** What of `t` is still owed, and what is left of the world and of the timeout list, once the wire was tried. */
    predicate Allowed(x: Id, n: nat, wack: bool, rest: seq<Outcome>, active: Queue)
      requires x in tcbs
    {
      var t := tcbs[x];
      var tried := AfterSends(world, t.ackCnt);
      if CanAck(t.state) && t.ackable then
        && n == t.ackCnt - Sent(world, t.ackCnt) && wack == (t.isWack && !Accepts(tried))
        && rest == (if t.isWack then Later(tried) else tried)
        && active == if n < t.ackCnt || (t.isWack && !wack) then timeout.Touch(x) else timeout
      else n == 0 && !wack && rest == world && active == timeout
    }

    lemma AllowedIsAcked(x: Id, n: nat, wack: bool, rest: seq<Outcome>, active: Queue)
      requires x in tcbs && Allowed(x, n, wack, rest, active)
      ensures Acked(x) == this.(world := rest, timeout := active).Settled(x, n, wack)
    {
      hide Settled, Queue.Touch, Later, AfterSends, Sent;
    }

    /** A control packet that waited for this list. */
    function Woken(x: Id, busy: bool): Moment
      requires x in tcbs
    {
      if tcbs[x].waiting && !busy then this.(tcbs := tcbs[x := tcbs[x].(waiting := false)]).Controlled(x, false) else this
    }

    function AckRound(x: Id): Moment
      requires x in tcbs
    {
      Acked(x).Woken(x, x in send.flags)
    }

    /** These entries of the ack list are served in order. */
    function AckPass(xs: seq<Id>): Moment
      decreases |xs|
    {
      if xs == [] then this
      else var before := AckPass(xs[..|xs| - 1]);
           if xs[|xs| - 1] in before.tcbs then before.AckRound(xs[|xs| - 1]) else before
    }

    // The send list.

    /** After `n` packets of `x` were taken, and with these outcomes left. */
    function Sending(x: Id, n: nat, rest: seq<Outcome>): Moment
      requires x in tcbs
    {
      (if n > 0 then this.(timeout := timeout.Touch(x)).Timed(x, false) else this).(world := rest)
    }

    /** The send buffer is flushed: packets until it is drained, the wire refuses or the window is full. */
    function Flushed(x: Id): Moment
      requires x in tcbs
    {
      var n := Sent(world, |world|);
      SentWithin(world, |world|);
      var m := Sending(x, n, Later(world[n..]));
      if n < |world| && world[n].WindowFull? && world[n].probe then m.Asked(x, Wack) else m
    }

    /** What a flush leaves alone. */
    lemma FlushedKeeps(x: Id)
      requires x in tcbs && timeout.Ok()
      ensures var m := Flushed(x);
              && m.parked == parked && m.timeout.Ok() && m.timeout.flags == timeout.flags && LeftOf(m.world, world)
              && m.tcbs.Keys == tcbs.Keys && m.tcbs - {x} == tcbs - {x}
              && forall y <- m.tcbs :: y in tcbs && m.tcbs[y].state == tcbs[y].state
    {
      hide Sent, LeftOf, Later, Queue.Ok, Queue.Touch, Queue.Add;
      SentWithin(world, |world|);
      LeftRest(world, Sent(world, |world|));
      timeout.TouchOk(x);
    }

    /** One packet more. */
    lemma SendingMore(x: Id, n: nat, rest: seq<Outcome>)
      requires x in tcbs && timeout.Ok() && Accepts(rest)
      ensures var m := Sending(x, n, rest); x in m.tcbs && m.Offered(x, true).Timed(x, false) == Sending(x, n + 1, rest[1..])
    {
      timeout.TouchTwice(x);
      assert armed + {x} + {x} == armed + {x};
    }

    lemma SendingNone(x: Id)
      requires x in tcbs
      ensures Sending(x, 0, world) == this
    {
    }

    /** The flush ends where it cannot take a packet more. */
    lemma SendingEnds(x: Id, n: nat)
      requires x in tcbs && n <= |world| && n + Sent(world[n..], |world[n..]|) == Sent(world, |world|)
      requires !Accepts(world[n..])
      ensures n < |world| && world[n].WindowFull? && world[n].probe ==> Flushed(x) == Sending(x, n, world[n + 1..]).Asked(x, Wack)
      ensures !(n < |world| && world[n].WindowFull? && world[n].probe) ==> Flushed(x) == Sending(x, n, Later(world[n..]))
      ensures Sending(x, n, world[n..]).Offered(x, true) == Sending(x, n, Later(world[n..]))
    {
      hide Sent;
      SentNone(world[n..], |world[n..]|);
    }

    /** The first half of a round of the send list: a connection on the control list is not flushed before its SYN/ACK is out. */
    function Drained(x: Id): Moment
      requires x in tcbs
    {
      if CanFlush(tcbs[x].state) && !(tcbs[x].state.ESTABLISHED? && x in control.flags) then Flushed(x) else this
    }

    /** One round of the send list. */
    function DataRound(x: Id): Moment
      requires x in tcbs
    {
      var m := Drained(x);
      if DataGoes(tcbs[x], x in control.flags, world) then m.(send := send.Drop(x)).Woken(x, x in m.ack.flags)
      else m.(send := send.Touch(x))
    }

    lemma DrainedKeepsSend(x: Id, q: Queue)
      requires x in tcbs
      ensures this.(send := q).Drained(x) == Drained(x).(send := q)
    {
      hide Sending, Asked, Sent;
      var n := Sent(world, |world|);
      SentWithin(world, |world|);
      SendingKeepsSend(x, n, Later(world[n..]), q);
      Sending(x, n, Later(world[n..])).AskedKeepsSend(x, q);
    }

    lemma SendingKeepsSend(x: Id, n: nat, rest: seq<Outcome>, q: Queue)
      requires x in tcbs
      ensures this.(send := q).Sending(x, n, rest) == Sending(x, n, rest).(send := q) && x in Sending(x, n, rest).tcbs
    {
      hide Queue.Touch;
    }

    lemma AskedKeepsSend(x: Id, q: Queue)
      requires x in tcbs
      ensures this.(send := q).Asked(x, Wack) == Asked(x, Wack).(send := q)
    {
      hide Queue.Add;
    }

    /** The send list is served from its head, `n` entries or up to the first that is stuck. */
    function DataPass(n: nat): Moment
      decreases n
    {
      if n == 0 || send.items == [] || send.items[0] !in tcbs then this
      else
        var x := send.items[0];
        if DataGoes(tcbs[x], x in control.flags, world) then DataRound(x).DataPass(n - 1) else DataRound(x)
    }

    // The timers.

    /** The list part of usnet_handle_rto, for a connection still linked into its bucket. */
    function Expired(x: Id): Moment
      requires x in tcbs
    {
      var t := tcbs[x];
      if t.state.ESTABLISHED? || t.state.CLOSE_WAIT? then Queued(x)
      else if (t.state.FIN_WAIT_1? || t.state.CLOSING? || t.state.LAST_ACK?) && t.dataLeft then
        this.(control := control.Drop(x), tcbs := tcbs[x := t.(waiting := true)]).Queued(x)
      else if Released(t.state) then this
      else Controlled(x, true)
    }

    /** The timers of these connections expire in order. */
    function AllExpired(xs: seq<Id>): Moment
      decreases |xs|
    {
      if xs == [] then this
      else var before := AllExpired(xs[..|xs| - 1]);
           if xs[|xs| - 1] in before.tcbs then before.Expired(xs[|xs| - 1]) else before
    }

    lemma AllExpiredNone()
      ensures AllExpired([]) == this
    {
    }

    lemma AllExpiredStep(all: seq<Id>, i: nat)
      requires i < |all| && all[i] in AllExpired(all[..i]).tcbs
      ensures AllExpired(all[..i + 1]) == AllExpired(all[..i]).Expired(all[i])
    {
      assert all[..i + 1][..i] == all[..i];
    }

    lemma ControlledElsewhere(x: Id, y: Id)
      requires x in tcbs && !tcbs[x].state.CLOSED?
      ensures var m := Controlled(x, true); m.tcbs == tcbs && m.armed == armed && (y != x ==> SameAt(this, m, y))
    {
      hide Remove, Later, Accepts, ControlGoes, Waits, Tcb.Arms;
    }

    /** The expiry of one timer changes nothing of another connection, and arms nobody. */
    lemma ExpiredElsewhere(x: Id, y: Id)
      requires x in tcbs
      ensures Expired(x).tcbs.Keys == tcbs.Keys && Expired(x).armed == armed && (y != x ==> SameAt(this, Expired(x), y))
    {
      hide Remove, Controlled;
      if !tcbs[x].state.CLOSED? {
        ControlledElsewhere(x, y);
      }
    }

    /** Between turns `i` and `j` nothing happens to a connection whose turn is not among them. */
    lemma {:induction false} AllElsewhere(xs: seq<Id>, i: nat, j: nat, y: Id)
      requires i <= j <= |xs| && (forall k | i <= k < j :: xs[k] != y) && forall x <- xs :: x in tcbs
      ensures SameAt(AllExpired(xs[..i]), AllExpired(xs[..j]), y)
      ensures AllExpired(xs[..j]).tcbs.Keys == tcbs.Keys && AllExpired(xs[..j]).armed == armed
      decreases j
    {
      hide Expired;
      if j == 0 {
        assert xs[..0] == [];
      } else {
        AllElsewhere(xs, Min(i, j - 1), j - 1, y);
        var m := AllExpired(xs[..j - 1]);
        assert xs[..j][..j - 1] == xs[..j - 1];
        m.ExpiredElsewhere(xs[j - 1], y);
      }
    }

    // Events.

    /** What an event of one existing connection makes of this moment. */
    function One(e: Event): Moment
      requires e.One() && e.x in tcbs
    {
      var x := e.x;
      match e
      case Become(_, tcb) => if Moves(tcbs[x].state, tcb.state) then this.(tcbs := tcbs[x := tcb]) else this
      case Establish(_, timed) => if tcbs[x].state.SYN_RECEIVED? then Opened(x, timed) else this
      case WantControl(_) => Controlled(x, false)
      case WantSend(_) => Queued(x)
      case WantAck(_, opt) => Asked(x, opt)
      case Disarm(_) => Disarmed(x)
      case Rearm(_, outstanding) => if outstanding then Disarmed(x).Timed(x, false) else Disarmed(x)
      case EnterTimewait(_) => Parked(x)
      case Idle(_, socket) => if x in timeout.flags then Idled(x, socket) else this
      case Timewaited(_) => if x in parked && x !in control.flags then Freed(x) else this
      case Destroy(_) => Freed(x)
    }

    /** The handshake is complete. */
    function Opened(x: Id, timed: bool): Moment
      requires x in tcbs
    {
      this.(armed := armed - {x}, tcbs := tcbs[x := tcbs[x].(state := ESTABLISHED)],
            timeout := if timed then timeout.Add(x) else timeout)
    }

    /** The connection was idle for too long. */
    function Idled(x: Id, socket: bool): Moment
      requires x in tcbs
    {
      var m := this.(timeout := timeout.Drop(x), tcbs := tcbs[x := tcbs[x].(state := CLOSED)]);
      if socket then m else m.Freed(x)
    }
  }

  /** The walk of the ack list that began at `m` has come to entry `i`, at `a`. */
  ghost predicate AckTurn(m: Moment, all: seq<Id>, i: nat, gone: set<Id>, worlds: seq<seq<Outcome>>, a: Moment)
  {
    && Walked(all, i, gone, a.ack.items) && AckPassed(m, all, i, a) && Unmet(all, i, a.tcbs, m.tcbs)
    && Served(all, i, gone, m.tcbs, worlds) && worlds[0] == m.world && worlds[i] == a.world
  }

  lemma AckTurnStart(m: Moment)
    requires m.ack.Ok() && m.ack.flags <= m.tcbs.Keys
    ensures AckTurn(m, m.ack.items, 0, {}, [m.world], m)
  {
    m.ack.Distinct();
    WalkStart(m.ack.items);
    UnmetAll(m.ack.items, m.ack, m.tcbs);
    ServedNone(m.ack.items, m.tcbs, m.world);
    AckPassedNone(m, m.ack.items);
  }

  /** The entry met is still listed, in front of the original next. */
  lemma AckTurnMeets(m: Moment, all: seq<Id>, i: nat, gone: set<Id>, worlds: seq<seq<Outcome>>, a: Moment)
    requires AckTurn(m, all, i, gone, worlds, a) && i < |all|
    ensures all[i] in a.ack.items && After(a.ack.items, all[i]) == First(all[i + 1..])
  {
    WalkStep(all, i, gone, a.ack.items);
  }

  lemma AckTurnStep(m: Moment, all: seq<Id>, i: nat, gone: set<Id>, left: bool, worlds: seq<seq<Outcome>>, a: Moment, b: Moment)
    requires AckTurn(m, all, i, gone, worlds, a) && i < |all| && all[i] in a.ack.flags && all[i] in a.tcbs
    requires b == a.AckRound(all[i]) && b.ack == (if left then a.ack.Drop(all[i]) else a.ack)
    requires (!left ==> Owes(a.tcbs[all[i]], a.world)) && b.tcbs - {all[i]} == a.tcbs - {all[i]} && LeftOf(b.world, a.world)
    ensures AckTurn(m, all, i + 1, if left then gone + {all[i]} else gone, worlds + [b.world], b)
  {
    hide Walked, Unmet, Served, AckPassed, Owes, LeftOf, Moment.AckRound, Remove;
    WalkStep(all, i, gone, a.ack.items);
    UnmetStep(all, i, a.tcbs, b.tcbs, m.tcbs);
    AckPassedStep(m, all, i, a);
    ServedCount(all, i, gone, m.tcbs, worlds);
    ServedStep(all, i, gone, left, m.tcbs, worlds, b.world);
  }

  lemma ServedCount(all: seq<Id>, i: nat, gone: set<Id>, tcbs: map<Id, Tcb>, worlds: seq<seq<Outcome>>)
    requires Served(all, i, gone, tcbs, worlds)
    ensures |worlds| == i + 1 && i <= |all|
  {
  }

  lemma AckTurnTells(m: Moment, all: seq<Id>, i: nat, gone: set<Id>, worlds: seq<seq<Outcome>>, a: Moment)
    requires AckTurn(m, all, i, gone, worlds, a)
    ensures Walked(all, i, gone, a.ack.items) && Served(all, i, gone, m.tcbs, worlds) && NoDup(all)
    ensures i <= |all| && |worlds| == i + 1 && worlds[0] == m.world && worlds[i] == a.world && a == m.AckPass(all[..i])
  {
  }

  /** The walk of the control list that began at `m` has served `k` entries and is at `a`; `n` are within reach. */
  ghost predicate ControlTurn(m: Moment, all: seq<Id>, n: nat, k: nat, worlds: seq<seq<Outcome>>, a: Moment)
  {
    && ControlLeft(m, n, a, k) && Unmet(all, k, a.tcbs, m.tcbs) && SameFrom(all, k, a.Busies(), m.Busies())
    && ControlsServed(all, k, m.tcbs, m.Busies(), worlds) && worlds[0] == m.world && worlds[k] == a.world
  }

  lemma ControlTurnStart(m: Moment, n: nat)
    requires m.control.Ok() && m.control.flags <= m.tcbs.Keys
    ensures ControlTurn(m, m.control.items, n, 0, [m.world], m)
  {
    m.control.Distinct();
    UnmetAll(m.control.items, m.control, m.tcbs);
  }

  lemma ControlTurnStep(m: Moment, all: seq<Id>, n: nat, k: nat, worlds: seq<seq<Outcome>>, a: Moment, b: Moment)
    requires ControlTurn(m, all, n, k, worlds, a) && k < n && k < |all|
    requires a.control.items != [] && a.control.items[0] == all[k] && all[k] in a.tcbs && b == a.ControlRound(all[k])
    requires b.tcbs - {all[k]} == a.tcbs - {all[k]} && b.Busies() - {all[k]} == a.Busies() - {all[k]}
    requires b.world == ControlLeaves(a.tcbs[all[k]], all[k] in a.Busies(), a.world)
    ensures |worlds| == k + 1 && worlds[0] == m.world
    ensures if a.Goes(all[k]) then ControlTurn(m, all, n, k + 1, worlds + [b.world], b)
            else b == m.ControlPass(n) && all[k] in m.tcbs && !ControlGoes(m.tcbs[all[k]], all[k] in m.Busies(), worlds[k])
                 && ControlsServed(all, k, m.tcbs, m.Busies(), worlds)
  {
    hide ControlLeft, Unmet, SameFrom, ControlGoes, ControlLeaves, Moment.ControlRound, Moment.ControlPass, ControlsServed;
    ControlLeftStep(m, n, a, k);
    ControlsCount(all, k, m.tcbs, m.Busies(), worlds);
    UnmetStep(all, k, a.tcbs, b.tcbs, m.tcbs);
    SameStep(all, k, a.Busies(), b.Busies(), m.Busies());
    if a.Goes(all[k]) {
      ControlsServedStep(all, k, m.tcbs, m.Busies(), worlds, b.world);
      ControlsCount(all, k + 1, m.tcbs, m.Busies(), worlds + [b.world]);
    }
  }

  lemma ControlsCount(all: seq<Id>, k: nat, tcbs: map<Id, Tcb>, busy: set<Id>, worlds: seq<seq<Outcome>>)
    requires ControlsServed(all, k, tcbs, busy, worlds)
    ensures |worlds| == k + 1 && k <= |all|
  {
  }

  lemma ControlTurnTells(m: Moment, all: seq<Id>, n: nat, k: nat, worlds: seq<seq<Outcome>>, a: Moment)
    requires ControlTurn(m, all, n, k, worlds, a)
    ensures ControlsServed(all, k, m.tcbs, m.Busies(), worlds) && k <= |all| && |worlds| == k + 1
    ensures worlds[0] == m.world && worlds[k] == a.world && NoDup(all)
    ensures k == n || a.control.items == [] ==> a == m.ControlPass(n)
  {
    if k == n || a.control.items == [] {
      ControlLeftEnds(m, n, a, k);
    }
  }

  /** A walk of the control list that began at `m` has served `k` of its `n` turns and is at `a`. */
  predicate ControlLeft(m: Moment, n: nat, a: Moment, k: nat) { k <= n && a.ControlPass(n - k) == m.ControlPass(n) }

  lemma ControlLeftStart(m: Moment, n: nat)
    ensures ControlLeft(m, n, m, 0)
  {
  }

  lemma ControlLeftStep(m: Moment, n: nat, a: Moment, k: nat)
    requires ControlLeft(m, n, a, k) && k < n && a.control.items != [] && a.control.items[0] in a.tcbs
    ensures var x := a.control.items[0];
            if a.Goes(x) then ControlLeft(m, n, a.ControlRound(x), k + 1) else a.ControlRound(x) == m.ControlPass(n)
  {
    hide Moment.ControlRound, Moment.Goes;
  }

  lemma ControlLeftEnds(m: Moment, n: nat, a: Moment, k: nat)
    requires ControlLeft(m, n, a, k) && (k == n || a.control.items == [])
    ensures a == m.ControlPass(n)
  {
  }

  /** The same for the send list. */
  predicate DataLeft(m: Moment, n: nat, a: Moment, k: nat) { k <= n && a.DataPass(n - k) == m.DataPass(n) }

  lemma DataLeftStart(m: Moment, n: nat)
    ensures DataLeft(m, n, m, 0)
  {
  }

  lemma DataLeftStep(m: Moment, n: nat, a: Moment, k: nat)
    requires DataLeft(m, n, a, k) && k < n && a.send.items != [] && a.send.items[0] in a.tcbs
    ensures var x := a.send.items[0];
            if DataGoes(a.tcbs[x], x in a.control.flags, a.world) then DataLeft(m, n, a.DataRound(x), k + 1)
            else a.DataRound(x) == m.DataPass(n)
  {
    hide Moment.DataRound, DataGoes;
  }

  lemma DataLeftEnds(m: Moment, n: nat, a: Moment, k: nat)
    requires DataLeft(m, n, a, k) && (k == n || a.send.items == [])
    ensures a == m.DataPass(n)
  {
  }

  /** The first `i` of the entries have been served, starting at `m`. */
  predicate AckPassed(m: Moment, all: seq<Id>, i: nat, a: Moment) { i <= |all| && a == m.AckPass(all[..i]) }

  lemma AckPassedNone(m: Moment, all: seq<Id>)
    ensures AckPassed(m, all, 0, m)
  {
    assert all[..0] == [];
  }

  lemma AckPassedStep(m: Moment, all: seq<Id>, i: nat, a: Moment)
    requires AckPassed(m, all, i, a) && i < |all| && all[i] in a.tcbs
    ensures AckPassed(m, all, i + 1, a.AckRound(all[i]))
  {
    hide Moment.AckRound;
    assert all[..i + 1][..i] == all[..i];
  }

  lemma AckPassedIs(m: Moment, all: seq<Id>, i: nat, a: Moment)
    requires AckPassed(m, all, i, a)
    ensures a == m.AckPass(all[..i])
  {
  }

  /** Connection `y` is in the same state, on the same lists and in the same timers. */
  predicate SameAt(a: Moment, b: Moment, y: Id)
  {
    && (y in a.tcbs <==> y in b.tcbs) && (y in a.tcbs && y in b.tcbs ==> a.tcbs[y] == b.tcbs[y])
    && (y in a.control.flags <==> y in b.control.flags) && (y in a.send.flags <==> y in b.send.flags)
    && (y in a.ack.flags <==> y in b.ack.flags) && (y in a.timeout.flags <==> y in b.timeout.flags)
    && (y in a.armed <==> y in b.armed) && (y in a.parked <==> y in b.parked)
  }

  /**
   What an expired timer is for: unacknowledged data goes to the send list, with a FIN that has to wait
   for it taken off the control list; anything else is sent again at once, or waits on the control list
   exactly if it could not be sent in the world of its turn.
   */
  predicate Retransmits(t: Tcb, x: Id, was: Moment, world: seq<Outcome>, now: Moment)
  {
    var queued := t.hasSndbuf || x in was.send.flags;
    x in now.tcbs &&
    if t.state.ESTABLISHED? || t.state.CLOSE_WAIT? then
      now.tcbs[x] == t && (x in now.send.flags <==> queued) && (x in now.control.flags <==> x in was.control.flags)
    else if t.dataLeft && (t.state.FIN_WAIT_1? || t.state.CLOSING? || t.state.LAST_ACK?) then
      now.tcbs[x] == t.(waiting := true) && (x in now.send.flags <==> queued) && x !in now.control.flags
    else if t.state.SYN_SENT? || t.state.SYN_RECEIVED? || t.state.FIN_WAIT_1? || t.state.CLOSING? || t.state.LAST_ACK? then
      && now.tcbs[x] == t && (x in now.send.flags <==> x in was.send.flags)
      && (x in now.control.flags <==>
          !Accepts(world) || ((t.state.LAST_ACK? || t.state.FIN_WAIT_1?) && (x in was.send.flags || x in was.ack.flags)))
    else SameAt(was, now, x)
  }

  /** A tick: every connection it handles gets what its timer is for, and nothing happens to any other. */
  lemma TickRetransmits(m: Moment, xs: seq<Id>, i: nat)
    requires NoDup(xs) && i < |xs| && forall x <- xs :: x in m.tcbs
    ensures Retransmits(m.tcbs[xs[i]], xs[i], m, m.AllExpired(xs[..i]).world, m.AllExpired(xs))
  {
    hide Moment.Expired, Retransmits, SameAt;
    var x, a, b := xs[i], m.AllExpired(xs[..i]), m.AllExpired(xs[..i + 1]);
    assert xs[..0] == [] && xs[..|xs|] == xs;
    forall k | 0 <= k < |xs| && k != i ensures xs[k] != x { assert if k < i then Apart(xs, k, i) else Apart(xs, i, k); }
    m.AllElsewhere(xs, 0, i, x);
    m.AllElsewhere(xs, i + 1, |xs|, x);
    m.AllExpiredNone();
    m.AllExpiredStep(xs, i);
    ExpiredGives(a, x, m);
    StaysRetransmitted(m.tcbs[x], x, m, a.world, b, m.AllExpired(xs));
  }

  lemma StaysRetransmitted(t: Tcb, x: Id, m: Moment, world: seq<Outcome>, b: Moment, c: Moment)
    requires Retransmits(t, x, m, world, b) && SameAt(b, c, x)
    ensures Retransmits(t, x, m, world, c)
  {
  }

  lemma ExpiredGives(a: Moment, x: Id, m: Moment)
    requires x in a.tcbs && SameAt(m, a, x) && x in m.tcbs
    ensures Retransmits(m.tcbs[x], x, m, a.world, a.Expired(x))
  {
    hide Remove, Later, Accepts;
  }

  lemma TickElsewhere(m: Moment, xs: seq<Id>, y: Id)
    requires y !in xs && forall x <- xs :: x in m.tcbs
    ensures SameAt(m, m.AllExpired(xs), y)
  {
    assert xs[..0] == [] && xs[..|xs|] == xs;
    m.AllElsewhere(xs, 0, |xs|, y);
  }

  // ----- the same states as the connections have

  /** What the lists take a state for is what a connection in that state does. */
  lemma AsConnections(t: Tcb, busy: bool, world: seq<Outcome>, env: Env, iss: u32, fss: u32, snd: SendVars)
    requires env.queued == busy && env.wire == Accepts(world) && !t.state.LISTEN? && !t.state.SYN_SENT?
    requires !snd.armed && !snd.timewait && (t.finNext <==> snd.nxt == fss)
    ensures ControlGoes(t, busy, world) <==> Goes(t.state, env)
    ensures t.Arms() <==> ControlSent(t.state, true, iss, true, fss, snd).armed
    ensures CanFlush(t.state) <==> CanSendData(t.state)
    ensures CanAck(t.state) <==> t.Opened() && !t.state.CLOSING? && !t.state.LAST_ACK? && !t.state.CLOSED?
  {
  }

  /** Every transition of a connection is a change these lists are told of. */
  lemma ConnectionsMove(a: State, b: State, e: C.Event)
    requires Passage(a, b, e)
    ensures Moves(a, b) || (a.SYN_RECEIVED? && b.ESTABLISHED?)
  {
  }

  /** Aggregating makes one request of many; a window probe is not counted. */
  lemma RequestsAggregate(cnt: nat)
    ensures AckRequest(cnt, Aggregate) == Max(cnt, 1) == AckRequest(AckRequest(cnt, Aggregate), Aggregate) && AckRequest(cnt, AckOption.Wack) == cnt
  {
  }

  /** Six bits: after 64 requests in a row none is left. */
  lemma {:induction false} RequestsWrap(k: nat)
    ensures Requests(k) == k % 64
  {
    if k > 0 {
      RequestsWrap(k - 1);
      NextOf64(k - 1);
    }
  }

  lemma NextOf64(k: nat)
    ensures (k % 64 + 1) % 64 == (k + 1) % 64
  {
    var q := k / 64;
    assert k == 64 * q + k % 64;
  }

  function Requests(k: nat): nat { if k == 0 then 0 else AckRequest(Requests(k - 1), Now) }

  /** The packets sent are the first outcomes that took one, and the next one did not or was not offered. */
  lemma {:induction false} SentExactly(world: seq<Outcome>, n: nat)
    ensures Sent(world, n) <= |world| && forall i | 0 <= i < Sent(world, n) :: world[i].Taken?
    ensures Sent(world, n) <= n && (Sent(world, n) < n ==> !Accepts(world[Sent(world, n)..]))
    ensures AfterSends(world, n) == if Sent(world, n) == n then world[n..] else Later(world[Sent(world, n)..])
  {
    if n > 0 && Accepts(world) {
      SentExactly(world[1..], n - 1);
      var k := Sent(world[1..], n - 1);
      assert world[1..][k..] == world[k + 1..];
      forall i | 0 <= i < k + 1 ensures world[i].Taken? { assert i > 0 ==> world[1..][i - 1].Taken?; }
    }
  }

  /**
   What a check of the timers at `clock` handles: only armed connections, none twice, none of the wheel
   proper before its due tick, and unless it is cut short, which takes `thresh` of them, exactly those due.
   */
  ghost predicate Expires(w: RtoWheel.Moment, clock: u32, thresh: int, handled: seq<Id>, cut: bool)
  {
    var cur := RtoWheel.Reading(clock, w.nowTs, w.now);
    && NoDup(handled) && (forall x <- handled :: x in w.on)
    && (forall x <- handled | w.on[x] < RtoWheel.RTO_HASH :: x in w.plan.due && w.plan.due[x] <= cur)
    && (!cut ==> forall x <- w.on | w.on[x] < RtoWheel.RTO_HASH && x in w.plan.due :: x in handled <==> w.plan.due[x] <= cur)
    && (cut ==> |handled| >= thresh)
  }

  /** What an event makes of a moment; `handled` are the connections whose timers a tick finds expired. */
  predicate Follows(e: Event, handled: seq<Id>, a: Moment, b: Moment)
  {
    match e
    case DispatchControl(limit) => b == a.ControlPass(Reach(limit, |a.control.items|))
    case DispatchAck(limit) => b == a.AckPass(a.ack.items[..Reach(limit, |a.ack.items|)])
    case DispatchData(limit) => b == a.DataPass(Reach(limit, |a.send.items|))
    case World(more) => b == a.(world := a.world + more)
    case Time(clock) => b == a.(clock := clock)
    case Tick(_) => b == a.(armed := a.armed - (set x <- handled)).AllExpired(handled)
    case Create(x, tcb) => b == if x !in a.tcbs && tcb.state.LISTEN? then a.(tcbs := a.tcbs[x := tcb]) else a
    case _ => b == if e.x in a.tcbs then a.One(e) else a
  }
}
