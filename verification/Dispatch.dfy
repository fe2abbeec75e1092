/**
 The dispatch lists, the timeout list and the timers of all connections (src/usnet/core.c:212-530,
 src/usnet/tcp_out.c:305-583, src/usnet/timer.c:61-154, 328-499, src/usnet/tcb.c:334-355).

 A list is a tail queue; whether a connection is on it is also kept in a flag of the connection, and
 its length in a counter.  The dispatch loops walk a list by `next` pointers taken before each entry
 is processed, while processing may unlink entries, append to other lists, or release a connection.
 */
module Dispatch {
  import opened Words
  import opened Lists
  import Connection
  import opened DispatchState
  import RtoWheel

  class Dispatcher {
    var control: Queue
    var send: Queue
    var ack: Queue
    var timeout: Queue
    var tcbs: map<Id, Tcb>
    /** The outcomes still to come; when there is none left nothing more can be sent. */
    var world: seq<Outcome>

    /** The retransmission wheel and the timewait list. */
    const timers: RtoWheel.TimerStore
    var clock: u32

    /** The wheel and the timewait list are in order, exclude each other, and hold only living connections. */
    ghost predicate TimersOk()
      reads `tcbs, timers
    {
      timers.Valid() && timers.on.Keys <= tcbs.Keys && timers.onTimewait <= tcbs.Keys
    }

    ghost predicate ListsOk()
      reads `control, `send, `ack, `timeout, `tcbs
    {
      && control.Ok() && send.Ok() && ack.Ok() && timeout.Ok()
      && control.flags <= tcbs.Keys && send.flags <= tcbs.Keys && ack.flags <= tcbs.Keys && timeout.flags <= tcbs.Keys
      && forall x <- timeout.flags :: tcbs[x].Opened()
    }

    ghost predicate Valid()
      reads this, timers
    {
      ListsOk() && TimersOk()
    }

    /** Everything the operations below change, except where on the wheel a timer is. */
    ghost function Seen(): Moment
      reads this, timers
    {
      Moment(control, send, ack, timeout, tcbs, world, timers.on.Keys, timers.timewait, timers.onTimewait, timers.tsRto, clock)
    }

    constructor ()
      ensures Valid() && tcbs == map[] && fresh(timers)
    {
      control, send, ack, timeout := Queue([], {}, 0), Queue([], {}, 0), Queue([], {}, 0), Queue([], {}, 0);
      tcbs, world, clock := map[], [], 0;
      timers := new RtoWheel.TimerStore();
    }

    method Next() returns (o: Outcome)
      modifies `world
      ensures old(world) == [] ==> o == NoRoom && world == []
      ensures old(world) != [] ==> o == old(world)[0] && world == old(world)[1..]
    {
      if world == [] {
        return NoRoom;
      }
      o, world := world[0], world[1..];
    }

    /** usnet_send_tcp_packet; an acknowledging packet counts as activity. */
    method SendPacket(x: Id, acking: bool) returns (ok: bool)
      requires timeout.Ok()
      modifies `timeout, `world
      ensures timeout.Ok() && timeout.flags == old(timeout).flags
      ensures ok == Accepts(old(world)) && world == Later(old(world))
      ensures timeout == if ok && acking then old(timeout).Touch(x) else old(timeout)
      ensures Seen() == old(Seen()).Offered(x, acking)
    {
      var o := Next();
      ok := o.Taken?;
      if ok && acking {
        timeout.TouchOk(x);
        timeout := timeout.Touch(x);
      }
    }

    /** Setting `ts_rto` and linking into the wheel; a connection that is `linked` already only gets the new `ts_rto`. */
    method Arm(x: Id, linked: bool)
      requires TimersOk() && x in tcbs
      modifies timers
      ensures TimersOk() && timers.onTimewait == old(timers.onTimewait)
      ensures timers.on.Keys == old(timers.on.Keys) + if linked || x in timers.onTimewait then {} else {x}
      ensures Seen() == old(Seen()).Timed(x, linked)
    {
      hide RtoWheel.TimerStore.Valid, RtoWheel.Reading, RtoWheel.Plan.Put, Wrap32;
      timers.Restamp(x, Wrap32(clock + tcbs[x].rto));
      if !linked {
        timers.Add(x);
      }
    }

    /** Off the wheel and off timewait (src/usnet/tcb.c:341-345). */
    method Untime(x: Id)
      requires timers.Valid()
      modifies timers
      ensures timers.Valid() && timers.on == old(timers.on) - {x} && timers.onTimewait == old(timers.onTimewait) - {x}
      ensures timers.timewait == (if x in old(timers.onTimewait) then Remove(old(timers.timewait), x) else old(timers.timewait))
      ensures timers.tsRto == old(timers.tsRto)
    {
      timers.Disarm(x);
      if x in timers.onTimewait {
        timers.RemoveTimewait(x);
      }
    }

    /** usnet_release_tcb: the connection leaves every list, and the others stay where they were. */
    method Release(x: Id)
      requires Valid() && x in tcbs
      modifies this, timers
      ensures Valid() && tcbs == old(tcbs) - {x} && world == old(world)
      ensures control == old(control).Drop(x) && send == old(send).Drop(x) && ack == old(ack).Drop(x)
      ensures timeout == old(timeout).Drop(x)
      ensures timers.on == old(timers.on) - {x} && timers.onTimewait == old(timers.onTimewait) - {x}
      ensures Seen() == old(Seen()).Freed(x)
    {
      Untime(x);
      control.DropOk(x);
      send.DropOk(x);
      ack.DropOk(x);
      timeout.DropOk(x);
      control, send, ack, timeout := control.Drop(x), send.Drop(x), ack.Drop(x), timeout.Drop(x);
      tcbs := tcbs - {x};
    }

    method SendAndRelease(x: Id) returns (ok: bool)
      requires Valid() && x in tcbs
      modifies this, timers
      ensures Valid() && ok == Accepts(old(world))
      ensures if ok then tcbs == old(tcbs) - {x} else tcbs == old(tcbs)
      ensures control == if ok then old(control).Drop(x) else old(control)
      ensures send == if ok then old(send).Drop(x) else old(send)
      ensures ack == if ok then old(ack).Drop(x) else old(ack)
      ensures timers.on.Keys == old(timers.on.Keys) - (if ok then {x} else {})
      ensures timers.onTimewait == old(timers.onTimewait) - (if ok then {x} else {})
      ensures world == Later(old(world))
      ensures Seen() == if ok then old(Seen()).Offered(x, false).Freed(x) else old(Seen()).Offered(x, false)
    {
      ok := SendPacket(x, false);
      if ok {
        Release(x);
      }
    }

    /** The connections on the send or the ack list. */
    function Busy(): set<Id>
      reads `send, `ack
    {
      send.flags + ack.flags
    }

    /** The control packet of a connection would wait for the send and ack lists. */
    predicate Blocked(x: Id)
      requires x in tcbs
      reads `tcbs, `send, `ack
    {
      Waits(tcbs[x].state) && (x in send.flags || x in ack.flags)
    }

    /** Sending the control packet of a connection would succeed. */
    predicate Goes(x: Id)
      requires x in tcbs
      reads `tcbs, `send, `ack, `world
    {
      tcbs[x].state.LISTEN? || (!Blocked(x) && Accepts(world))
    }

    /** The connection would leave the ack list: an acknowledging packet was tried, or a RST was sent. */
    predicate TakesAck(x: Id)
      requires x in tcbs
      reads `tcbs, `send, `ack, `world
    {
      match tcbs[x].state
      case LISTEN => false
      case SYN_SENT => false
      case CLOSED => Goes(x)
      case _ => !Blocked(x)
    }

    /** What sending a control packet of `t` does to the timers: a SYN or FIN arms, a RST releases. */
    ghost predicate ArmedFrom(x: Id, linked: bool, goes: bool, t: Tcb, onKeys: set<Id>, inTimewait: set<Id>)
      reads timers
    {
      var released := goes && t.state.CLOSED?;
      var arms := goes && t.Arms() && !linked && x !in inTimewait;
      && timers.onTimewait == inTimewait - (if released then {x} else {})
      && timers.on.Keys == (if released then onKeys - {x} else if arms then onKeys + {x} else onKeys)
    }

    /**
     usnet_send_control_packet.  FIN and RST wait until the connection is off the send and ack
     lists; any other packet acknowledges, so the connection leaves the ack list; after a RST the
     connection is released.
     */
    method SendControlPacket(x: Id, linked: bool) returns (ret: int)
      requires Valid() && x in tcbs
      modifies this, timers
      ensures Valid() && (ret >= 0 <==> old(Goes(x)))
      ensures var released := ret >= 0 && old(tcbs)[x].state.CLOSED?;
              && tcbs == (if released then old(tcbs) - {x} else old(tcbs))
              && control == (if released then old(control).Drop(x) else old(control))
              && send == (if released then old(send).Drop(x) else old(send))
      ensures ack == if old(TakesAck(x)) then old(ack).Drop(x) else old(ack)
      ensures ArmedFrom(x, linked, old(Goes(x)), old(tcbs)[x], old(timers.on.Keys), old(timers.onTimewait))
      ensures world == ControlLeaves(old(tcbs)[x], x in old(send).flags || x in old(ack).flags, old(world))
      ensures Seen() == old(Seen()).Tried(x, linked)
    {
      hide RtoWheel.TimerStore.Valid, Queue.Ok;
      var state := tcbs[x].state;
      var busy := x in send.flags || x in ack.flags;
      if state.LISTEN? {
        return 0;
      }
      if Waits(state) && busy {
        return -1;
      }
      if state.CLOSED? {
        var gone := SendAndRelease(x);
        return if gone then 0 else -2;
      }
      var ok := SendPacket(x, !state.SYN_SENT?);
      if !state.SYN_SENT? {
        ack.DropOk(x);
        ack := ack.Drop(x);
      }
      if ok && tcbs[x].Arms() {
        Arm(x, linked);
      }
      ret := if ok then 0 else -2;
    }

    /** usnet_add_control_list: try to send at once; queue on failure, leave the queue on success. */
    method AddControl(x: Id, linked: bool)
      requires Valid() && x in tcbs
      modifies this, timers
      ensures Valid()
      ensures control == if old(Goes(x)) then old(control).Drop(x) else old(control).Add(x)
      ensures ack == if old(TakesAck(x)) then old(ack).Drop(x) else old(ack)
      ensures var released := old(Goes(x)) && old(tcbs)[x].state.CLOSED?;
              tcbs == (if released then old(tcbs) - {x} else old(tcbs)) && send == (if released then old(send).Drop(x) else old(send))
      ensures ArmedFrom(x, linked, old(Goes(x)), old(tcbs)[x], old(timers.on.Keys), old(timers.onTimewait))
      ensures world == old(world) || world == Later(old(world))
      ensures Seen() == old(Seen()).Controlled(x, linked)
    {
      hide RtoWheel.TimerStore.Valid;
      var ret := SendControlPacket(x, linked);
      control.AddOk(x);
      control.DropOk(x);
      assert old(control).Drop(x).Drop(x) == old(control).Drop(x);
      control := if ret < 0 then control.Add(x) else control.Drop(x);
    }

    /** usnet_add_send_list. */
    method AddSend(x: Id)
      requires Valid() && x in tcbs
      modifies `send
      ensures Valid() && send == if tcbs[x].hasSndbuf then old(send).Add(x) else old(send)
      ensures Seen() == old(Seen()).Queued(x)
    {
      send.AddOk(x);
      if tcbs[x].hasSndbuf {
        send := send.Add(x);
      }
    }

    /** usnet_enqueue_ack. */
    method EnqueueAck(x: Id, opt: AckOption)
      requires ack.Ok() && ack.flags <= tcbs.Keys && x in tcbs
      modifies `ack, `tcbs
      ensures ack.Ok() && ack == old(ack).Add(x) && ack.flags == old(ack).flags + {x}
      ensures tcbs == old(tcbs)[x := old(tcbs)[x].(ackCnt := AckRequest(old(tcbs)[x].ackCnt, opt),
                                                   isWack := opt.Wack? || old(tcbs)[x].isWack)]
      ensures Seen() == old(Seen()).Asked(x, opt)
    {
      ack.AddOk(x);
      tcbs := tcbs[x := tcbs[x].(ackCnt := AckRequest(tcbs[x].ackCnt, opt), isWack := opt.Wack? || tcbs[x].isWack)];
      ack := ack.Add(x);
    }

    // ----- the control list

    /**
     usnet_send_tcp_control_list.  The walk by `next` meets the entries in list order; they leave
     from the front, the first that cannot be sent is put back there and ends the walk, so exactly a
     prefix of the list has been served: all that `limit` reaches unless one could not be sent in the
     world of its turn.  `worlds` are the worlds at each turn, the last one that of the stuck entry.
     */
    method SendControlList(limit: int) returns (cnt: int, ghost served: nat, ghost stuck: bool, ghost worlds: seq<seq<Outcome>>)
      requires Valid()
      modifies this, timers
      ensures Valid() && served <= |old(control).items| && control.items == old(control).items[served..]
      ensures if stuck then served < Reach(limit, |old(control).items|) else served == Reach(limit, |old(control).items|)
      ensures ControlsServed(old(control).items, served, old(tcbs), old(Busy()), worlds) && |worlds| == served + 1 && worlds[0] == old(world)
      ensures stuck ==> var x := old(control).items[served]; x in old(tcbs) && !ControlGoes(old(tcbs)[x], x in old(Busy()), worlds[served])
      ensures !stuck ==> world == worlds[served]
      ensures Seen() == old(Seen()).ControlPass(Reach(limit, |old(control).items|))
    {
      hide RtoWheel.TimerStore.Valid, Queue.Ok, ControlGoes, ControlLeaves, ControlsServed, ControlTurn, Moment.ControlPass, Moment.ControlRound;
      ghost var m, all, n := Seen(), control.items, Reach(limit, |control.items|);
      var thresh := if limit < control.count then limit else control.count;
      var cur, last := First(control.items), Last(control.items);
      cnt, served, stuck, worlds := 0, 0, false, [world];
      control.Distinct();
      control.Counted();
      ControlTurnStart(m, n);
      hide ListsOk, TimersOk;
      while cur.Some?
        invariant Valid() && served <= |all| && control.items == all[served..] && cnt == served <= n
        invariant cur == First(control.items) && !stuck
        invariant ControlTurn(m, all, n, served, worlds, Seen())
        decreases |control.items|
      {
        cnt := cnt + 1;
        if cnt > thresh {
          break;
        }
        var x := cur.value;
        var next := After(control.items, x);
        OnControlList(x);
        assert x in control.flags;  // the arm for an entry that is not flagged is never taken
        ghost var was := Seen();
        var ok := ServeControl(x);
        ControlTurnStep(m, all, n, served, worlds, was, Seen());
        if !ok {
          stuck := true;
          return;
        }
        worlds, served := worlds + [world], served + 1;
        if Some(x) == last {
          LastOnce(all, served - 1);
          break;
        }
        cur := next;
      }
      ControlTurnTells(m, all, n, served, worlds, Seen());
    }

    lemma OnControlList(x: Id)
      requires Valid()
      ensures (x in control.items <==> x in control.flags) && (x in control.flags ==> x in tcbs)
    {
      control.Listed(x);
    }

    /** One round of the control loop: unlink, clear the flag, send; on failure link it back at the front. */
    method ServeControl(x: Id) returns (ok: bool)
      requires Valid() && control.items != [] && x == control.items[0]
      modifies this, timers
      ensures Valid() && ok == old(Goes(x)) && control.items == if ok then old(control).items[1..] else old(control).items
      ensures tcbs - {x} == old(tcbs) - {x}
      ensures Busy() - {x} == old(Busy()) - {x}
      ensures world == ControlLeaves(old(tcbs)[x], x in old(Busy()), old(world))
      ensures Seen() == old(Seen()).ControlRound(x)
      ensures ok == old(Seen()).Goes(x)
    {
      hide RtoWheel.TimerStore.Valid, Moment.Tried;
      assert x in control.items;
      control.DropOk(x);
      ghost var was := control;
      control := control.Drop(x);
      send.DropOk(x);
      ack.DropOk(x);
      var ret := SendControlPacket(x, false);
      ok := ret >= 0;
      if !ok {
        NoDupCons(x, control.items);
        control := Queue([x] + control.items, control.flags + {x}, control.count + 1);
        assert control.items == was.items;
      }
    }

    // ----- the ack list

    /** src/usnet/core.c:318-326; how many are still owed. */
    method SendCounted(x: Id, owed: nat) returns (n: nat)
      requires timeout.Ok()
      modifies `timeout, `world
      ensures timeout.Ok() && timeout.flags == old(timeout).flags && n == owed - Sent(old(world), owed)
      ensures world == AfterSends(old(world), owed)
      ensures timeout == if n < owed then old(timeout).Touch(x) else old(timeout)
    {
      hide Queue.Touch;
      n := owed;
      timeout.TouchTwice(x);
      timeout.TouchOk(x);
      SentWithin(world, owed);
      while n > 0
        invariant timeout.Ok() && timeout.flags == old(timeout).flags && n <= owed
        invariant n - Sent(world, n) == owed - Sent(old(world), owed)
        invariant AfterSends(world, n) == AfterSends(old(world), owed)
        invariant timeout == if n < owed then old(timeout).Touch(x) else old(timeout)
      {
        var ok := SendPacket(x, true);
        if !ok {
          break;
        }
        n := n - 1;
      }
    }

    /** src/usnet/core.c:318-337: the counted acknowledgements, then the window probe. */
    method SendOwed(x: Id, owed: nat, probe: bool) returns (n: nat, wack: bool)
      requires timeout.Ok()
      modifies `timeout, `world
      ensures timeout.Ok() && timeout.flags == old(timeout).flags && n == owed - Sent(old(world), owed)
      ensures wack == (probe && !Accepts(AfterSends(old(world), owed))) && LeftOf(world, old(world))
      ensures world == if probe then Later(AfterSends(old(world), owed)) else AfterSends(old(world), owed)
      ensures timeout == if n < owed || (probe && !wack) then old(timeout).Touch(x) else old(timeout)
    {
      hide Queue.Ok, Queue.Touch;
      timeout.TouchTwice(x);
      SendsLeave(world, owed);
      LeftOfTwice(Later(AfterSends(world, owed)), AfterSends(world, owed), world);
      n := SendCounted(x, owed);
      wack := probe;
      if wack {
        var ok := SendPacket(x, true);
        wack := !ok;
      }
    }

    /** src/usnet/core.c:316-349: send what is asked for; off the list when nothing is left to send. */
    method SendAcks(x: Id)
      requires Valid() && x in ack.flags
      modifies `ack, `timeout, `tcbs, `world
      ensures Valid() && tcbs.Keys == old(tcbs).Keys && LeftOf(world, old(world))
      ensures ack == if tcbs[x].ackCnt > 0 || tcbs[x].isWack then old(ack) else old(ack).Drop(x)
      ensures tcbs == old(tcbs)[x := old(tcbs)[x].(ackCnt := tcbs[x].ackCnt, isWack := tcbs[x].isWack)]
      ensures Seen() == old(Seen()).Acked(x)
      ensures var t := old(tcbs)[x];
              if CanAck(t.state) && t.ackable
              then tcbs[x].ackCnt == t.ackCnt - Sent(old(world), t.ackCnt)
                && tcbs[x].isWack == (t.isWack && !Accepts(AfterSends(old(world), t.ackCnt)))
              else tcbs[x].ackCnt == 0 && !tcbs[x].isWack
    {
      hide RtoWheel.TimerStore.Valid, Queue.Ok, Queue.Drop, Queue.Touch, Sent, AfterSends, Accepts, Later, LeftOf, Moment.Settled, Moment.Acked;
      ghost var m := Seen();
      var n, wack := SendAllowed(x);
      m.AllowedIsAcked(x, n, wack, world, timeout);
      Settle(x, n, wack);
    }

    /** src/usnet/core.c:284-337: what is owed, where the state and the receive buffer call for it. */
    method SendAllowed(x: Id) returns (n: nat, wack: bool)
      requires timeout.Ok() && x in tcbs
      modifies `timeout, `world
      ensures timeout.Ok() && timeout.flags == old(timeout).flags && LeftOf(world, old(world))
      ensures old(Seen()).Allowed(x, n, wack, world, timeout)
    {
      hide Queue.Ok, Queue.Touch, Sent, AfterSends, Accepts, Later, LeftOf;
      LeftRest(world, 0);
      assert world[0..] == world;
      n, wack := 0, false;
      if CanAck(tcbs[x].state) && tcbs[x].ackable {
        n, wack := SendOwed(x, tcbs[x].ackCnt, tcbs[x].isWack);
      }
    }

    /** src/usnet/core.c:338-349: what is still owed; off the list when that is nothing. */
    method Settle(x: Id, n: nat, wack: bool)
      requires Valid() && x in ack.flags
      modifies `ack, `tcbs
      ensures Valid() && tcbs == old(tcbs)[x := old(tcbs)[x].(ackCnt := n, isWack := wack)]
      ensures ack == if n > 0 || wack then old(ack) else old(ack).Drop(x)
      ensures Seen() == old(Seen()).Settled(x, n, wack)
    {
      hide RtoWheel.TimerStore.Valid, Queue.Ok, Queue.Drop;
      ack.DropOk(x);
      tcbs := tcbs[x := tcbs[x].(ackCnt := n, isWack := wack)];
      if n == 0 && !wack {
        ack := ack.Drop(x);
      }
    }

    /** src/usnet/core.c:351-356, 443-448: a control packet that waited for this list. */
    method SendWaiting(x: Id, busy: bool)
      requires Valid() && x in tcbs
      modifies this, timers
      ensures Valid() && (ack == old(ack) || ack == old(ack).Drop(x)) && (send == old(send) || send == old(send).Drop(x))
      ensures if old(tcbs)[x].waiting && !busy
              then control == (if old(Goes(x)) then old(control).Drop(x) else old(control).Add(x)) && (x in tcbs ==> !tcbs[x].waiting)
              else control == old(control) && ack == old(ack) && send == old(send) && tcbs == old(tcbs)
      ensures tcbs - {x} == old(tcbs) - {x} && LeftOf(world, old(world))
      ensures Seen() == old(Seen()).Woken(x, busy)
      ensures control.flags - {x} == old(control).flags - {x}
    {
      hide RtoWheel.TimerStore.Valid, Queue.Ok, Moment.Controlled;
      if tcbs[x].waiting && !busy {
        tcbs := tcbs[x := tcbs[x].(waiting := false)];
        AddControl(x, false);
      }
    }

    /** One round of the ack loop. */
    method ServeAck(x: Id) returns (ghost gone: bool)
      requires Valid() && x in ack.flags
      modifies this, timers
      ensures Valid() && ack == if gone then old(ack).Drop(x) else old(ack)
      ensures send == old(send) || send == old(send).Drop(x)
      ensures !gone ==> Owes(old(tcbs)[x], old(world))
      ensures tcbs - {x} == old(tcbs) - {x} && LeftOf(world, old(world))
      ensures Seen() == old(Seen()).AckRound(x)
    {
      hide RtoWheel.TimerStore.Valid, Queue.Ok, Moment.Acked, Moment.Woken, LeftOf;
      SendAcks(x);
      assert old(ack).Drop(x).Drop(x) == old(ack).Drop(x);
      ghost var mid := world;
      SendWaiting(x, x in send.flags);
      LeftOfTwice(world, mid, old(world));
      gone := ack != old(ack);
    }

    /**
     usnet_send_tcp_ack_list.  The walk by `next` meets the first entries in list order although each
     may leave the list, or the whole stack, while it is served; the others keep their order.  An entry
     it met is still on the list only if something is owed to it that the world, as it was at its turn,
     did not take; `worlds` are the worlds at each turn and at the end.
     */
    method SendAckList(limit: int) returns (cnt: int, ghost gone: set<Id>, ghost worlds: seq<seq<Outcome>>)
      requires Valid()
      modifies this, timers
      ensures Valid()
      ensures Walked(old(ack).items, Reach(limit, |old(ack).items|), gone, ack.items)
      ensures Served(old(ack).items, Reach(limit, |old(ack).items|), gone, old(tcbs), worlds)
      ensures |worlds| == Reach(limit, |old(ack).items|) + 1 && worlds[0] == old(world) && worlds[|worlds| - 1] == world
      ensures Seen() == old(Seen()).AckPass(old(ack).items[..Reach(limit, |old(ack).items|)])
    {
      hide Walked, After, RtoWheel.TimerStore.Valid, Queue.Ok, Owes, LeftOf, AckTurn, Served, Moment.AckPass, Moment.AckRound;
      ghost var m, all, i := Seen(), ack.items, 0;
      var cur, last := First(ack.items), Last(ack.items);
      cnt, gone, worlds := 0, {}, [world];
      ack.Distinct();
      AckTurnStart(m);
      hide ListsOk, TimersOk;
      while cur.Some?
        invariant Valid() && i <= |all| && cnt == i <= Reach(limit, |all|) && cur == First(all[i..])
        invariant AckTurn(m, all, i, gone, worlds, Seen())
        decreases |all| - i
      {
        cnt := cnt + 1;
        if cnt > limit {
          break;
        }
        var x := cur.value;
        AckTurnMeets(m, all, i, gone, worlds, Seen());
        OnAckList(x);
        var next := After(ack.items, x);
        assert x in ack.flags;  // the arm for an entry that is not flagged is never taken
        ghost var was := Seen();
        ghost var left := ServeAck(x);
        AckTurnStep(m, all, i, gone, left, worlds, was, Seen());
        gone, worlds := if left then gone + {x} else gone, worlds + [world];
        i := i + 1;
        if Some(x) == last {
          LastOnce(all, i - 1);
          break;
        }
        cur := next;
      }
      AckTurnTells(m, all, i, gone, worlds, Seen());
    }

    lemma OnAckList(x: Id)
      requires Valid()
      ensures (x in ack.items <==> x in ack.flags) && (x in ack.flags ==> x in tcbs)
    {
      ack.Listed(x);
    }

    // ----- the send list

    /**
     usnet_flush_tcp_sendbuf as the lists see it: packets that count as activity, until the buffer is
     drained, the wire refuses, or the window is full, when a window probe may be queued.
     */
    method Flush(x: Id) returns (ret: int)
      requires x in tcbs && ack.Ok() && ack.flags <= tcbs.Keys && timeout.Ok() && TimersOk()
      modifies `ack, `timeout, `tcbs, `world, timers
      ensures TimersOk() && timers.onTimewait == old(timers.onTimewait)
      ensures ack.Ok() && ack.flags <= tcbs.Keys && timeout.Ok() && timeout.flags == old(timeout).flags
      ensures var n := Sent(old(world), |old(world)|);
              if n >= |old(world)| || old(world)[n].Drained? then ret == n && ack == old(ack) && tcbs == old(tcbs)
              else if old(world)[n].WindowFull? then ret == -3 && ack == (if old(world)[n].probe then old(ack).Add(x) else old(ack))
              else ret == -2 && ack == old(ack) && tcbs == old(tcbs)
      ensures tcbs.Keys == old(tcbs).Keys && forall y <- tcbs :: tcbs[y].state == old(tcbs)[y].state
      ensures tcbs - {x} == old(tcbs) - {x} && LeftOf(world, old(world))
      ensures Seen() == old(Seen()).Flushed(x)
    {
      hide RtoWheel.TimerStore.Valid, Queue.Ok, Queue.Touch, Queue.Add, Moment.Sending, Moment.Flushed, Moment.Offered, Moment.Timed;
      hide LeftOf, Sent, Later;
      ghost var m := Seen();
      var n := 0;
      m.SendingNone(x);
      m.FlushedKeeps(x);
      while Accepts(world)
        invariant timeout.Ok() && TimersOk() && ack == old(ack) && tcbs == old(tcbs)
        invariant n <= |old(world)| && world == old(world)[n..] && n + Sent(world, |world|) == Sent(old(world), |old(world)|)
        invariant Seen() == m.Sending(x, n, world)
        decreases |world|
      {
        m.SendingMore(x, n, world);
        SentRest(old(world), n);
        LaterIsRest(world);
        var _ := SendPacket(x, true);
        Arm(x, false);
        n := n + 1;
      }
      ret := Stop(x, m, n);
    }

    /** How the flush ends: the buffer is drained, the window is full, or the wire refuses. */
    method Stop(x: Id, ghost m: Moment, n: nat) returns (ret: int)
      requires x in tcbs && ack.Ok() && ack.flags <= tcbs.Keys && timeout.Ok() && TimersOk() && !Accepts(world)
      requires x in m.tcbs && n <= |m.world| && world == m.world[n..] && n + Sent(world, |world|) == Sent(m.world, |m.world|)
      requires Seen() == m.Sending(x, n, world) && ack == m.ack && tcbs == m.tcbs
      modifies `ack, `timeout, `tcbs, `world
      ensures Seen() == m.Flushed(x) && TimersOk() && ack.Ok() && ack.flags <= tcbs.Keys && Sent(m.world, |m.world|) == n
      ensures if n >= |m.world| || m.world[n].Drained? then ret == n && ack == m.ack && tcbs == m.tcbs
              else if m.world[n].WindowFull? then ret == -3 && ack == (if m.world[n].probe then m.ack.Add(x) else m.ack)
              else ret == -2 && ack == m.ack && tcbs == m.tcbs
    {
      hide RtoWheel.TimerStore.Valid, Queue.Ok, Queue.Touch, Queue.Add, Moment.Sending, Moment.Flushed, Moment.Offered, Sent;
      SentNone(world, |world|);
      m.SendingEnds(x, n);
      if world != [] && world[0].NoRoom? {
        var _ := SendPacket(x, true);
        return -2;
      }
      ret := if world == [] || world[0].Drained? then n else -3;
      var probe := world != [] && world[0].WindowFull? && world[0].probe;
      SetWorld(x, m, n, Later(world));
      if probe {
        EnqueueAck(x, Wack);
      }
    }

    /** The next outcome is used up. */
    method SetWorld(x: Id, ghost m: Moment, ghost n: nat, rest: seq<Outcome>)
      requires x in m.tcbs && Seen() == m.Sending(x, n, world)
      modifies `world
      ensures world == rest && Seen() == m.Sending(x, n, rest)
    {
      world := rest;
    }

    /** src/usnet/core.c:395-412: whether the send list is done with the connection. */
    method TryData(x: Id) returns (ok: bool)
      requires x in tcbs && ack.Ok() && ack.flags <= tcbs.Keys && timeout.Ok() && TimersOk()
      modifies `ack, `timeout, `tcbs, `world, timers
      ensures TimersOk() && ack.Ok() && ack.flags <= tcbs.Keys && timeout.Ok() && timeout.flags == old(timeout).flags
      ensures ok == DataGoes(old(tcbs)[x], x in control.flags, old(world)) && LeftOf(world, old(world))
      ensures tcbs.Keys == old(tcbs).Keys && forall y <- tcbs :: tcbs[y].state == old(tcbs)[y].state
      ensures tcbs - {x} == old(tcbs) - {x}
      ensures Seen() == old(Seen()).Drained(x)
    {
      hide RtoWheel.TimerStore.Valid, Queue.Ok, Moment.Flushed;
      var ret := 0;
      var state := tcbs[x].state;
      if state.ESTABLISHED? && x in control.flags {
        ret := -1;
      } else if CanFlush(state) {
        ret := Flush(x);
      }
      ok := ret >= 0;
    }

    /**
     One round of the send loop (src/usnet/core.c:395-450): the entry is unlinked while its flag and
     the counter still stand, and then either leaves the list for good or goes to its tail.
     */
    method ServeData(x: Id) returns (ok: bool)
      requires Valid() && x in send.flags
      modifies this, timers
      ensures Valid() && send == if ok then old(send).Drop(x) else old(send).Touch(x)
      ensures ok == DataGoes(old(tcbs)[x], x in old(control).flags, old(world)) && LeftOf(world, old(world))
      ensures tcbs - {x} == old(tcbs) - {x} && control.flags - {x} == old(control).flags - {x}
      ensures Seen() == old(Seen()).DataRound(x)
    {
      hide RtoWheel.TimerStore.Valid, Queue.Ok, Queue.Drop, Queue.Touch, Queue.Add, DataGoes, LeftOf, Moment.Drained, Moment.Woken;
      ghost var m := Seen();
      send.Moved(x);
      m.DrainedKeepsSend(x, send.(items := Remove(send.items, x)));
      send.DropOk(x);
      send.TouchOk(x);
      send := send.(items := Remove(send.items, x));
      ok := TryData(x);
      if !ok {
        send := send.(items := send.items + [x]);
        return;
      }
      send := send.(flags := send.flags - {x}, count := send.count - 1);
      assert send == old(send).Drop(x);
      send.DropAgain(x);
      ghost var mid := world;
      SendWaiting(x, x in ack.flags);
      LeftOfTwice(world, mid, old(world));
    }

    /**
     usnet_send_tcp_data_list.  Entries leave from the front in order; the first that cannot be
     served in the world of its turn goes to the tail and ends the walk.  `worlds` are the worlds at
     each turn, the last one that of the stuck entry.
     */
    method SendDataList(limit: int) returns (cnt: int, ghost served: nat, ghost stuck: bool, ghost worlds: seq<seq<Outcome>>)
      requires Valid()
      modifies this, timers
      ensures Valid() && served <= |old(send).items|
      ensures if stuck then served < Reach(limit, |old(send).items|) else served == Reach(limit, |old(send).items|)
      ensures send.items == if stuck then old(send).items[served + 1..] + [old(send).items[served]] else old(send).items[served..]
      ensures DataServed(old(send).items, served, old(tcbs), old(control).flags, worlds) && |worlds| == served + 1 && worlds[0] == old(world)
      ensures stuck ==> var x := old(send).items[served]; x in old(tcbs) && !DataGoes(old(tcbs)[x], x in old(control).flags, worlds[served])
      ensures !stuck ==> world == worlds[served]
      ensures Seen() == old(Seen()).DataPass(Reach(limit, |old(send).items|))
    {
      hide RtoWheel.TimerStore.Valid, Queue.Ok, Unmet, SameFrom, DataGoes, LeftOf, DataServed, DataLeft, Moment.DataPass, Moment.DataRound;
      ghost var m, n := Seen(), Reach(limit, |send.items|);
      ghost var all, tcbs0, flags0 := send.items, tcbs, control.flags;
      var cur, last := First(send.items), Last(send.items);
      cnt, served, stuck, worlds := 0, 0, false, [world];
      send.Distinct();
      UnmetAll(all, send, tcbs);
      SameAll(all, flags0);
      DataServedNone(all, tcbs, flags0, world);
      DataLeftStart(m, n);
      while cur.Some?
        invariant Valid() && served <= |all| && send.items == all[served..] && cnt == served
        invariant cur == First(send.items) && !stuck && served <= Reach(limit, |all|)
        invariant Unmet(all, served, tcbs, tcbs0) && SameFrom(all, served, control.flags, flags0)
        invariant DataLeft(m, n, Seen(), served)
        invariant DataServed(all, served, tcbs0, flags0, worlds) && |worlds| == served + 1 && worlds[0] == old(world) && worlds[served] == world
        decreases |send.items|
      {
        cnt := cnt + 1;
        if cnt > limit {
          break;
        }
        var x := cur.value;
        var next := After(send.items, x);
        send.Listed(x);
        DataLeftStep(m, n, Seen(), served);
        assert x in send.flags;  // the arm for an entry that is not flagged is never taken
        ghost var was, flags := tcbs, control.flags;
        var ok := ServeData(x);
        UnmetStep(all, served, was, tcbs, tcbs0);
        SameStep(all, served, flags, control.flags, flags0);
        if !ok {
          stuck := true;
          break;
        }
        DataServedStep(all, served, tcbs0, flags0, worlds, world);
        worlds := worlds + [world];
        served := served + 1;
        if Some(x) == last {
          LastOnce(all, served - 1);
          break;
        }
        cur := next;
      }
      if !stuck {
        DataLeftEnds(m, n, Seen(), served);
      }
    }

    // ----- whole runs

    /**
     The list part of usnet_handle_rto (src/usnet/timer.c:328-356) for a connection that is kept.  It
     runs while the connection is still linked into its bucket, so that sending does not arm it.
     */
    method HandleRto(x: Id)
      requires Valid() && x in tcbs
      modifies this, timers
      ensures Valid()
      ensures var t := old(tcbs)[x];
              if t.state.ESTABLISHED? || t.state.CLOSE_WAIT? then
                control == old(control) && ack == old(ack) && send == (if t.hasSndbuf then old(send).Add(x) else old(send))
              else if (t.state.FIN_WAIT_1? || t.state.CLOSING? || t.state.LAST_ACK?) && t.dataLeft then
                && control == old(control).Drop(x) && ack == old(ack) && x in tcbs && tcbs[x].waiting
                && send == (if t.hasSndbuf then old(send).Add(x) else old(send))
              else if Released(t.state) then control == old(control) && send == old(send) && ack == old(ack)
              else
                && control == (if old(Goes(x)) then old(control).Drop(x) else old(control).Add(x)) && send == old(send)
                && ack == if old(TakesAck(x)) then old(ack).Drop(x) else old(ack)
      ensures timers.on.Keys == old(timers.on.Keys) && timers.onTimewait == old(timers.onTimewait) && tcbs.Keys == old(tcbs).Keys
      ensures Seen() == old(Seen()).Expired(x)
    {
      hide RtoWheel.TimerStore.Valid;
      var t := tcbs[x];
      if t.state.ESTABLISHED? || t.state.CLOSE_WAIT? {
        AddSend(x);
      } else if (t.state.FIN_WAIT_1? || t.state.CLOSING? || t.state.LAST_ACK?) && t.dataLeft {
        control.DropOk(x);
        control := control.Drop(x);
        tcbs := tcbs[x := tcbs[x].(waiting := true)];
        AddSend(x);
      } else if !Released(t.state) {
        AddControl(x, true);
      }
    }

    /** usnet_add_timeout_list: false where its assertion fails. */
    method JoinTimeout(x: Id) returns (ok: bool)
      requires ListsOk() && x in tcbs && tcbs[x].Opened()
      modifies `timeout
      ensures ListsOk() && (ok <==> x !in old(timeout).flags) && timeout == old(timeout).Add(x)
    {
      timeout.AddOk(x);
      ok := x !in timeout.flags;
      timeout := timeout.Add(x);
    }

    /** src/usnet/tcp.c:698-703: established once, so not yet on the timeout list, whose assertion holds. */
    method OnEstablished(x: Id, timed: bool)
      requires Valid() && x in tcbs && tcbs[x].state.SYN_RECEIVED?
      modifies this, timers
      ensures Valid() && x !in timers.on && tcbs == old(tcbs)[x := old(tcbs)[x].(state := Connection.ESTABLISHED)]
      ensures timeout == if timed then old(timeout).Add(x) else old(timeout)
      ensures Seen() == old(Seen()).Opened(x, timed)
    {
      timers.Disarm(x);
      assert x !in timeout.flags;
      tcbs := tcbs[x := tcbs[x].(state := Connection.ESTABLISHED)];
      if timed {
        var ok := JoinTimeout(x);
        assert ok;
      }
    }

    /** src/usnet/timer.c:480-492: off the timeout list, CLOSED, and gone unless a socket holds it. */
    method OnIdle(x: Id, socket: bool)
      requires Valid() && x in timeout.flags
      modifies this, timers
      ensures Valid() && x !in timeout.flags && timeout == old(timeout).Drop(x)
      ensures tcbs == if socket then old(tcbs)[x := old(tcbs)[x].(state := Connection.CLOSED)] else old(tcbs) - {x}
      ensures Seen() == old(Seen()).Idled(x, socket)
    {
      timeout.DropOk(x);
      timeout := timeout.Drop(x);
      tcbs := tcbs[x := tcbs[x].(state := Connection.CLOSED)];
      if !socket {
        Release(x);
      }
    }

    /** src/usnet/timer.c:440-452: a timewait entry that is not on the control list is released. */
    method OnTimewaited(x: Id)
      requires Valid() && x in timers.onTimewait
      modifies this, timers
      ensures Valid()
      ensures if x in old(control).flags then tcbs == old(tcbs) && timers.onTimewait == old(timers.onTimewait)
              else tcbs == old(tcbs) - {x} && timers.onTimewait == old(timers.onTimewait) - {x}
      ensures Seen() == if x in old(control).flags then old(Seen()) else old(Seen()).Freed(x)
    {
      if x !in control.flags {
        Release(x);
      }
    }

    /**
     usnet_check_rtm_timeout with the list part of each expiry: those handled leave the wheel, and then
     each gets exactly what its expiry calls for, in order.
     */
    method OnTick(thresh: int) returns (ghost handled: seq<Id>, ghost cut: bool)
      requires Valid()
      modifies this, timers
      ensures Valid() && tcbs.Keys == old(tcbs).Keys && timers.onTimewait == old(timers.onTimewait)
      ensures timers.on.Keys == old(timers.on.Keys) - (set x <- handled)
      ensures Expires(old(timers.Seen()), old(clock), thresh, handled, cut)
      ensures Seen() == old(Seen()).(armed := old(timers.on.Keys) - (set x <- handled)).AllExpired(handled)
    {
      hide RtoWheel.TimerStore.Valid, Queue.Ok, Moment.AllExpired, Moment.Expired;
      ghost var keys, on0, tw := tcbs.Keys, timers.on.Keys, timers.onTimewait;
      var found, short, _ := timers.Check(clock, thresh);
      handled, cut := found, short;
      assert forall x <- handled :: x in keys;
      assert Expires(old(timers.Seen()), clock, thresh, handled, cut);
      ghost var m := Seen();
      m.AllExpiredNone();
      assert found[..0] == [] && found[..|found|] == found;
      for i := 0 to |found|
        invariant Valid() && tcbs.Keys == keys && timers.onTimewait == tw && timers.on.Keys == m.armed
        invariant Seen() == m.AllExpired(found[..i])
      {
        assert found[i] in found;
        m.AllExpiredStep(found, i);
        HandleRto(found[i]);
      }
    }

    /**
     Every reachable state of all five lists and the wheel: whatever happens in whatever order, each
     connection is on each list exactly once if and only if its flag is set, each counter is the length
     of its list, and no connection is in an RTO bucket and in timewait at once.  `moments` are the
     states before each event and at the end, and each follows from the one before and the event; a
     tick handles the connections whose timers `wheels`, the timers at that moment, show as expired.
     */
    method Run(events: seq<Event>)
      returns (ghost moments: seq<Moment>, ghost wheels: seq<RtoWheel.Moment>, ghost handled: seq<seq<Id>>, ghost cuts: seq<bool>)
      requires Valid()
      modifies this, timers
      ensures Valid() && timers.on.Keys !! timers.onTimewait
      ensures |moments| == |wheels| == |events| + 1 && |handled| == |cuts| == |events|
      ensures moments[0] == old(Seen()) && moments[|events|] == Seen() && wheels[0] == old(timers.Seen())
      ensures forall i | 0 <= i < |events| :: Follows(events[i], handled[i], moments[i], moments[i + 1])
      ensures forall i | 0 <= i <= |events| :: moments[i].armed == wheels[i].on.Keys
      ensures forall i | 0 <= i < |events| && events[i].Tick? :: Expires(wheels[i], moments[i].clock, events[i].thresh, handled[i], cuts[i])
    {
      hide RtoWheel.TimerStore.Valid, Queue.Ok, Follows, Expires;
      moments, wheels, handled, cuts := [Seen()], [timers.Seen()], [], [];
      for i := 0 to |events|
        invariant Valid() && |moments| == |wheels| == i + 1 && |handled| == |cuts| == i
        invariant moments[0] == old(Seen()) && moments[i] == Seen() && wheels[0] == old(timers.Seen()) && wheels[i] == timers.Seen()
        invariant forall j | 0 <= j < i :: Follows(events[j], handled[j], moments[j], moments[j + 1])
        invariant forall j | 0 <= j <= i :: moments[j].armed == wheels[j].on.Keys
        invariant forall j | 0 <= j < i && events[j].Tick? :: Expires(wheels[j], moments[j].clock, events[j].thresh, handled[j], cuts[j])
      {
        var _, who, cut := Step(events[i]);
        moments, wheels := moments + [Seen()], wheels + [timers.Seen()];
        handled, cuts := handled + [who], cuts + [cut];
      }
      NeverBoth();
    }

    lemma NeverBoth()
      requires Valid()
      ensures timers.on.Keys !! timers.onTimewait
    {
    }

    /** One event; false exactly where a connection enters timewait that is armed, and the assertion against that fails. */
    method Step(e: Event) returns (ok: bool, ghost handled: seq<Id>, ghost cut: bool)
      requires Valid()
      modifies this, timers
      ensures Valid() && (!ok <==> e.EnterTimewait? && e.x in old(tcbs) && e.x in old(timers.on))
      ensures Follows(e, handled, old(Seen()), Seen())
      ensures e.Tick? ==> Expires(old(timers.Seen()), old(clock), e.thresh, handled, cut)
    {
      hide RtoWheel.TimerStore.Valid, Queue.Ok, Moment.One, Moment.ControlPass, Moment.AckPass, Moment.DataPass, Moment.AllExpired, Expires;
      ok, handled, cut := true, [], false;
      match e
      case DispatchControl(limit) =>
        var _, _, _, _ := SendControlList(limit);
      case DispatchAck(limit) =>
        var _, _, _ := SendAckList(limit);
      case DispatchData(limit) =>
        var _, _, _, _ := SendDataList(limit);
      case World(more) => world := world + more;
      case Time(now) => clock := now;
      case Tick(thresh) =>
        handled, cut := OnTick(thresh);
      case Create(x, tcb) =>
        if x !in tcbs && tcb.state.LISTEN? {
          tcbs := tcbs[x := tcb];
        }
      case _ =>
        if e.x in tcbs {
          ok := StepOne(e);
        }
    }

    /** An event of one connection; false exactly where entering timewait fails its assertion. */
    method StepOne(e: Event) returns (ok: bool)
      requires Valid() && e.One() && e.x in tcbs
      modifies this, timers
      ensures Valid() && (!ok <==> e.EnterTimewait? && e.x in old(timers.on))
      ensures Seen() == old(Seen()).One(e)
    {
      hide RtoWheel.TimerStore.Valid, Queue.Ok;
      ok := true;
      var x := e.x;
      if e.Become? {
        if Moves(tcbs[x].state, e.tcb.state) {
          tcbs := tcbs[x := e.tcb];
        }
      } else if e.Establish? {
        if tcbs[x].state.SYN_RECEIVED? {
          OnEstablished(x, e.timed);
        }
      } else if e.WantControl? {
        AddControl(x, false);
      } else if e.WantSend? {
        AddSend(x);
      } else if e.WantAck? {
        EnqueueAck(x, e.opt);
      } else if e.Destroy? {
        Release(x);
      } else if e.Idle? {
        if x in timeout.flags {
          OnIdle(x, e.socket);
        }
      } else {
        ok := StepTimer(e);
      }
    }

    method StepTimer(e: Event) returns (ok: bool)
      requires Valid() && (e.Disarm? || e.Rearm? || e.EnterTimewait? || e.Timewaited?) && e.x in tcbs
      modifies this, timers
      ensures Valid() && (!ok <==> e.EnterTimewait? && e.x in old(timers.on))
      ensures Seen() == old(Seen()).One(e)
    {
      hide RtoWheel.TimerStore.Valid, Queue.Ok;
      ok := true;
      match e
      case Disarm(x) => timers.Disarm(x);
      case Rearm(x, outstanding) =>
        timers.Disarm(x);
        if outstanding {
          Arm(x, false);
        }
      case EnterTimewait(x) => ok := timers.AddTimewait(x);
      case Timewaited(x) =>
        if x in timers.onTimewait {
          OnTimewaited(x);
        }
    }
  }
}
