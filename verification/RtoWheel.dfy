/**
 The retransmission timer wheel (src/usnet/timer.c:156-207, 361-421, 501-523) and the timewait
 list that shares its link.

 The wheel has 3000 slots of one clock tick each and an overflow bucket.  `nowTs` is the tick the
 slot `nowIdx` stands for; ghost `now` is the same tick without wrap-around.
 */
module RtoWheel {
  import opened Words
  import opened SeqNum
  import opened Lists

  const RTO_HASH: nat := 3000

  // ----- which list each connection is on

  ghost predicate Holds(slots: seq<seq<Id>>, on: map<Id, nat>, k: int)
    requires 0 <= k < |slots|
  {
    NoDup(slots[k]) && forall x <- slots[k] :: x in on && on[x] == k
  }

  /** Every connection with an index is on exactly that list, once, and on no other. */
  ghost predicate Placed(slots: seq<seq<Id>>, on: map<Id, nat>)
  {
    && |slots| == RTO_HASH + 1
    && (forall k {:trigger Holds(slots, on, k)} | 0 <= k < |slots| :: Holds(slots, on, k))
    && (forall x <- on :: on[x] <= RTO_HASH && x in slots[on[x]])
  }

  function Total(slots: seq<seq<Id>>): nat
  {
    if slots == [] then 0 else |slots[0]| + Total(slots[1..])
  }

  lemma {:induction false} TotalUpdate(slots: seq<seq<Id>>, k: nat, l: seq<Id>)
    requires k < |slots|
    ensures Total(slots[k := l]) == Total(slots) - |slots[k]| + |l|
    ensures |slots[k]| <= Total(slots)
  {
    if k == 0 {
      assert slots[0 := l][1..] == slots[1..];
    } else {
      assert slots[k := l][1..] == slots[1..][k - 1 := l];
      TotalUpdate(slots[1..], k - 1, l);
    }
  }

  lemma EmptyWheel(slots: seq<seq<Id>>, on: map<Id, nat>)
    requires Placed(slots, on) && Total(slots) == 0
    ensures on == map[]
  {
    if x :| x in on {
      TotalUpdate(slots, on[x], []);
    }
  }

  lemma Insert(slots: seq<seq<Id>>, on: map<Id, nat>, x: Id, k: nat)
    requires Placed(slots, on) && x !in on && k <= RTO_HASH
    ensures Placed(slots[k := slots[k] + [x]], on[x := k])
    ensures Total(slots[k := slots[k] + [x]]) == Total(slots) + 1
  {
    var slots', on' := slots[k := slots[k] + [x]], on[x := k];
    TotalUpdate(slots, k, slots[k] + [x]);
    forall m | 0 <= m < |slots'|
      ensures Holds(slots', on', m)
    {
      assert Holds(slots, on, m);
      if m == k {
        NoDupSnoc(slots[k], x);
      }
    }
  }

  lemma Delete(slots: seq<seq<Id>>, on: map<Id, nat>, x: Id)
    requires Placed(slots, on) && x in on
    ensures var k := on[x];
            && Placed(slots[k := Remove(slots[k], x)], on - {x})
            && Total(slots[k := Remove(slots[k], x)]) == Total(slots) - 1
  {
    var k := on[x];
    var slots', on' := slots[k := Remove(slots[k], x)], on - {x};
    assert Holds(slots, on, k);
    RemoveExact(slots[k], x);
    TotalUpdate(slots, k, Remove(slots[k], x));
    forall m | 0 <= m < |slots'|
      ensures Holds(slots', on', m)
    {
      assert Holds(slots, on, m);
    }
  }

  // ----- when each slot comes round

  /** The slot that will be current `ahead` ticks from now. */
  function SlotAt(nowIdx: nat, ahead: int): int
  {
    if nowIdx + ahead < RTO_HASH then nowIdx + ahead else nowIdx + ahead - RTO_HASH
  }

  /** Every entry of the wheel proper sits in the slot that will be current at its due tick. */
  ghost predicate OnTime(on: map<Id, nat>, nowIdx: nat, now: int, due: map<Id, int>)
  {
    forall x <- on :: on[x] < RTO_HASH ==>
      && x in due && now <= due[x] < now + RTO_HASH
      && on[x] == SlotAt(nowIdx, due[x] - now)
  }

  /** The slot usnet_add_rto_list computes, in 32-bit unsigned arithmetic. */
  function SlotFor(diff: int, nowIdx: nat): (k: nat)
    ensures k < RTO_HASH
  {
    Wrap32(diff + nowIdx) % RTO_HASH
  }

  /** The tick at which slot `k` is current next. */
  function DueOf(k: nat, nowIdx: nat, now: int): int
  {
    now + (k - nowIdx) % RTO_HASH
  }

  /** An entry is never put in an earlier slot than its deadline's, and in exactly that one iff the deadline is not past. */
  lemma SlotIsNotEarly(diff: int, nowIdx: nat, now: int)
    requires -0x8000_0000 <= diff < RTO_HASH && nowIdx < RTO_HASH
    ensures var due := DueOf(SlotFor(diff, nowIdx), nowIdx, now);
            && now <= due < now + RTO_HASH && now + diff <= due
            && (due == now + diff <==> diff >= 0)
            && SlotFor(diff, nowIdx) == SlotAt(nowIdx, due - now)
  {
    if diff >= 0 {
      assert SlotFor(diff, nowIdx) == (diff + nowIdx) % RTO_HASH;
    }
  }

  lemma NextTick(on: map<Id, nat>, nowIdx: nat, now: int, due: map<Id, int>)
    requires nowIdx < RTO_HASH && OnTime(on, nowIdx, now, due) && forall x <- on :: on[x] != nowIdx
    ensures OnTime(on, (nowIdx + 1) % RTO_HASH, now + 1, due)
  {
    forall x <- on | on[x] < RTO_HASH
      ensures now + 1 <= due[x] && on[x] == SlotAt((nowIdx + 1) % RTO_HASH, due[x] - (now + 1))
    {
      assert due[x] != now;
    }
  }

  /** The tick a 32-bit time stands for, seen from the wheel: the nearest one to `now`. */
  function Reading(ts: u32, nowTs: u32, now: int): int
  {
    now + Signed32(Wrap32(ts - nowTs))
  }

  /** A tick less than half the clock's range away is read right. */
  lemma ReadingIsTime(d: int, now: int)
    requires Near(d, now)
    ensures Reading(Wrap32(d), Wrap32(now), now) == d
  {
    WrapDifference(d, now);
  }

  lemma ReadingFits(ts: u32, now: int)
    ensures Wrap32(Reading(ts, Wrap32(now), now)) == ts && -0x8000_0000 <= Reading(ts, Wrap32(now), now) - now < 0x8000_0000
  {
  }

  /**
   The opposite sign at src/usnet/timer.c:512: an overflow entry that is `a` ticks ahead when it is
   rearranged comes up before its deadline exactly under the stated condition on `a` and the slot.
   */
  lemma RearrangedEarlyIff(a: int, nowIdx: nat, now: int)
    requires 0 < a < 0x8000_0000 && nowIdx < RTO_HASH
    ensures DueOf(SlotFor(-a, nowIdx), nowIdx, now) < now + a <==>
            if a <= nowIdx then a > 1500 else if a <= 2296 then a > 1148 else a > 2648
  {
    var w: int := Wrap32(-a + nowIdx);
    SlotDistance(w, nowIdx);
    if a <= nowIdx {
      Fits32(nowIdx - a);
      assert DueOf(SlotFor(-a, nowIdx), nowIdx, now) == now + (3000 - a);
    } else {
      Fits32(0x1_0000_0000 - a + nowIdx);
      assert w == 0x1_0000_0000 - a + nowIdx;
      assert (0x1_0000_0000 - a) % 3000 == (2296 - a) % 3000;
    }
  }

  lemma SlotDistance(w: int, nowIdx: int)
    ensures ((w % 3000) - nowIdx) % 3000 == (w - nowIdx) % 3000
  {
  }

  /** One that is not ahead is late, as it already was. */
  lemma RearrangedLate(a: int, nowIdx: nat, now: int)
    requires -3000 < a <= 0 && nowIdx < RTO_HASH
    ensures DueOf(SlotFor(-a, nowIdx), nowIdx, now) == now - a >= now + a
  {
    assert SlotFor(-a, nowIdx) == (nowIdx - a) % RTO_HASH;
  }

  /** For instance: armed for tick 3100 at tick 0 and rearranged at tick 1000, an entry comes up at tick 1196. */
  lemma RearrangedEntryMayBeEarly()
    ensures 3100 >= RTO_HASH && DueOf(SlotFor(1000 - 3100, 1000), 1000, 1000) == 1196
  {
    assert Wrap32(1000 - 3100 + 1000) == 4294966196;
  }

  /** The tick each wheel entry comes up, the deadline it was armed for, and who went to the overflow bucket. */
  datatype Plan = Plan(due: map<Id, int>, deadline: map<Id, int>, spilled: set<Id>) {
    function Put(x: Id, k: nat, d: int, u: int): Plan {
      Plan(due[x := u], deadline[x := d], if k < RTO_HASH then spilled - {x} else spilled + {x})
    }
  }

  /** Deadlines and due ticks of the armed connections; only a spilled one can be off the wheel or early. */
  ghost predicate Timed(on: map<Id, nat>, nowIdx: nat, now: int, plan: Plan)
  {
    && OnTime(on, nowIdx, now, plan.due)
    && (forall x <- on :: x in plan.deadline &&
          (x !in plan.spilled ==> on[x] < RTO_HASH && plan.deadline[x] <= plan.due[x]))
  }

  lemma PutTimed(on: map<Id, nat>, nowIdx: nat, now: int, plan: Plan, x: Id, k: nat, d: int, u: int)
    requires Timed(on, nowIdx, now, plan)
    requires k < RTO_HASH ==> now <= u < now + RTO_HASH && k == SlotAt(nowIdx, u - now) && d <= u
    ensures Timed(on[x := k], nowIdx, now, plan.Put(x, k, d, u))
  {
  }

  lemma DropTimed(on: map<Id, nat>, nowIdx: nat, now: int, plan: Plan, x: Id)
    requires Timed(on, nowIdx, now, plan)
    ensures Timed(on - {x}, nowIdx, now, plan)
  {
  }

  /** The timewait list, its flags and its counter agree, and no member of it is armed. */
  ghost predicate Parked(timewait: seq<Id>, onTimewait: set<Id>, count: int, on: map<Id, nat>)
  {
    && NoDup(timewait) && count == |timewait|
    && (forall x :: x in timewait <==> x in onTimewait)
    && on.Keys !! onTimewait
  }

  /** What a check in progress has done so far, of the connections that were on the wheel proper. */
  ghost predicate Progress(on0: map<Id, nat>, plan0: Plan, on: map<Id, nat>, plan: Plan, handled: seq<Id>, cur: int)
  {
    && plan.deadline == plan0.deadline && plan.spilled == plan0.spilled
    && NoDup(handled) && (forall x <- handled :: x in on0) && on.Keys == on0.Keys - (set x <- handled)
    && (forall x <- handled | on0[x] < RTO_HASH :: x in plan0.due && plan0.due[x] <= cur)
    && (forall x <- on | on0[x] < RTO_HASH ::
          on[x] == on0[x] && x in plan.due && x in plan0.due && plan.due[x] == plan0.due[x])
  }

  lemma ProgressNone(on: map<Id, nat>, plan: Plan, nowIdx: nat, now: int, cur: int)
    requires Timed(on, nowIdx, now, plan)
    ensures Progress(on, plan, on, plan, [], cur)
  {
  }

  lemma ProgressHandled(on0: map<Id, nat>, plan0: Plan, on: map<Id, nat>, plan: Plan, handled: seq<Id>, cur: int,
                        some: seq<Id>, nowIdx: nat, now: int)
    requires Progress(on0, plan0, on, plan, handled, cur) && Timed(on, nowIdx, now, plan) && now <= cur
    requires nowIdx < RTO_HASH && NoDup(some) && forall x <- some :: x in on && on[x] == nowIdx
    ensures Progress(on0, plan0, on - (set x <- some), plan, handled + some, cur)
  {
    NoDupConcat(handled, some);
  }

  /** Every list but the overflow bucket is as it was. */
  ghost predicate Undisturbed(on: map<Id, nat>, plan: Plan, on': map<Id, nat>, plan': Plan)
  {
    && on'.Keys == on.Keys && plan'.deadline == plan.deadline && plan'.spilled == plan.spilled
    && forall x <- on | on[x] < RTO_HASH && x in plan.due :: on'[x] == on[x] && x in plan'.due && plan'.due[x] == plan.due[x]
  }

  lemma ProgressTurned(on0: map<Id, nat>, plan0: Plan, on: map<Id, nat>, plan: Plan, handled: seq<Id>, cur: int,
                       on': map<Id, nat>, plan': Plan, nowIdx: nat, now: int)
    requires Progress(on0, plan0, on, plan, handled, cur) && Undisturbed(on, plan, on', plan')
    requires Timed(on, nowIdx, now, plan)
    ensures Progress(on0, plan0, on', plan', handled, cur)
  {
  }

  /** A check that ran to the end handled exactly what was due. */
  lemma ProgressDone(on0: map<Id, nat>, plan0: Plan, on: map<Id, nat>, plan: Plan, handled: seq<Id>, cur: int,
                     nowIdx: nat, now: int)
    requires Progress(on0, plan0, on, plan, handled, cur) && Timed(on, nowIdx, now, plan) && cur < now
    ensures forall x <- on0 | on0[x] < RTO_HASH :: x in handled <==> x in plan0.due && plan0.due[x] <= cur
  {
  }

  // ----- a run of the timers, as a log

  /**
   What a run did: an arming with the deadline it was for and the tick it comes up, an arming taken
   back, a connection handled at a clock, and a check at a clock that was not cut short.
   */
  datatype Note =
    | Armed(x: Id, deadline: int, due: int, spilled: bool)
    | Cleared(x: Id)
    | Handled(x: Id, cur: int)
    | Passed(cur: int)

  /** The arming of `x` still in force. */
  ghost function Standing(log: seq<Note>, x: Id): Option<Note>
  {
    if log == [] then None
    else
      var n := log[|log| - 1];
      if !n.Passed? && n.x == x then (if n.Armed? then Some(n) else None) else Standing(log[..|log| - 1], x)
  }

  /** An arming that never went through the overflow bucket. */
  predicate Direct(a: Option<Note>) { a.Some? && a.value.Armed? && !a.value.spilled }

  /**
   The law of the deadline, for the next entry of a log.  A connection is handled only while an
   arming is in force, and one that never went through the overflow bucket not before its deadline
   and its due tick; and when a check passed a clock, no such arming due by then was left.
   */
  ghost predicate Allowed(past: seq<Note>, n: Note)
  {
    if n.Armed? then Standing(past, n.x) == None && (!n.spilled ==> n.deadline <= n.due)
    else if n.Handled? then
      Standing(past, n.x).Some? &&
      (Direct(Standing(past, n.x)) ==> Standing(past, n.x).value.deadline <= Standing(past, n.x).value.due <= n.cur)
    else if n.Passed? then forall x: Id :: Direct(Standing(past, x)) ==> n.cur < Standing(past, x).value.due
    else true
  }

  ghost predicate Lawful(log: seq<Note>)
  {
    log != [] ==> Lawful(log[..|log| - 1]) && Allowed(log[..|log| - 1], log[|log| - 1])
  }

  /** The armings in force are those of the wheel. */
  ghost predicate Follows(log: seq<Note>, on: map<Id, nat>, plan: Plan)
  {
    && (forall x :: x in on <==> Standing(log, x).Some?)
    && (forall x <- on :: Direct(Standing(log, x)) <==> x !in plan.spilled)
    && (forall x <- on | x !in plan.spilled :: x in plan.deadline && x in plan.due
          && Standing(log, x) == Some(Armed(x, plan.deadline[x], plan.due[x], false)))
  }

  lemma StandingSnoc(log: seq<Note>, n: Note, x: Id)
    ensures Standing(log + [n], x) == if !n.Passed? && n.x == x then (if n.Armed? then Some(n) else None) else Standing(log, x)
  {
    assert (log + [n])[..|log|] == log;
  }

  lemma LawfulSnoc(log: seq<Note>, n: Note)
    ensures Lawful(log + [n]) <==> Lawful(log) && Allowed(log, n)
  {
    assert (log + [n])[..|log|] == log;
  }

  /** Hence the law holds at every entry of the log of a run. */
  lemma {:induction false} LawfulAt(log: seq<Note>, j: nat)
    requires Lawful(log) && j < |log|
    ensures Allowed(log[..j], log[j])
  {
    if j < |log| - 1 {
      LawfulAt(log[..|log| - 1], j);
      assert log[..|log| - 1][..j] == log[..j];
    }
  }

  lemma LogArm(log: seq<Note>, on: map<Id, nat>, plan: Plan, x: Id, k: nat, d: int, u: int)
    requires Lawful(log) && Follows(log, on, plan) && x !in on && (k < RTO_HASH ==> d <= u)
    ensures Lawful(log + [Armed(x, d, u, k >= RTO_HASH)]) && Follows(log + [Armed(x, d, u, k >= RTO_HASH)], on[x := k], plan.Put(x, k, d, u))
  {
    hide Lawful, Standing;
    var n := Armed(x, d, u, k >= RTO_HASH);
    LawfulSnoc(log, n);
    forall y ensures Standing(log + [n], y) == if y == x then Some(n) else Standing(log, y) { StandingSnoc(log, n, y); }
  }

  lemma LogClear(log: seq<Note>, on: map<Id, nat>, plan: Plan, x: Id)
    requires Lawful(log) && Follows(log, on, plan)
    ensures Lawful(log + [Cleared(x)]) && Follows(log + [Cleared(x)], on - {x}, plan)
  {
    LawfulSnoc(log, Cleared(x));
    forall y ensures Standing(log + [Cleared(x)], y) == if y == x then None else Standing(log, y) { StandingSnoc(log, Cleared(x), y); }
  }

  ghost function HandledAll(handled: seq<Id>, cur: int): seq<Note>
  {
    seq(|handled|, i requires 0 <= i < |handled| => Handled(handled[i], cur))
  }

  /** An entry that never spilled may be handled at `cur`. */
  ghost predicate MayHandle(plan: Plan, x: Id, cur: int)
  {
    x !in plan.spilled ==> x in plan.due && x in plan.deadline && plan.deadline[x] <= plan.due[x] <= cur
  }

  /** The log of a check so far: those handled were all standing and, unless spilled, due. */
  lemma {:induction false} LogHandled(log: seq<Note>, on: map<Id, nat>, plan: Plan, handled: seq<Id>, cur: int)
    requires Lawful(log) && Follows(log, on, plan)
    requires NoDup(handled) && forall i | 0 <= i < |handled| :: handled[i] in on && MayHandle(plan, handled[i], cur)
    ensures Lawful(log + HandledAll(handled, cur)) && Follows(log + HandledAll(handled, cur), on - (set x <- handled), plan)
  {
    hide Lawful, Follows, MayHandle;
    if handled == [] {
      assert log + HandledAll(handled, cur) == log;
      assert on - (set x <- handled) == on;
    } else {
      var n := |handled| - 1;
      var before, x := handled[..n], handled[n];
      forall i, j | 0 <= i < j < |before| ensures Apart(before, i, j) { assert Apart(handled, i, j); }
      forall i | 0 <= i < n ensures before[i] != x { assert Apart(handled, i, n); }
      LogHandled(log, on, plan, before, cur);
      var mid, on1 := log + HandledAll(before, cur), on - (set y <- before);
      assert log + HandledAll(handled, cur) == mid + [Handled(x, cur)];
      LogHandle(mid, on1, plan, x, cur);
      assert handled == before + [x];
      assert on - (set y <- handled) == on1 - {x};
    }
  }

  lemma LogHandle(log: seq<Note>, on: map<Id, nat>, plan: Plan, x: Id, cur: int)
    requires Lawful(log) && Follows(log, on, plan) && x in on && MayHandle(plan, x, cur)
    ensures Lawful(log + [Handled(x, cur)]) && Follows(log + [Handled(x, cur)], on - {x}, plan)
  {
    var n := Handled(x, cur);
    LawfulSnoc(log, n);
    forall y ensures Standing(log + [n], y) == if y == x then None else Standing(log, y) { StandingSnoc(log, n, y); }
  }

  /** A whole check: what it handled, and that it passed its clock if nothing cut it short. */
  lemma LogCheck(log: seq<Note>, on0: map<Id, nat>, plan0: Plan, nowIdx0: nat, now0: int,
                 on: map<Id, nat>, plan: Plan, nowIdx: nat, now: int, handled: seq<Id>, cur: int, cut: bool)
    requires Lawful(log) && Follows(log, on0, plan0) && Timed(on0, nowIdx0, now0, plan0)
    requires Progress(on0, plan0, on, plan, handled, cur) && Timed(on, nowIdx, now, plan)
    requires !cut ==> on == map[] || cur < now
    ensures var log' := log + HandledAll(handled, cur) + if cut then [] else [Passed(cur)];
            Lawful(log') && Follows(log', on, plan)
  {
    LogHandled(log, on0, plan0, handled, cur);
    var mid := log + HandledAll(handled, cur);
    assert Follows(mid, on, plan);
    if cut {
      assert mid + [] == mid;
    } else {
      LawfulSnoc(mid, Passed(cur));
      forall y ensures Standing(mid + [Passed(cur)], y) == Standing(mid, y) { StandingSnoc(mid, Passed(cur), y); }
    }
  }

  /** What happens to the timers of a stack. */
  datatype Event =
    | Arm(x: Id, ts: u32)
    | Rewrite(x: Id, ts: u32)
    | Disarmed(x: Id)
    | Tick(cur: u32, thresh: int)
    | EnterTimewait(x: Id)
    | LeaveTimewait(x: Id)

  /** The timers at one moment. */
  datatype Moment = Moment(on: map<Id, nat>, plan: Plan, timewait: set<Id>, nowTs: u32, now: int)

  /** What one event added to the log; for a tick, whom it handled and whether it was cut short. */
  datatype Report = Report(notes: seq<Note>, handled: seq<Id>, cut: bool)

  /** The note of arming `x`: its deadline is what `ts_rto` reads, and its tick as `Add` promises. */
  ghost predicate NotesArming(x: Id, ts: u32, s: Moment, s': Moment, n: Note)
  {
    var d := Reading(ts, s.nowTs, s.now);
    && x in s'.on && s'.on.Keys == s.on.Keys + {x}
    && n.Armed? && n.x == x && n.deadline == d && (n.spilled <==> d - s'.now >= RTO_HASH)
    && (!n.spilled ==> d <= n.due && (n.due == d <==> s'.now <= d) && x in s'.plan.due && n.due == s'.plan.due[x])
  }

  /** The notes of a tick: one for each connection it took off the wheel, and one for having passed its clock. */
  ghost predicate NotesTick(cur: u32, thresh: int, s: Moment, s': Moment, r: Report)
  {
    var c := Reading(cur, s.nowTs, s.now);
    && r.notes == HandledAll(r.handled, c) + (if r.cut then [] else [Passed(c)])
    && s'.on.Keys == s.on.Keys - (set x <- r.handled) && (forall x <- r.handled :: x in s.on)
    && (r.cut ==> |r.handled| >= thresh)
  }

  /** The report says what the event did, no more and no less. */
  ghost predicate Tells(e: Event, s: Moment, s': Moment, r: Report)
  {
    if e.Tick? then NotesTick(e.cur, e.thresh, s, s', r)
    else if e.Arm? && e.x !in s.on && e.x !in s.timewait then |r.notes| == 1 && NotesArming(e.x, e.ts, s, s', r.notes[0])
    else if e.Disarmed? || e.EnterTimewait? then
      r.notes == (if e.x in s.on then [Cleared(e.x)] else []) && s'.on == s.on - {e.x}
    else r.notes == [] && s'.on == s.on
  }

  /** All notes of a run. */
  ghost function Log(reports: seq<Report>): seq<Note>
  {
    if reports == [] then [] else Log(reports[..|reports| - 1]) + reports[|reports| - 1].notes
  }

  lemma NoLog(plan: Plan)
    ensures Log([]) == [] && Lawful([]) && Follows([], map[], plan)
  {
  }

  lemma LogSnoc(reports: seq<Report>, r: Report)
    ensures Log(reports + [r]) == Log(reports) + r.notes
  {
    assert (reports + [r])[..|reports|] == reports;
  }

  class TimerStore {
    var slots: seq<seq<Id>>
    var on: map<Id, nat>
    var nowIdx: nat
    var nowTs: u32
    var count: int
    var tsRto: map<Id, u32>

    var timewait: seq<Id>
    var onTimewait: set<Id>
    var timewaitCount: int

    /** The tick of `nowTs`, and what is known of the armed connections. */
    ghost var now: int
    ghost var plan: Plan

    /** Both lists thread through the same link, so no connection is on both. */
    ghost predicate Valid()
      reads this
    {
      && Placed(slots, on) && count == Total(slots)
      && nowIdx < RTO_HASH && nowTs == Wrap32(now)
      && Timed(on, nowIdx, now, plan)
      && on.Keys <= tsRto.Keys
      && Parked(timewait, onTimewait, timewaitCount, on)
    }

    /** usnet_rtohash_init (src/usnet/timer.c:41-59) with an empty timewait list. */
    constructor ()
      ensures Valid() && on == map[] && onTimewait == {}
    {
      slots, on := seq(RTO_HASH + 1, _ => []), map[];
      nowIdx, nowTs, count, tsRto := 0, 0, 0, map[];
      timewait, onTimewait, timewaitCount := [], {}, 0;
      now, plan := 0, Plan(map[], map[], {});
      new;
      EmptySlots(RTO_HASH + 1, slots);
      forall k | 0 <= k < |slots| ensures Holds(slots, on, k) { }
    }

    /** A connection goes on list `k`, to come up at tick `u` (src/usnet/timer.c:181-189). */
    method Put(x: Id, k: nat, ghost d: int, ghost u: int)
      requires Valid() && x !in on && x !in onTimewait && x in tsRto && k <= RTO_HASH
      requires k < RTO_HASH ==> now <= u < now + RTO_HASH && k == SlotAt(nowIdx, u - now) && d <= u
      modifies `slots, `on, `count, `plan
      ensures Valid() && on == old(on)[x := k] && count == old(count) + 1
      ensures plan == old(plan).Put(x, k, d, u)
    {
      Insert(slots, on, x, k);
      PutTimed(on, nowIdx, now, plan, x, k, d, u);
      slots, on, count := slots[k := slots[k] + [x]], on[x := k], count + 1;
      plan := plan.Put(x, k, d, u);
    }

    /** `sndvar->ts_rto = ...`, which the source also does for a connection that is armed. */
    method Restamp(x: Id, ts: u32)
      requires Valid()
      modifies `tsRto
      ensures Valid() && tsRto == old(tsRto)[x := ts]
    {
      tsRto := tsRto[x := ts];
    }

    /**
     usnet_add_rto_list.  A connection already armed, or in timewait, is left alone; any other comes
     up no earlier than its deadline, and exactly then if and only if that is not behind the wheel;
     only a deadline a whole wheel ahead goes to the overflow.  The wheel is reset only when it is
     empty, and what is known of every other connection stays as it was.
     */
    method Add(x: Id)
      requires Valid() && x in tsRto
      modifies `slots, `on, `count, `plan, `nowIdx, `nowTs, `now
      ensures Valid()
      ensures old(count) > 0 ==> now == old(now) && nowIdx == old(nowIdx) && nowTs == old(nowTs)
      ensures old(count) == 0 ==> old(on) == map[] && now == old(Reading(tsRto[x], nowTs, now))
      ensures x in old(on) || x in onTimewait ==> on == old(on) && count == old(count) && plan == old(plan)
      ensures x !in old(on) && x !in onTimewait ==>
                && x in on && on == old(on)[x := on[x]] && count == old(count) + 1
                && var d := old(Reading(tsRto[x], nowTs, now));
                && x in plan.due && plan == old(plan).Put(x, on[x], d, plan.due[x])
                && (x in plan.spilled <==> d - now >= RTO_HASH) && (x in plan.spilled <==> on[x] == RTO_HASH)
                && (x !in plan.spilled ==> d <= plan.due[x] && (plan.due[x] == d <==> now <= d))
    {
      ghost var d := Reading(tsRto[x], nowTs, now);
      ReadingFits(tsRto[x], now);
      if count == 0 {
        EmptyWheel(slots, on);
        nowIdx, nowTs := 0, tsRto[x];
        now := d;
      }
      if x in on || x in onTimewait {
        return;
      }
      var diff := Signed32(Wrap32(tsRto[x] as int - nowTs as int));
      assert diff == d - now;
      if diff < RTO_HASH {
        SlotIsNotEarly(diff, nowIdx, now);
        Put(x, SlotFor(diff, nowIdx), d, DueOf(SlotFor(diff, nowIdx), nowIdx, now));
      } else {
        Put(x, RTO_HASH, d, d);
      }
    }

    /** usnet_remove_rto_list. */
    method Disarm(x: Id)
      requires Valid()
      modifies `slots, `on, `count
      ensures Valid() && on == old(on) - {x} && count == old(count) - (if x in old(on) then 1 else 0)
    {
      if x in on {
        Delete(slots, on, x);
        DropTimed(on, nowIdx, now, plan, x);
        var k := on[x];
        slots, on, count := slots[k := Remove(slots[k], x)], on - {x}, count - 1;
      }
    }

    /**
     One slot of usnet_check_rtm_timeout (src/usnet/timer.c:382-403): its entries are handled in
     order until `thresh` is passed; the arm for an entry that is not armed is never taken.
     */
    method HandleSlot(thresh: int, visited: int) returns (handled: seq<Id>, cnt: int)
      requires Valid()
      modifies `slots, `on, `count
      ensures Valid() && cnt >= visited
      ensures on == old(on) - (set x <- handled) && NoDup(handled)
      ensures forall x <- handled :: x in old(on) && old(on)[x] == nowIdx
      ensures cnt <= thresh ==> forall x <- on :: on[x] != nowIdx
      ensures visited + |handled| <= cnt <= visited + |handled| + 1
      ensures cnt <= thresh ==> cnt == visited + |handled|
    {
      hide OnTime, Parked;
      handled, cnt := [], visited;
      while slots[nowIdx] != []
        invariant Valid() && cnt == visited + |handled|
        invariant on == old(on) - (set x <- handled) && NoDup(handled)
        invariant forall x <- handled :: x in old(on) && old(on)[x] == nowIdx
        decreases count
      {
        cnt := cnt + 1;
        if cnt > thresh {
          return;
        }
        var x := slots[nowIdx][0];
        assert x in on && on[x] == nowIdx by { assert Holds(slots, on, nowIdx); }
        NoDupSnoc(handled, x);
        Disarm(x);
        handled := handled + [x];
      }
    }

    method Move(x: Id, k: nat)
      requires Valid() && x in on && on[x] == RTO_HASH && k < RTO_HASH
      modifies `slots, `on, `plan
      ensures Valid() && on == old(on)[x := k]
      ensures plan == old(plan).(due := old(plan).due[x := DueOf(k, nowIdx, now)])
    {
      Transfer(slots, on, x, k);
      MoveTimed(on, nowIdx, now, plan, x, k);
      slots := slots[RTO_HASH := Remove(slots[RTO_HASH], x)];
      slots := slots[k := slots[k] + [x]];
      on, plan := on[x := k], plan.(due := plan.due[x := DueOf(k, nowIdx, now)]);
    }

    /** Where the rearrangement puts an overflow entry, with the sign of src/usnet/timer.c:512. */
    function Goal(x: Id): (k: nat)
      requires x in tsRto
      reads `tsRto, `nowTs, `nowIdx
      ensures k <= RTO_HASH
    {
      var diff := Signed32(Wrap32(nowTs as int - tsRto[x] as int));
      if diff < RTO_HASH then SlotFor(diff, nowIdx) else RTO_HASH
    }

    /** usnet_rearrange_rto_store: every overflow entry goes to its goal; nothing else moves. */
    method Rearrange()
      requires Valid()
      modifies `slots, `on, `plan
      ensures Valid() && Undisturbed(old(on), old(plan), on, plan)
      ensures forall x <- on | old(on)[x] == RTO_HASH :: Lands(on, plan, nowIdx, now, x, Goal(x))
    {
      ghost var goal := map x <- tsRto :: Goal(x);
      ArrangeStart(slots, goal, on, plan, nowIdx, now);
      var list := slots[RTO_HASH];
      hide Placed, Timed, Parked, SlotFor, DueOf, Arranged, Goal, Undisturbed, Wrap32;
      for i := 0 to |list|
        invariant Valid() && Arranged(list, i, goal, old(on), old(plan), on, plan, nowIdx, now)
      {
        Waiting(list, i, goal, old(on), old(plan), on, plan, nowIdx, now);
        ghost var on1, plan1 := on, plan;
        if Goal(list[i]) < RTO_HASH {
          Move(list[i], Goal(list[i]));
        }
        ArrangeStep(list, i, goal, old(on), old(plan), on1, plan1, on, plan, nowIdx, now);
      }
      ArrangeDone(list, goal, old(on), old(plan), on, plan, nowIdx, now);
    }

    /** A moved entry whose deadline, as its `ts_rto` reads, is ahead comes up early exactly under the stated condition. */
    lemma EarlyIff(x: Id, d: int)
      requires nowIdx < RTO_HASH && nowTs == Wrap32(now) && x in on && x in tsRto && Lands(on, plan, nowIdx, now, x, Goal(x))
      requires tsRto[x] == Wrap32(d) && now < d < now + 0x8000_0000
      ensures var a := d - now;
              x in plan.due && (plan.due[x] < d <==> if a <= nowIdx then a > 1500 else if a <= 2296 then a > 1148 else a > 2648)
    {
      hide DueOf, SlotFor, Wrap32;
      WrapDifference(now, d);
      SignedFits(now - d);
      RearrangedEarlyIff(d - now, nowIdx, now);
    }

    /**
     An entry the rearrangement has come to leaves the overflow bucket exactly if its `ts_rto` is not a
     whole wheel behind, and then comes up within the next turn of the wheel, where a check that is not
     cut short handles it; one that is not ahead comes up as much later as it was behind.
     */
    lemma LeavesOverflow(x: Id)
      requires nowIdx < RTO_HASH && x in tsRto && Lands(on, plan, nowIdx, now, x, Goal(x))
      ensures var behind := Signed32(Wrap32(nowTs as int - tsRto[x] as int));
              && (on[x] < RTO_HASH <==> behind < RTO_HASH)
              && (on[x] < RTO_HASH ==> x in plan.due && now <= plan.due[x] < now + RTO_HASH)
              && (0 <= behind < RTO_HASH ==> plan.due[x] == now + behind)
    {
      hide Wrap32, Signed32;
      var behind := Signed32(Wrap32(nowTs as int - tsRto[x] as int));
      if 0 <= behind < RTO_HASH {
        RearrangedLate(-behind, nowIdx, now);
      }
    }

    /** The wheel turns one tick once its current slot is empty (src/usnet/timer.c:408-412). */
    method Turn()
      requires Valid() && forall x <- on :: on[x] != nowIdx
      modifies `nowIdx, `nowTs, `now, `slots, `on, `plan
      ensures Valid() && now == old(now) + 1 && Undisturbed(old(on), old(plan), on, plan)
      ensures nowIdx == (old(nowIdx) + 1) % RTO_HASH
      ensures nowIdx % 1000 == 0 ==> forall x <- on | old(on)[x] == RTO_HASH :: Lands(on, plan, nowIdx, now, x, Goal(x))
    {
      NextTick(on, nowIdx, now, plan.due);
      WrapAdd(now, 1);
      nowIdx, nowTs := (nowIdx + 1) % RTO_HASH, Wrap32(nowTs + 1);
      now := now + 1;
      if nowIdx % 1000 == 0 {
        Rearrange();
      }
    }

    /**
     usnet_check_rtm_timeout at clock `curTs`, where handling releases nobody.  Of the connections on
     the wheel proper, none is handled before its due tick, none changes its slot, and unless `thresh`
     cut the check short exactly those due have been handled.
     */
    method Check(curTs: u32, thresh: int) returns (handled: seq<Id>, cut: bool, ghost cur: int)
      requires Valid()
      modifies `slots, `on, `count, `plan, `nowIdx, `nowTs, `now
      ensures Valid() && cur == old(Reading(curTs, nowTs, now)) && Progress(old(on), old(plan), on, plan, handled, cur)
      ensures !cut ==> on == map[] || cur < now
      ensures !cut ==> forall x <- old(on) | old(on)[x] < RTO_HASH :: x in handled <==> old(plan).due[x] <= cur
      ensures cut ==> |handled| >= thresh
    {
      hide Placed, Parked, OnTime, Progress, SeqLt, Wrap32;
      handled, cut := [], false;
      cur := Reading(curTs, nowTs, now);
      ProgressNone(on, plan, nowIdx, now, cur);
      ReadingFits(curTs, now);
      if count == 0 {
        EmptyWheel(slots, on);
        return;
      }
      var cnt := 0;
      while !SeqLt(curTs, nowTs)
        invariant Valid() && now - 0x8000_0000 <= cur < now + 0x8000_0000 && curTs == Wrap32(cur)
        invariant Progress(old(on), old(plan), on, plan, handled, cur)
        invariant cnt == |handled|
        decreases cur - now
      {
        BehindClock(cur, now);
        var some;
        ghost var on1, plan1 := on, plan;
        some, cnt := HandleSlot(thresh, cnt);
        ProgressHandled(old(on), old(plan), on1, plan1, handled, cur, some, nowIdx, now);
        handled := handled + some;
        if cnt > thresh {
          cut := true;
          return;
        }
        ghost var on2, idx2, now2 := on, nowIdx, now;
        Turn();
        ProgressTurned(old(on), old(plan), on2, plan1, handled, cur, on, plan, idx2, now2);
      }
      BehindClock(cur, now);
      ProgressDone(old(on), old(plan), on, plan, handled, cur, nowIdx, now);
    }

    /**
     usnet_add_timewait_list: to the tail of timewait, where a connection already there is moved and
     an armed one is first taken off the wheel; its assertion holds exactly if it was not armed.
     */
    method AddTimewait(x: Id) returns (ok: bool)
      requires Valid()
      modifies `slots, `on, `count, `timewait, `onTimewait, `timewaitCount
      ensures Valid() && (ok <==> x !in old(on)) && on == old(on) - {x}
      ensures onTimewait == old(onTimewait) + {x} && timewait == Remove(old(timewait), x) + [x]
    {
      ok := true;
      if x !in onTimewait {
        ok := x !in on;
        Disarm(x);
      }
      LinkTimewait(x);
    }

    method LinkTimewait(x: Id)
      requires Valid() && x !in on
      modifies `timewait, `onTimewait, `timewaitCount
      ensures Valid() && onTimewait == old(onTimewait) + {x} && timewait == Remove(old(timewait), x) + [x]
    {
      RemoveExact(timewait, x);
      NoDupSnoc(Remove(timewait, x), x);
      if x in onTimewait {
        timewait := Remove(timewait, x);
        timewait := timewait + [x];
      } else {
        NotPresent(timewait, x);
        onTimewait := onTimewait + {x};
        timewait := timewait + [x];
        timewaitCount := timewaitCount + 1;
      }
    }

    ghost function Seen(): Moment
      reads this
    {
      Moment(on, plan, onTimewait, nowTs, now)
    }

    /**
     One event and its report: arming sets `ts_rto` and links (src/usnet/tcp_out.c:351-356,
     src/usnet/timer.c:98-103); `ts_rto` of an armed connection may be overwritten at any time.
     */
    method Step(e: Event, ghost log: seq<Note>) returns (ghost r: Report)
      requires Valid() && Lawful(log) && Follows(log, on, plan)
      modifies this
      ensures Valid() && Tells(e, old(Seen()), Seen(), r)
      ensures Lawful(log + r.notes) && Follows(log + r.notes, on, plan)
    {
      hide Placed, Parked, Lawful, Follows, OnTime, NotesArming, NotesTick;
      r := Report([], [], false);
      assert log + [] == log;
      match e
      case Arm(x, ts) => r := StepArm(x, ts, log);
      case Rewrite(x, ts) => Restamp(x, ts);
      case Disarmed(x) =>
        if x in on {
          LogClear(log, on, plan, x);
          r := Report([Cleared(x)], [], false);
        }
        assert x !in on ==> on - {x} == on;
        Disarm(x);
      case Tick(cur, thresh) => r := StepTick(cur, thresh, log);
      case EnterTimewait(x) =>
        if x in on {
          LogClear(log, on, plan, x);
          r := Report([Cleared(x)], [], false);
        }
        assert x !in on ==> on - {x} == on;
        var _ := AddTimewait(x);
      case LeaveTimewait(x) =>
        if x in onTimewait {
          RemoveTimewait(x);
        }
    }

    method StepArm(x: Id, ts: u32, ghost log: seq<Note>) returns (ghost r: Report)
      requires Valid() && Lawful(log) && Follows(log, on, plan)
      modifies this
      ensures Valid() && Tells(Arm(x, ts), old(Seen()), Seen(), r)
      ensures Lawful(log + r.notes) && Follows(log + r.notes, on, plan)
    {
      hide Placed, Parked, Lawful, Follows, OnTime, Wrap32;
      ghost var on0, plan0 := on, plan;
      Restamp(x, ts);
      Add(x);
      r := Report([], [], false);
      assert log + [] == log;
      if x !in on0 && x !in onTimewait {
        LogArm(log, on0, plan0, x, on[x], plan.deadline[x], plan.due[x]);
        r := Report([Armed(x, plan.deadline[x], plan.due[x], on[x] >= RTO_HASH)], [], false);
      }
    }

    method StepTick(curTs: u32, thresh: int, ghost log: seq<Note>) returns (ghost r: Report)
      requires Valid() && Lawful(log) && Follows(log, on, plan)
      modifies this
      ensures Valid() && Tells(Tick(curTs, thresh), old(Seen()), Seen(), r)
      ensures Lawful(log + r.notes) && Follows(log + r.notes, on, plan)
    {
      hide Placed, Parked, Lawful, Follows, OnTime, Reading;
      ghost var on0, plan0, idx0, now0 := on, plan, nowIdx, now;
      var handled, cut, cur := Check(curTs, thresh);
      LogCheck(log, on0, plan0, idx0, now0, on, plan, nowIdx, now, handled, cur, cut);
      ghost var notes := HandledAll(handled, cur) + if cut then [] else [Passed(cur)];
      assert log + notes == log + HandledAll(handled, cur) + if cut then [] else [Passed(cur)];
      r := Report(notes, handled, cut);
    }

    /**
     Every run of arming, disarming, rewriting `ts_rto`, checking and timewait obeys the law of the
     deadline: in the log that its reports add up to, each telling exactly what its event did, an entry
     that never spilled is never handled before the deadline it was armed for, and has been handled once
     a check that was not cut short came to its due tick.
     */
    method Run(events: seq<Event>) returns (ghost reports: seq<Report>, ghost moments: seq<Moment>)
      requires Valid() && on == map[]
      modifies this
      ensures Valid() && |reports| == |events| && |moments| == |events| + 1
      ensures moments[0] == old(Seen()) && moments[|events|] == Seen()
      ensures forall i | 0 <= i < |events| :: Tells(events[i], moments[i], moments[i + 1], reports[i])
      ensures Lawful(Log(reports)) && Follows(Log(reports), on, plan)
    {
      hide Tells, Lawful, Follows, Seen, Log;
      reports, moments := [], [Seen()];
      NoLog(plan);
      for i := 0 to |events|
        invariant Valid() && |reports| == i && |moments| == i + 1 && moments[0] == old(Seen()) && moments[i] == Seen()
        invariant forall j | 0 <= j < i :: Tells(events[j], moments[j], moments[j + 1], reports[j])
        invariant Lawful(Log(reports)) && Follows(Log(reports), on, plan)
      {
        ghost var r := Step(events[i], Log(reports));
        LogSnoc(reports, r);
        reports, moments := reports + [r], moments + [Seen()];
      }
    }

    /** usnet_remove_timewait_list. */
    method RemoveTimewait(x: Id)
      requires Valid() && x in onTimewait
      modifies this`timewait, this`onTimewait, this`timewaitCount
      ensures Valid() && onTimewait == old(onTimewait) - {x} && timewait == Remove(old(timewait), x)
    {
      RemoveExact(timewait, x);
      timewait, onTimewait, timewaitCount := Remove(timewait, x), onTimewait - {x}, timewaitCount - 1;
    }
  }

  /** An entry is on list `k`, to come up when that is current. */
  ghost predicate Lands(on: map<Id, nat>, plan: Plan, nowIdx: nat, now: int, x: Id, k: nat)
  {
    x in on && on[x] == k && (k < RTO_HASH ==> x in plan.due && plan.due[x] == DueOf(k, nowIdx, now))
  }

  /** The rearrangement of the overflow entries `list` has come to entry `i`. */
  ghost predicate Arranged(list: seq<Id>, i: nat, goal: map<Id, nat>, on0: map<Id, nat>, plan0: Plan,
                           on: map<Id, nat>, plan: Plan, nowIdx: nat, now: int)
  {
    && i <= |list| && NoDup(list) && Undisturbed(on0, plan0, on, plan) && on0.Keys <= goal.Keys
    && (forall x <- on0 | on0[x] == RTO_HASH :: x in list)
    && (forall j | 0 <= j < |list| :: list[j] in on0 && on0[list[j]] == RTO_HASH)
    && (forall j | 0 <= j < i :: Lands(on, plan, nowIdx, now, list[j], goal[list[j]]))
    && (forall j | i <= j < |list| :: list[j] in on && on[list[j]] == RTO_HASH)
  }

  lemma ArrangeStart(slots: seq<seq<Id>>, goal: map<Id, nat>, on: map<Id, nat>, plan: Plan, nowIdx: nat, now: int)
    requires Placed(slots, on) && on.Keys <= goal.Keys
    ensures Arranged(slots[RTO_HASH], 0, goal, on, plan, on, plan, nowIdx, now)
  {
    assert Holds(slots, on, RTO_HASH);
  }

  lemma Waiting(list: seq<Id>, i: nat, goal: map<Id, nat>, on0: map<Id, nat>, plan0: Plan,
                on: map<Id, nat>, plan: Plan, nowIdx: nat, now: int)
    requires Arranged(list, i, goal, on0, plan0, on, plan, nowIdx, now) && i < |list|
    ensures list[i] in on && on[list[i]] == RTO_HASH && list[i] in goal
  {
  }

  lemma ArrangeStep(list: seq<Id>, i: nat, goal: map<Id, nat>, on0: map<Id, nat>, plan0: Plan,
                    on: map<Id, nat>, plan: Plan, on': map<Id, nat>, plan': Plan, nowIdx: nat, now: int)
    requires Arranged(list, i, goal, on0, plan0, on, plan, nowIdx, now) && i < |list| && goal[list[i]] <= RTO_HASH
    requires var x, k := list[i], goal[list[i]];
             if k < RTO_HASH then on' == on[x := k] && plan' == plan.(due := plan.due[x := DueOf(k, nowIdx, now)])
             else on' == on && plan' == plan
    ensures Arranged(list, i + 1, goal, on0, plan0, on', plan', nowIdx, now)
  {
    hide DueOf;
    forall j | 0 <= j < |list| && j != i
      ensures list[j] != list[i]
    {
      assert if i < j then Apart(list, i, j) else Apart(list, j, i);
    }
    forall j | 0 <= j < i
      ensures Lands(on', plan', nowIdx, now, list[j], goal[list[j]])
    {
      assert Lands(on, plan, nowIdx, now, list[j], goal[list[j]]);
    }
  }

  lemma ArrangeDone(list: seq<Id>, goal: map<Id, nat>, on0: map<Id, nat>, plan0: Plan,
                    on: map<Id, nat>, plan: Plan, nowIdx: nat, now: int)
    requires Arranged(list, |list|, goal, on0, plan0, on, plan, nowIdx, now)
    ensures Undisturbed(on0, plan0, on, plan)
    ensures forall x <- on | on0[x] == RTO_HASH :: x in goal && Lands(on, plan, nowIdx, now, x, goal[x])
  {
  }

  lemma BehindClock(cur: int, now: int)
    requires now - 0x8000_0000 <= cur < now + 0x8000_0000
    ensures SeqLt(Wrap32(cur), Wrap32(now)) <==> cur < now
  {
    WrapDifference(cur, now);
  }

  lemma MoveTimed(on: map<Id, nat>, nowIdx: nat, now: int, plan: Plan, x: Id, k: nat)
    requires Timed(on, nowIdx, now, plan) && x in on && on[x] == RTO_HASH && k < RTO_HASH && nowIdx < RTO_HASH
    ensures Timed(on[x := k], nowIdx, now, plan.(due := plan.due[x := DueOf(k, nowIdx, now)]))
  {
    assert k == SlotAt(nowIdx, DueOf(k, nowIdx, now) - now);
  }

  lemma Transfer(slots: seq<seq<Id>>, on: map<Id, nat>, x: Id, k: nat)
    requires Placed(slots, on) && x in on && k <= RTO_HASH && k != on[x]
    ensures var s1 := slots[on[x] := Remove(slots[on[x]], x)];
            var s2 := s1[k := s1[k] + [x]];
            Placed(s2, on[x := k]) && Total(s2) == Total(slots)
  {
    var s1 := slots[on[x] := Remove(slots[on[x]], x)];
    Delete(slots, on, x);
    Insert(s1, on - {x}, x, k);
    assert (on - {x})[x := k] == on[x := k];
  }

  lemma {:induction false} EmptySlots(n: nat, slots: seq<seq<Id>>)
    requires |slots| == n && forall k | 0 <= k < n :: slots[k] == []
    ensures Total(slots) == 0
  {
    if n > 0 {
      EmptySlots(n - 1, slots[1..]);
    }
  }
}
