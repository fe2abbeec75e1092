/**
 The two time-ordered lists: connections by last activity (src/usnet/timer.c:125-154, 467-499,
 src/usnet/tcp.c:1129-1130) and connections in timewait by expiry (src/usnet/timer.c:61-84, 423-465).
 Both are scanned from the front and the scan stops at the first entry that is not old enough.
 */
module Expiry {
  import opened Words
  import opened Lists

  /** `(int32_t)(cur - stamp) >= limit`, as both scans test it. */
  predicate Old(stamp: map<Id, int>, x: Id, cur: int, limit: int)
    requires x in stamp
  {
    Signed32(Wrap32(cur - stamp[x])) >= limit
  }

  /** Across any number of wraps: at least `limit` ticks have passed since the stamp. */
  lemma OldIsAge(stamp: map<Id, int>, x: Id, cur: int, limit: int)
    requires x in stamp && -0x8000_0000 <= cur - stamp[x] < 0x8000_0000
    ensures Old(stamp, x, cur, limit) <==> cur >= stamp[x] + limit
  {
  }

  ghost predicate Stamped(s: seq<Id>, stamp: map<Id, int>)
  {
    forall i | 0 <= i < |s| :: s[i] in stamp
  }

  ghost predicate Older(s: seq<Id>, stamp: map<Id, int>, i: int, j: int)
    requires Stamped(s, stamp) && 0 <= i < |s| && 0 <= j < |s|
  {
    stamp[s[i]] <= stamp[s[j]]
  }

  ghost predicate Sorted(s: seq<Id>, stamp: map<Id, int>)
    requires Stamped(s, stamp)
  {
    forall i, j {:trigger Older(s, stamp, i, j)} | 0 <= i < j < |s| :: Older(s, stamp, i, j)
  }

  /** What a scan of the whole list selects: the old ones that are not busy; and what it leaves. */
  function Selected(s: seq<Id>, stamp: map<Id, int>, cur: int, limit: int, busy: set<Id>): seq<Id>
    requires forall i | 0 <= i < |s| :: s[i] in stamp
  {
    if s == [] then []
    else if Old(stamp, s[0], cur, limit) && s[0] !in busy then [s[0]] + Selected(s[1..], stamp, cur, limit, busy)
    else Selected(s[1..], stamp, cur, limit, busy)
  }

  function Spared(s: seq<Id>, stamp: map<Id, int>, cur: int, limit: int, busy: set<Id>): seq<Id>
    requires forall i | 0 <= i < |s| :: s[i] in stamp
  {
    if s == [] then []
    else if Old(stamp, s[0], cur, limit) && s[0] !in busy then Spared(s[1..], stamp, cur, limit, busy)
    else [s[0]] + Spared(s[1..], stamp, cur, limit, busy)
  }

  lemma {:induction false} SelectedIn(s: seq<Id>, stamp: map<Id, int>, cur: int, limit: int, busy: set<Id>, x: Id)
    requires Stamped(s, stamp)
    ensures x in Selected(s, stamp, cur, limit, busy) <==> x in s && Old(stamp, x, cur, limit) && x !in busy
    ensures x in Spared(s, stamp, cur, limit, busy) <==> x in s && !(Old(stamp, x, cur, limit) && x !in busy)
  {
    if s != [] {
      SelectedIn(s[1..], stamp, cur, limit, busy, x);
    }
  }

  /** One more entry at the end of a scan. */
  lemma {:induction false} SelectedSnoc(s: seq<Id>, x: Id, stamp: map<Id, int>, cur: int, limit: int, busy: set<Id>)
    requires Stamped(s, stamp) && x in stamp
    ensures Selected(s + [x], stamp, cur, limit, busy) ==
            Selected(s, stamp, cur, limit, busy) + (if Old(stamp, x, cur, limit) && x !in busy then [x] else [])
  {
    if s == [] {
      assert s + [x] == [x];
    } else {
      assert (s + [x])[1..] == s[1..] + [x];
      SelectedSnoc(s[1..], x, stamp, cur, limit, busy);
    }
  }

  lemma {:induction false} SparedSnoc(s: seq<Id>, x: Id, stamp: map<Id, int>, cur: int, limit: int, busy: set<Id>)
    requires Stamped(s, stamp) && x in stamp
    ensures Spared(s + [x], stamp, cur, limit, busy) ==
            Spared(s, stamp, cur, limit, busy) + (if Old(stamp, x, cur, limit) && x !in busy then [] else [x])
  {
    if s == [] {
      assert s + [x] == [x];
    } else {
      assert (s + [x])[1..] == s[1..] + [x];
      SparedSnoc(s[1..], x, stamp, cur, limit, busy);
    }
  }

  /** Where nothing from entry `i` on is old enough, the scan of the first `i` is the whole scan. */
  lemma {:induction false} NothingBehind(s: seq<Id>, i: nat, stamp: map<Id, int>, cur: int, limit: int, busy: set<Id>)
    requires Stamped(s, stamp) && i <= |s| && forall j | i <= j < |s| :: !Old(stamp, s[j], cur, limit)
    ensures Stamped(s[..i], stamp)
    ensures Selected(s, stamp, cur, limit, busy) == Selected(s[..i], stamp, cur, limit, busy)
    ensures Spared(s, stamp, cur, limit, busy) == Spared(s[..i], stamp, cur, limit, busy) + s[i..]
    decreases |s| - i
  {
    if i == |s| {
      assert s[..i] == s && s[i..] == [];
    } else {
      NothingBehind(s, i + 1, stamp, cur, limit, busy);
      assert s[..i + 1] == s[..i] + [s[i]] && s[i..] == [s[i]] + s[i + 1..];
      SelectedSnoc(s[..i], s[i], stamp, cur, limit, busy);
      SparedSnoc(s[..i], s[i], stamp, cur, limit, busy);
    }
  }

  // ----- keeping the order

  lemma {:induction false} RemoveSorted(s: seq<Id>, stamp: map<Id, int>, x: Id)
    requires Stamped(s, stamp) && Sorted(s, stamp)
    ensures Stamped(Remove(s, x), stamp) && Sorted(Remove(s, x), stamp)
    ensures forall y :: y in Remove(s, x) ==> y in s
  {
    if s != [] {
      var t := s[1..];
      forall i, j | 0 <= i < j < |t| ensures Older(t, stamp, i, j) { assert Older(s, stamp, i + 1, j + 1); }
      RemoveSorted(t, stamp, x);
      if s[0] != x {
        var r := Remove(s, x);
        forall i, j | 0 <= i < j < |r|
          ensures r[i] in stamp && r[j] in stamp && Older(r, stamp, i, j)
        {
          if i == 0 {
            assert r[j] in t;
            var k :| 0 <= k < |t| && t[k] == r[j];
            assert Older(s, stamp, 0, k + 1);
          } else {
            assert Older(Remove(t, x), stamp, i - 1, j - 1);
          }
        }
      }
    }
  }

  /** Restamping an entry that is not on the list does not disturb it; at the tail it is the newest. */
  lemma RestampSorted(s: seq<Id>, stamp: map<Id, int>, x: Id, now: int)
    requires Stamped(s, stamp) && Sorted(s, stamp) && x !in s && forall y <- s :: stamp[y] <= now
    ensures Stamped(s, stamp[x := now]) && Sorted(s, stamp[x := now])
    ensures Stamped(s + [x], stamp[x := now]) && Sorted(s + [x], stamp[x := now])
  {
    var r, stamp' := s + [x], stamp[x := now];
    forall i, j | 0 <= i < j < |r|
      ensures Older(r, stamp', i, j)
    {
      assert j < |s| ==> Older(s, stamp, i, j);
    }
    forall i, j | 0 <= i < j < |s| ensures Older(s, stamp', i, j) { assert Older(s, stamp, i, j); }
  }

  /** A scan of `l` has come to entry `i`. */
  ghost predicate Scanned(l: seq<Id>, i: nat, stamp: map<Id, int>, cur: int, limit: int, busy: set<Id>,
                          items: seq<Id>, out: seq<Id>)
  {
    && i <= |l| && Stamped(l, stamp) && Stamped(l[..i], stamp)
    && items == Spared(l[..i], stamp, cur, limit, busy) + l[i..]
    && out == Selected(l[..i], stamp, cur, limit, busy)
  }

  lemma ScanStart(l: seq<Id>, stamp: map<Id, int>, cur: int, limit: int, busy: set<Id>)
    requires Stamped(l, stamp)
    ensures Scanned(l, 0, stamp, cur, limit, busy, l, [])
  {
    assert l[..0] == [] && l[0..] == l;
  }

  lemma ScanStep(l: seq<Id>, i: nat, stamp: map<Id, int>, cur: int, limit: int, busy: set<Id>,
                 items: seq<Id>, out: seq<Id>)
    requires Scanned(l, i, stamp, cur, limit, busy, items, out) && i < |l| && NoDup(items)
    ensures l[i] in items
    ensures Old(stamp, l[i], cur, limit) && l[i] !in busy ==>
              Scanned(l, i + 1, stamp, cur, limit, busy, Remove(items, l[i]), out + [l[i]])
    ensures Old(stamp, l[i], cur, limit) && l[i] in busy ==>
              Scanned(l, i + 1, stamp, cur, limit, busy, items, out)
  {
    var x, before := l[i], Spared(l[..i], stamp, cur, limit, busy);
    assert l[i..] == [x] + l[i + 1..] && l[..i + 1] == l[..i] + [x];
    assert items[|before|] == x;
    SelectedSnoc(l[..i], x, stamp, cur, limit, busy);
    SparedSnoc(l[..i], x, stamp, cur, limit, busy);
    NoDupMiddle(before, x, l[i + 1..]);
    RemoveMiddle(before, x, l[i + 1..]);
    assert (before + [x]) + l[i + 1..] == before + ([x] + l[i + 1..]);
  }

  /** Stopping in front of an entry that is not old enough, or at the end, loses nothing. */
  lemma ScanStop(l: seq<Id>, i: nat, stamp: map<Id, int>, cur: int, limit: int, busy: set<Id>,
                 items: seq<Id>, out: seq<Id>)
    requires Scanned(l, i, stamp, cur, limit, busy, items, out) && Sorted(l, stamp)
    requires forall x <- l :: -0x8000_0000 <= cur - stamp[x] < 0x8000_0000
    requires i == |l| || !Old(stamp, l[i], cur, limit)
    ensures out == Selected(l, stamp, cur, limit, busy) && items == Spared(l, stamp, cur, limit, busy)
  {
    forall j | i <= j < |l|
      ensures !Old(stamp, l[j], cur, limit)
    {
      assert i < j ==> Older(l, stamp, i, j);
    }
    NothingBehind(l, i, stamp, cur, limit, busy);
  }

  /** The first `k` entries are old enough. */
  ghost predicate OldUpTo(l: seq<Id>, k: int, stamp: map<Id, int>, cur: int, limit: int)
  {
    k <= |l| && forall j | 0 <= j < k :: l[j] in stamp && Old(stamp, l[j], cur, limit)
  }

  lemma OldNone(l: seq<Id>, stamp: map<Id, int>, cur: int, limit: int)
    ensures OldUpTo(l, 0, stamp, cur, limit)
  {
  }

  lemma OldOneMore(l: seq<Id>, k: nat, stamp: map<Id, int>, cur: int, limit: int)
    requires OldUpTo(l, k, stamp, cur, limit) && k < |l| && l[k] in stamp && Old(stamp, l[k], cur, limit)
    ensures OldUpTo(l, k + 1, stamp, cur, limit)
  {
  }

  /** A scan that was cut short has met as many old entries as its threshold allows. */
  lemma OldAtCut(l: seq<Id>, k: nat, thresh: int, stamp: map<Id, int>, cur: int, limit: int)
    requires OldUpTo(l, k, stamp, cur, limit) && k < |l| && (k == 0 || k <= thresh) && k + 1 > thresh
    ensures Max(thresh, 0) < |l| && OldUpTo(l, thresh, stamp, cur, limit)
  {
  }

  class TimedList {
    var items: seq<Id>
    var flags: set<Id>
    var count: int
    var stamp: map<Id, int>
    /** The latest stamp ever given. */
    ghost var newest: int

    /** The flags and the counter agree with the list, and the list is in order of the stamps. */
    ghost predicate Valid()
      reads this
    {
      && NoDup(items) && (forall x :: x in items <==> x in flags) && count == |items|
      && Stamped(items, stamp) && Sorted(items, stamp)
      && (forall x <- items :: stamp[x] <= newest)
    }

    constructor ()
      ensures Valid() && items == [] && newest == 0
    {
      items, flags, count, stamp, newest := [], {}, 0, map[], 0;
    }

    /**
     A connection is stamped and, if it is on the list or joins it, goes to the tail: activity
     (src/usnet/tcp.c:1129-1130, src/usnet/tcp_out.c:305-310) and entry into either list.
     */
    method Touch(x: Id, now: int, join: bool)
      requires Valid() && now >= newest
      modifies this
      ensures Valid() && newest == now && stamp == old(stamp)[x := now]
      ensures items == if join || x in old(flags) then Remove(old(items), x) + [x] else old(items)
    {
      RemoveExact(items, x);
      RemoveSorted(items, stamp, x);
      NoDupSnoc(Remove(items, x), x);
      RestampSorted(Remove(items, x), stamp, x, now);
      if x !in flags {
        NotPresent(items, x);
      }
      stamp, newest := stamp[x := now], now;
      if x in flags {
        items := Remove(items, x) + [x];
      } else if join {
        items, flags, count := items + [x], flags + {x}, count + 1;
      }
    }

    method Drop(x: Id)
      requires Valid() && x in flags
      modifies `items, `flags, `count
      ensures Valid() && items == Remove(old(items), x)
    {
      RemoveExact(items, x);
      RemoveSorted(items, stamp, x);
      items, flags, count := Remove(items, x), flags - {x}, count - 1;
    }

    /**
     usnet_check_connection_timeout (nobody busy) and usnet_check_timewait_expire (busy: those on the
     control list, limit 0).  Stopping at the first entry that is not old enough selects exactly what
     a scan of the whole list would, unless `thresh` cut it short, which takes that many old entries
     and more behind them.
     */
    method Scan(cur: int, limit: int, busy: set<Id>, thresh: int) returns (out: seq<Id>, cut: bool)
      requires Valid() && forall x <- items :: -0x8000_0000 <= cur - stamp[x] < 0x8000_0000
      modifies `items, `flags, `count
      ensures Valid()
      ensures !cut ==> out == Selected(old(items), stamp, cur, limit, busy)
      ensures !cut ==> items == Spared(old(items), stamp, cur, limit, busy)
      ensures cut ==> Max(thresh, 0) < |old(items)| && OldUpTo(old(items), thresh, stamp, cur, limit)
      ensures thresh >= |old(items)| ==> !cut
    {
      hide Scanned, Selected, Spared, Wrap32, Signed32, Sorted, OldUpTo, NoDup;
      var walk, cnt, i := items, 0, 0;
      out, cut := [], false;
      ScanStart(walk, stamp, cur, limit, busy);
      OldNone(walk, stamp, cur, limit);
      while i < |walk|
        invariant 0 <= i <= |walk| && Valid()
        invariant Scanned(walk, i, stamp, cur, limit, busy, items, out)
        invariant cnt == i && (i == 0 || i <= thresh)
        invariant OldUpTo(walk, i, stamp, cur, limit)
      {
        cnt := cnt + 1;
        if cnt > thresh {
          OldAtCut(walk, i, thresh, stamp, cur, limit);
          cut := true;
          return;
        }
        var x := walk[i];
        if Signed32(Wrap32(cur - stamp[x])) < limit {
          break;
        }
        OldOneMore(walk, i, stamp, cur, limit);
        ScanStep(walk, i, stamp, cur, limit, busy, items, out);
        assert x in flags;  // the arm for an entry that is not flagged is never taken
        if x !in busy {
          Drop(x);
          out := out + [x];
        }
        i := i + 1;
      }
      ScanStop(walk, i, stamp, cur, limit, busy, items, out);
    }
  }
}
