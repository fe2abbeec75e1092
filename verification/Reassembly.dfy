/**
 Reassembly of out-of-order segments: the fragment list of src/usnet/ringbuf.c.

 The list is linked through the fragments and merged in place under mod-2^32 comparison; the
 proof carries the intervals of unbounded stream positions it stands for.
 */
module Reassembly {
  import opened Words
  import opened SeqNum
  import opened Intervals

  class Fragment {
    var seqNo: u32
    var len: u16
    var next: Fragment?
    /** The stream positions this fragment stands for. */
    ghost var span: Iv

    constructor (seqNo: u32, len: u16, ghost span: Iv)
      requires seqNo == Wrap32(span.lo) && len == span.hi - span.lo
      ensures this.seqNo == seqNo && this.len == len && next == null && this.span == span && Coupled()
    {
      this.seqNo, this.len, next, this.span := seqNo, len, null, span;
    }

    ghost predicate Coupled()
      reads `seqNo, `len, `span
    {
      seqNo == Wrap32(span.lo) && len == span.hi - span.lo
    }
  }

  /** canmerge (src/usnet/ringbuf.c:168-178), on the fields of the two fragments. */
  predicate CanMerge(aSeq: u32, aLen: u16, bSeq: u32, bLen: u16)
  {
    var aEnd := Wrap32(aSeq + aLen + 1);
    var bEnd := Wrap32(bSeq + bLen + 1);
    !(MinSeq(aEnd, bSeq) == aEnd || MinSeq(bEnd, aSeq) == bEnd)
  }

  /** Two fragments can be merged exactly when their intervals overlap or touch. */
  lemma CanMergeIsTouch(a: Iv, b: Iv)
    requires 0 <= a.hi - a.lo < 0x1_0000 && 0 <= b.hi - b.lo < 0x1_0000
    requires -0x2_0000 < a.lo - b.lo < 0x2_0000
    ensures CanMerge(Wrap32(a.lo), a.hi - a.lo, Wrap32(b.lo), b.hi - b.lo) <==> Touch(a, b)
  {
    WrapAdd(a.lo, a.hi - a.lo + 1);
    WrapAdd(b.lo, b.hi - b.lo + 1);
    SeqOrder(a.hi + 1, b.lo);
    SeqOrder(b.hi + 1, a.lo);
  }

  /** The fields merge_fragments computes are those of the hull. */
  lemma MergedFields(a: Iv, b: Iv)
    requires 0 <= a.hi - a.lo < 0x1_0000 && 0 <= b.hi - b.lo < 0x1_0000 && Touch(a, b)
    requires Hull(a, b).hi - Hull(a, b).lo < 0x1_0000
    ensures MinSeq(Wrap32(a.lo), Wrap32(b.lo)) == Wrap32(Hull(a, b).lo)
    ensures MaxSeq(Wrap32(Wrap32(a.lo) + (a.hi - a.lo)), Wrap32(Wrap32(b.lo) + (b.hi - b.lo))) == Wrap32(Hull(a, b).hi)
  {
    SeqOrder(a.lo, b.lo);
    WrapAdd(a.lo, a.hi - a.lo);
    WrapAdd(b.lo, b.hi - b.lo);
    SeqOrder(a.hi, b.hi);
  }

  lemma SpanFits(lo: int, hi: int)
    requires 0 <= hi - lo < 0x1_0000
    ensures Wrap16(Wrap32(Wrap32(hi) - Wrap32(lo))) == hi - lo
  {
    WrapDifference(hi, lo);
    assert Wrap32(hi - lo) == hi - lo;
  }

  /** The test of the traversal, by comparison of stream positions. */
  method Mergeable(a: Fragment, b: Fragment) returns (r: bool)
    requires a.Coupled() && b.Coupled() && -0x2_0000 < a.span.lo - b.span.lo < 0x2_0000
    ensures r <==> Touch(a.span, b.span)
  {
    CanMergeIsTouch(a.span, b.span);
    r := CanMerge(a.seqNo, a.len, b.seqNo, b.len);
  }

  /** `maxseq(seq + len, iter->seq) == iter->seq`: the new segment ends at or before `b`. */
  method EndsBefore(seqNo: u32, len: u16, b: Fragment, ghost x: Iv) returns (r: bool)
    requires seqNo == Wrap32(x.lo) && len == x.hi - x.lo && b.Coupled()
    requires -0x2_0000 < x.lo - b.span.lo < 0x2_0000
    ensures r <==> x.hi <= b.span.lo
  {
    WrapAdd(x.lo, len);
    SeqOrder(x.hi, b.span.lo);
    r := MaxSeq(Wrap32(seqNo + len), b.seqNo) == b.seqNo;
  }

  /** merge_fragments (src/usnet/ringbuf.c:180-190): `a` into `b`. */
  method MergeFragments(a: Fragment, b: Fragment)
    requires a.Coupled() && b.Coupled() && Touch(a.span, b.span)
    requires Hull(a.span, b.span).hi - Hull(a.span, b.span).lo < 0x1_0000
    modifies b`seqNo, b`len, b`span
    ensures b.Coupled() && b.span == Hull(old(a.span), old(b.span))
  {
    ghost var hull := Hull(a.span, b.span);
    MergedFields(a.span, b.span);
    SpanFits(hull.lo, hull.hi);
    var minSeq := MinSeq(a.seqNo, b.seqNo);
    var maxSeq := MaxSeq(Wrap32(a.seqNo + a.len), Wrap32(b.seqNo + b.len));
    b.seqNo := minSeq;
    b.len := Wrap16(Wrap32(maxSeq as int - minSeq as int));
    b.span := hull;
  }

  function At(nodes: seq<Fragment>, k: int): Fragment?
  {
    if 0 <= k < |nodes| then nodes[k] else null
  }

  ghost predicate Among(nodes: seq<Fragment>, repr: set<Fragment>)
  {
    forall i | 0 <= i < |nodes| :: nodes[i] in repr
  }

  ghost predicate Differ(nodes: seq<Fragment>, i: int, j: int)
    requires 0 <= i < |nodes| && 0 <= j < |nodes|
  {
    nodes[i] != nodes[j]
  }

  ghost predicate Distinct(nodes: seq<Fragment>)
  {
    forall i, j {:trigger Differ(nodes, i, j)} | 0 <= i < j < |nodes| :: Differ(nodes, i, j)
  }

  lemma OnlyOne(nodes: seq<Fragment>, j: nat)
    requires Distinct(nodes) && j < |nodes|
    ensures forall m | 0 <= m < |nodes| && m != j :: nodes[m] != nodes[j]
  {
    forall m | 0 <= m < |nodes| && m != j
      ensures nodes[m] != nodes[j]
    {
      assert if m < j then Differ(nodes, m, j) else Differ(nodes, j, m);
    }
  }

  /** The nodes are linked in order, the last one to null. */
  ghost predicate Linked(nodes: seq<Fragment>, repr: set<Fragment>)
    requires Among(nodes, repr)
    reads repr`next
  {
    forall i {:trigger nodes[i].next} | 0 <= i < |nodes| :: nodes[i].next == At(nodes, i + 1)
  }

  ghost predicate Stands(nodes: seq<Fragment>, ivs: seq<Iv>, repr: set<Fragment>)
    requires Among(nodes, repr)
    reads repr`span
  {
    |nodes| == |ivs| && forall i {:trigger nodes[i].span} {:trigger ivs[i]} | 0 <= i < |nodes| :: nodes[i].span == ivs[i]
  }

  ghost predicate AllCoupled(repr: set<Fragment>)
    reads repr
  {
    forall f {:trigger f.Coupled()} | f in repr :: f.Coupled()
  }

  /** All intervals lie in one receive window above `base`. */
  ghost predicate Within(ivs: seq<Iv>, base: int)
  {
    forall i | 0 <= i < |ivs| :: base <= ivs[i].lo <= ivs[i].hi <= base + 0xFFFF
  }

  lemma WithinSplice(l: seq<Iv>, x: Iv, i: nat, k: nat, y: Iv, base: int)
    requires Within(l, base) && base <= x.lo && x.hi <= base + 0xFFFF && Absorbs(l, x, i, k, y)
    ensures Within(Splice(l, i, k, y), base)
  {
    AbsorbBounds(l, x, i, k, y, base, base + 0xFFFF);
    forall m | 0 <= m < |Splice(l, i, k, y)|
      ensures base <= Splice(l, i, k, y)[m].lo <= Splice(l, i, k, y)[m].hi <= base + 0xFFFF
    {
      SpliceAt(l, i, k, y, m);
    }
  }

  function Without<T>(s: seq<T>, j: nat): seq<T>
    requires j < |s|
  {
    s[..j] + s[j + 1..]
  }

  lemma WithoutKeeps(nodes: seq<Fragment>, ivs: seq<Iv>, repr: set<Fragment>, j: nat)
    requires j < |nodes| && Among(nodes, repr) && Distinct(nodes) && Stands(nodes, ivs, repr)
    ensures Among(Without(nodes, j), repr) && Distinct(Without(nodes, j))
    ensures Stands(Without(nodes, j), Without(ivs, j), repr)
  {
    var ns, vs := Without(nodes, j), Without(ivs, j);
    forall m | 0 <= m < |ns|
      ensures ns[m].span == vs[m]
    {
      var k := if m < j then m else m + 1;
      assert ns[m] == nodes[k] && vs[m] == ivs[k];
    }
    forall m, k | 0 <= m < k < |ns|
      ensures Differ(ns, m, k)
    {
      assert Differ(nodes, if m < j then m else m + 1, if k < j then k else k + 1);
    }
  }

  function With<T>(s: seq<T>, i: nat, v: T): seq<T>
    requires i <= |s|
  {
    s[..i] + [v] + s[i..]
  }

  lemma WithKeeps(nodes: seq<Fragment>, ivs: seq<Iv>, repr: set<Fragment>, i: nat, added: Fragment)
    requires i <= |nodes| && Among(nodes, repr) && Distinct(nodes) && Stands(nodes, ivs, repr) && added !in repr
    ensures Among(With(nodes, i, added), repr + {added}) && Distinct(With(nodes, i, added))
    ensures Stands(With(nodes, i, added), With(ivs, i, added.span), repr + {added})
  {
    var ns, vs := With(nodes, i, added), With(ivs, i, added.span);
    forall m | 0 <= m < |ns|
      ensures ns[m] in repr + {added} && ns[m].span == vs[m]
    {
      var k := if m < i then m else m - 1;
      assert m != i ==> ns[m] == nodes[k] && vs[m] == ivs[k];
    }
    forall m, k | 0 <= m < k < |ns|
      ensures Differ(ns, m, k)
    {
      if m != i && k != i {
        assert Differ(nodes, if m < i then m else m - 1, if k < i then k else k - 1);
      }
    }
  }

  class FragmentList {
    var first: Fragment?
    /** Chunks left in the fragment pool. */
    var poolFree: nat

    ghost var nodes: seq<Fragment>
    ghost var ivs: seq<Iv>
    /** Every fragment ever taken from the pool. */
    ghost var repr: set<Fragment>

    /** The links, and what each node stands for. */
    ghost predicate Shape()
      reads `first, `nodes, `ivs, `repr, repr
    {
      && Among(nodes, repr) && Distinct(nodes) && first == At(nodes, 0)
      && Linked(nodes, repr) && Stands(nodes, ivs, repr) && AllCoupled(repr)
    }

    ghost predicate Valid()
      reads `first, `nodes, `ivs, `repr, repr
    {
      Shape() && Chain(ivs)
    }

    constructor (poolFree: nat)
      ensures Valid() && nodes == [] && ivs == [] && repr == {} && this.poolFree == poolFree
    {
      first, nodes, ivs, repr := null, [], [], {};
      this.poolFree := poolFree;
    }

    /** A fragment on the list takes over the span of `a` as well. */
    method MergeInto(a: Fragment, b: Fragment, ghost j: nat)
      requires Shape() && j < |nodes| && b == nodes[j] && a.Coupled() && Touch(a.span, ivs[j])
      requires Hull(a.span, ivs[j]).hi - Hull(a.span, ivs[j]).lo < 0x1_0000
      modifies b`seqNo, b`len, b`span, `ivs
      ensures Shape() && ivs == old(ivs)[j := Hull(old(a.span), old(ivs)[j])]
    {
      OnlyOne(nodes, j);
      assert b.Coupled();
      ghost var hull := Hull(a.span, ivs[j]);
      MergeFragments(a, b);
      ivs := ivs[j := hull];
    }

    /** src/usnet/ringbuf.c:290-293: node `j` leaves the list, between `pprev` and `iter`. */
    method Unlink(pprev: Fragment?, iter: Fragment, ghost j: nat)
      requires Shape() && j + 1 < |nodes| && pprev == At(nodes, j - 1) && iter == nodes[j + 1]
      modifies `first, `nodes, `ivs, repr`next
      ensures Shape()
      ensures nodes == Without(old(nodes), j) && ivs == Without(old(ivs), j)
    {
      WithoutKeeps(nodes, ivs, repr, j);
      ghost var ns := Without(nodes, j);
      if j > 0 {
        OnlyOne(nodes, j - 1);
      }
      if pprev != null {
        pprev.next := iter;
      } else {
        first := iter;
      }
      forall m | 0 <= m < |ns|
        ensures ns[m].next == At(ns, m + 1)
      {
        assert ns[m] == nodes[if m < j then m else m + 1];
      }
      nodes, ivs := ns, Without(ivs, j);
    }

    /**
     The traversal stands before `iter`: of the intervals `l`, those below `k` are behind it, and
     those from `i` on have been swallowed by `newFrag`, which stands for `y`.
     */
    ghost predicate Cursor(l: seq<Iv>, x: Iv, i: nat, k: nat, y: Iv, added: Fragment,
                           newFrag: Fragment, iter: Fragment?, prev: Fragment?, pprev: Fragment?)
      reads `first, `nodes, `ivs, `repr, repr, newFrag
    {
      && Shape() && Absorbs(l, x, i, k, y) && newFrag.span == y && newFrag.Coupled()
      && ivs == (if i < k then Splice(l, i, k, y) else l)
      && (if i < k then i < |nodes| && newFrag == nodes[i] else newFrag == added)
      && var at := if i < k then i + 1 else i;
      && iter == At(nodes, at) && prev == At(nodes, at - 1) && pprev == At(nodes, at - 2)
    }

    /**
     src/usnet/ringbuf.c:285-298: `newFrag` is merged into `iter`, its successor if it is on the
     list itself (at index `i`), and released.  Returns the node before `iter`.
     */
    method Swallow(newFrag: Fragment, iter: Fragment, prev: Fragment?, pprev: Fragment?,
                   ghost i: nat, ghost y: Iv, ghost listed: bool) returns (before: Fragment?)
      requires Shape() && (if listed then i < |nodes| && newFrag == nodes[i] else newFrag !in repr)
      requires var j := if listed then i + 1 else i;
               && j < |nodes| && iter == nodes[j] && prev == At(nodes, j - 1) && pprev == At(nodes, j - 2)
               && newFrag.span == y && newFrag.Coupled() && Touch(y, ivs[j])
               && Hull(y, ivs[j]).hi - Hull(y, ivs[j]).lo < 0x1_0000
      modifies `first, `nodes, `ivs, repr
      ensures Shape()
      ensures listed ==> nodes == Without(old(nodes), i) && ivs == Without(old(ivs), i)[i := Hull(y, old(ivs)[i + 1])]
      ensures !listed ==> nodes == old(nodes) && ivs == old(ivs)[i := Hull(y, old(ivs)[i])]
      ensures before == At(nodes, i - 1) && iter == At(nodes, i) && iter.next == At(nodes, i + 1)
    {
      before := prev;
      OnlyOne(nodes, if listed then i else 0);
      MergeInto(newFrag, iter, if listed then i + 1 else i);
      if prev == newFrag {
        Unlink(pprev, iter, i);
        before := pprev;
      }
    }

    method Grow(added: Fragment, newFrag: Fragment, iter: Fragment, prev: Fragment?, pprev: Fragment?,
                ghost l: seq<Iv>, ghost x: Iv, ghost i: nat, ghost k: nat, ghost y: Iv, ghost base: int)
      returns (before: Fragment?)
      requires Cursor(l, x, i, k, y, added, newFrag, iter, prev, pprev) && added !in repr
      requires Chain(l) && k < |l| && Touch(y, l[k])
      requires Within(l, base) && base <= x.lo && x.hi <= base + 0xFFFF
      modifies `first, `nodes, `ivs, repr
      ensures Cursor(l, x, i, k + 1, Hull(y, l[k]), added, iter, iter.next, iter, before)
      ensures |nodes| == |old(nodes)| - if i < k then 1 else 0
    {
      AbsorbBounds(l, x, i, k, y, base, base + 0xFFFF);
      SpliceGrows(l, i, k, y, Hull(y, l[k]));
      AbsorbNext(l, x, i, k, y);
      before := Swallow(newFrag, iter, prev, pprev, i, y, i < k);
    }

    /** The traversal starts before the first fragment. */
    lemma Begin(added: Fragment, x: Iv)
      requires Valid() && added.Coupled() && added.span == x && x.lo < x.hi
      ensures Cursor(ivs, x, 0, 0, x, added, added, first, null, null)
    {
    }

    /** The fragment the traversal faces is the next interval, close enough for 32-bit comparison. */
    lemma Facing(added: Fragment, newFrag: Fragment, iter: Fragment?, prev: Fragment?, pprev: Fragment?,
                 l: seq<Iv>, x: Iv, i: nat, k: nat, y: Iv, base: int)
      requires Cursor(l, x, i, k, y, added, newFrag, iter, prev, pprev)
      requires Within(l, base) && base <= x.lo && x.hi <= base + 0xFFFF
      ensures iter == null <==> k == |l|
      ensures iter != null ==> iter.Coupled() && iter.span == l[k] && -0x2_0000 < y.lo - l[k].lo < 0x2_0000
      ensures iter != null ==> -0x2_0000 < x.lo - l[k].lo < 0x2_0000
      ensures i <= k <= |l| && newFrag.Coupled() && newFrag.span == y && (i == k ==> newFrag == added && y == x)
    {
      AbsorbBounds(l, x, i, k, y, base, base + 0xFFFF);
      assert iter != null ==> iter.Coupled();
    }

    /** Past a fragment that lies wholly below the new one. */
    lemma Skip(added: Fragment, iter: Fragment, prev: Fragment?, pprev: Fragment?,
               l: seq<Iv>, x: Iv, k: nat)
      requires Cursor(l, x, k, k, x, added, added, iter, prev, pprev)
      requires Chain(l) && k < |l| && !Touch(x, l[k]) && l[k].lo < x.hi
      ensures Cursor(l, x, k + 1, k + 1, x, added, added, iter.next, iter, prev)
    {
      AbsorbSkip(l, x, k);
    }

    /** One round of the traversal: merge with `iter`, or step past it, or stop in front of it. */
    method Round(seqNo: u32, len: u16, merged: bool, freed: nat, added: Fragment, newFrag: Fragment,
                 iter: Fragment, prev: Fragment?, pprev: Fragment?,
                 ghost l: seq<Iv>, ghost x: Iv, ghost i: nat, ghost k: nat, ghost y: Iv, ghost base: int)
      returns (stop: bool, merged': bool, freed': nat, newFrag': Fragment,
               iter': Fragment?, prev': Fragment?, pprev': Fragment?, ghost i': nat, ghost k': nat, ghost y': Iv)
      requires Cursor(l, x, i, k, y, added, newFrag, iter, prev, pprev) && added !in repr && (merged <==> i < k)
      requires Chain(l) && seqNo == Wrap32(x.lo) && len == x.hi - x.lo
      requires Within(l, base) && base <= x.lo && x.hi <= base + 0xFFFF
      modifies `first, `nodes, `ivs, repr
      ensures Cursor(l, x, i', k', y', added, newFrag', iter', prev', pprev') && (merged' <==> i' < k')
      ensures if stop then k' == k < |l| && Stops(l, x, i', k', y') else k' == k + 1 <= |l|
      ensures freed' + |nodes| - (if merged' then 1 else 0) == freed + |old(nodes)| - (if merged then 1 else 0)
    {
      hide Cursor, Chain, Within;
      Facing(added, newFrag, iter, prev, pprev, l, x, i, k, y, base);
      var r := Mergeable(newFrag, iter);
      if r {
        var before := Grow(added, newFrag, iter, prev, pprev, l, x, i, k, y, base);
        return false, true, freed + 1, iter, iter.next, iter, before, i, k + 1, Hull(y, l[k]);
      }
      var ends := EndsBefore(seqNo, len, iter, x);
      if merged || ends {
        return true, merged, freed, newFrag, iter, prev, pprev, i, k, y;
      }
      Skip(added, iter, prev, pprev, l, x, k);
      return false, merged, freed, newFrag, iter.next, iter, prev, i + 1, k + 1, y;
    }

    /**
     The traversal of src/usnet/ringbuf.c:275-306: the new fragment swallows every fragment it
     touches.  `i` and `k` delimit the swallowed part of the list, `y` is what it has become, and
     `freed` counts the fragments released to the pool on the way.
     */
    method Traverse(added: Fragment, ghost x: Iv, ghost base: int)
      returns (merged: bool, newFrag: Fragment, iter: Fragment?, prev: Fragment?, pprev: Fragment?, freed: nat,
               ghost i: nat, ghost k: nat, ghost y: Iv)
      requires Cursor(ivs, x, 0, 0, x, added, added, first, null, null) && Chain(ivs) && added !in repr
      requires added.seqNo == Wrap32(x.lo) && added.len == x.hi - x.lo
      requires Within(ivs, base) && base <= x.lo && x.hi <= base + 0xFFFF
      modifies `first, `nodes, `ivs, repr
      ensures Cursor(old(ivs), x, i, k, y, added, newFrag, iter, prev, pprev) && (merged <==> i < k)
      ensures iter == null || (k < |old(ivs)| && Stops(old(ivs), x, i, k, y))
      ensures freed + |nodes| == |old(nodes)| + if merged then 1 else 0
    {
      hide Cursor, Stops, Within;
      ghost var l := ivs;
      var seqNo, len := added.seqNo, added.len;
      var stop := false;
      newFrag, pprev := added, null;
      iter, prev, merged, freed := first, null, false, 0;
      i, k, y := 0, 0, x;
      while iter != null && !stop
        invariant Cursor(l, x, i, k, y, added, newFrag, iter, prev, pprev) && (merged <==> i < k)
        invariant k <= |l| && (stop ==> k < |l| && Stops(l, x, i, k, y))
        invariant freed + |nodes| == |old(nodes)| + if merged then 1 else 0
        decreases |l| - k, !stop
      {
        stop, merged, freed, newFrag, iter, prev, pprev, i, k, y :=
          Round(seqNo, len, merged, freed, added, newFrag, iter, prev, pprev, l, x, i, k, y, base);
      }
    }

    /** The node goes in front of `iter`, behind `prev` (or first). */
    method Link(added: Fragment, prev: Fragment?, iter: Fragment?, ghost i: nat)
      requires Shape() && added !in repr && added.Coupled() && i <= |nodes|
      requires prev == At(nodes, i - 1) && iter == At(nodes, i)
      modifies `first, `nodes, `ivs, `repr, repr`next, added`next
      ensures Shape() && repr == old(repr) + {added}
      ensures nodes == With(old(nodes), i, added) && ivs == With(old(ivs), i, added.span)
    {
      WithKeeps(nodes, ivs, repr, i, added);
      ghost var ns := With(nodes, i, added);
      if i > 0 {
        OnlyOne(nodes, i - 1);
      }
      added.next := iter;
      if prev == null {
        first := added;
      } else {
        prev.next := added;
      }
      forall m | 0 <= m < |ns|
        ensures ns[m].next == At(ns, m + 1)
      {
        assert m != i ==> ns[m] == nodes[if m < i then m else m - 1];
      }
      nodes, ivs, repr := ns, With(ivs, i, added.span), repr + {added};
    }

    /** The test `minseq(seq, frags->seq) == seq`, and the assertion of line 318, by stream positions. */
    lemma WhereToLink(l: seq<Iv>, x: Iv, k: nat, base: int)
      requires Chain(l) && Absorbs(l, x, k, k, x)
      requires forall m | k <= m < |l| :: x.hi < l[m].lo
      requires Within(l, base) && base <= x.lo && x.hi <= base + 0xFFFF
      ensures |l| > 0 ==> (MinSeq(Wrap32(x.lo), Wrap32(l[0].lo)) == Wrap32(x.lo) <==> k == 0)
      ensures k > 0 ==> MinSeq(Wrap32(x.lo), Wrap32(Wrap32(l[k - 1].lo) + (l[k - 1].hi - l[k - 1].lo)))
                        == Wrap32(Wrap32(l[k - 1].lo) + (l[k - 1].hi - l[k - 1].lo))
    {
      if |l| > 0 {
        SeqOrder(x.lo, l[0].lo);
      }
      if k > 0 {
        WrapAdd(l[k - 1].lo, l[k - 1].hi - l[k - 1].lo);
        SeqOrder(x.lo, l[k - 1].hi);
      }
    }

    /** src/usnet/ringbuf.c:308-323: a fragment that touches no other is linked in its place. */
    method LinkInOrder(added: Fragment, prev: Fragment?, iter: Fragment?, ghost x: Iv, ghost k: nat, ghost base: int)
      requires Valid() && added !in repr && added.Coupled() && added.span == x && added.next == null
      requires Absorbs(ivs, x, k, k, x) && prev == At(nodes, k - 1) && iter == At(nodes, k)
      requires forall m | k <= m < |ivs| :: x.hi < ivs[m].lo
      requires Within(ivs, base) && base <= x.lo && x.hi <= base + 0xFFFF
      modifies `first, `nodes, `ivs, `repr, repr`next, added`next
      ensures Shape() && repr == old(repr) + {added}
      ensures |nodes| == |old(nodes)| + 1 && ivs == With(old(ivs), k, x)
    {
      WhereToLink(ivs, x, k, base);
      assert forall m | 0 <= m < |nodes| :: nodes[m].Coupled();
      if first == null {
        Link(added, null, null, 0);
      } else if MinSeq(added.seqNo, first.seqNo) == added.seqNo {
        Link(added, null, first, 0);
      } else {
        assert MinSeq(added.seqNo, Wrap32(prev.seqNo + prev.len)) == Wrap32(prev.seqNo + prev.len);
        Link(added, prev, iter, k);
      }
    }

    /** The traversal and, if nothing was merged, the linking. */
    method Place(added: Fragment, ghost x: Iv, ghost base: int) returns (freed: nat, ghost i: nat, ghost k: nat, ghost y: Iv)
      requires Valid() && added !in repr && added.Coupled() && added.span == x && x.lo < x.hi && added.next == null
      requires Within(ivs, base) && base <= x.lo && x.hi <= base + 0xFFFF
      modifies `first, `nodes, `ivs, `repr, repr, added`next
      ensures Shape() && (repr == old(repr) || repr == old(repr) + {added})
      ensures Absorbs(old(ivs), x, i, k, y) && ivs == Splice(old(ivs), i, k, y)
      ensures forall m | k <= m < |old(ivs)| :: x.hi < old(ivs)[m].lo
      ensures freed + |ivs| == |old(ivs)| + 1
    {
      ghost var l := ivs;
      Begin(added, x);
      var merged, newFrag, iter, prev, pprev;
      merged, newFrag, iter, prev, pprev, freed, i, k, y := Traverse(added, x, base);
      Facing(added, newFrag, iter, prev, pprev, l, x, i, k, y, base);
      AbsorbDone(l, x, i, k, y);
      if !merged {
        LinkInOrder(added, prev, iter, x, k, base);
      }
    }

    /**
     src/usnet/ringbuf.c:271-323.  Recording a segment is set union over stream positions, for any
     order of arrival; it fails exactly when the pool is exhausted; no fragment is lost or duplicated.
     */
    method Insert(seqNo: u32, len: u16, ghost x: Iv, ghost base: int) returns (ok: bool)
      requires Valid() && seqNo == Wrap32(x.lo) && len == x.hi - x.lo > 0
      requires Within(ivs, base) && base <= x.lo && x.hi <= base + 0xFFFF
      modifies this, repr
      ensures Valid() && fresh(repr - old(repr)) && Within(ivs, base)
      ensures ok <==> old(poolFree) > 0
      ensures !ok ==> ivs == old(ivs) && poolFree == old(poolFree)
      ensures ok ==> forall p :: Covers(ivs, p) <==> Covers(old(ivs), p) || x.Has(p)
      ensures poolFree + |ivs| == old(poolFree) + |old(ivs)|
    {
      if poolFree == 0 {
        return false;
      }
      ghost var l := ivs;
      var added := new Fragment(seqNo, len, x);
      var freed;
      ghost var i, k, y;
      freed, i, k, y := Place(added, x, base);
      SpliceIsUnion(l, x, i, k, y);
      WithinSplice(l, x, i, k, y, base);
      poolFree := poolFree - 1 + freed;
      return true;
    }

    /** The first fragment leaves the list and returns to the pool (src/usnet/ringbuf.c:328-332). */
    method PopFirst()
      requires Valid() && nodes != []
      modifies `first, `poolFree, `nodes, `ivs
      ensures Valid() && ivs == old(ivs)[1..] && poolFree == old(poolFree) + 1
    {
      WithoutKeeps(nodes, ivs, repr, 0);
      ChainTail(ivs);
      ghost var ns := nodes;
      assert Without(nodes, 0) == nodes[1..] && Without(ivs, 0) == ivs[1..];
      first := first.next;
      poolFree := poolFree + 1;
      nodes, ivs := nodes[1..], ivs[1..];
      forall m | 0 <= m < |nodes|
        ensures nodes[m].next == At(nodes, m + 1)
      {
        assert nodes[m] == ns[m + 1];
      }
    }
  }
}
