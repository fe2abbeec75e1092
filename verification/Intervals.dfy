/**
 Sets of stream positions held as a sorted list of disjoint, non-touching intervals.
 */
module Intervals {
  import opened Words

  datatype Iv = Iv(lo: int, hi: int) {
    predicate Has(p: int) { lo <= p < hi }
  }

  /** A gap separates interval `i` from interval `j`. */
  ghost predicate Gap(l: seq<Iv>, i: int, j: int)
    requires 0 <= i < |l| && 0 <= j < |l|
  {
    l[i].hi < l[j].lo
  }

  /** Sorted, disjoint, and with a gap between any two intervals. */
  ghost predicate Chain(l: seq<Iv>)
  {
    && (forall i | 0 <= i < |l| :: l[i].lo < l[i].hi)
    && (forall i, j {:trigger Gap(l, i, j)} | 0 <= i < j < |l| :: Gap(l, i, j))
  }

  lemma ChainTail(l: seq<Iv>)
    requires Chain(l) && l != []
    ensures Chain(l[1..]) && forall m | 1 <= m < |l| :: l[0].hi < l[m].lo
  {
    forall i, j | 0 <= i < j < |l[1..]|
      ensures Gap(l[1..], i, j)
    {
      assert Gap(l, i + 1, j + 1);
    }
    forall m | 1 <= m < |l| ensures l[0].hi < l[m].lo { assert Gap(l, 0, m); }
  }

  ghost predicate Covers(l: seq<Iv>, p: int)
  {
    exists i | 0 <= i < |l| :: l[i].Has(p)
  }

  predicate Touch(a: Iv, b: Iv) { a.lo <= b.hi && b.lo <= a.hi }

  function Hull(a: Iv, b: Iv): Iv { Iv(Min(a.lo, b.lo), Max(a.hi, b.hi)) }

  /** The list `l` with its intervals i..j replaced by `y`. */
  function Splice(l: seq<Iv>, i: nat, j: nat, y: Iv): seq<Iv>
    requires i <= j <= |l|
  {
    l[..i] + [y] + l[j..]
  }

  /** `y` is `x` grown over the intervals i..j of `l`, exactly those that touch `x`. */
  ghost predicate Absorbs(l: seq<Iv>, x: Iv, i: nat, j: nat, y: Iv)
  {
    && i <= j <= |l| && x.lo < x.hi
    && (forall m | 0 <= m < i :: l[m].hi < x.lo)
    && (forall m | i <= m < j :: Touch(l[m], x))
    && y == if i == j then x else Hull(Hull(x, l[i]), l[j - 1])
  }

  /** Growing the spliced interval over the next one. */
  lemma SpliceGrows(l: seq<Iv>, i: nat, k: nat, y: Iv, z: Iv)
    requires i <= k < |l|
    ensures l[..k] + [z] + l[k + 1..] == l[k := z]
    ensures var r := Splice(l, i, k, y);
            (r[..i] + r[i + 1..])[i := z] == Splice(l, i, k + 1, z)
  {
  }

  lemma AbsorbNext(l: seq<Iv>, x: Iv, i: nat, k: nat, y: Iv)
    requires Chain(l) && Absorbs(l, x, i, k, y) && k < |l| && Touch(y, l[k])
    ensures Absorbs(l, x, i, k + 1, Hull(y, l[k]))
  {
    assert i < k ==> Gap(l, i, k) && Gap(l, k - 1, k);
    assert i < k - 1 ==> Gap(l, i, k - 1);
  }

  lemma AbsorbSkip(l: seq<Iv>, x: Iv, k: nat)
    requires Chain(l) && Absorbs(l, x, k, k, x) && k < |l| && !Touch(x, l[k]) && l[k].lo < x.hi
    ensures Absorbs(l, x, k + 1, k + 1, x)
  {
  }

  /** Interval `k` is out of reach of `x`. */
  predicate Stops(l: seq<Iv>, x: Iv, i: nat, k: nat, y: Iv)
    requires k < |l|
  {
    !Touch(y, l[k]) && (i < k || x.hi <= l[k].lo)
  }

  /** Once the next interval is out of reach, all later ones are. */
  lemma AbsorbDone(l: seq<Iv>, x: Iv, i: nat, k: nat, y: Iv)
    requires Chain(l) && Absorbs(l, x, i, k, y)
    requires k == |l| || Stops(l, x, i, k, y)
    ensures forall m | k <= m < |l| :: x.hi < l[m].lo
  {
    if k < |l| {
      assert i < k ==> Gap(l, k - 1, k);
      assert x.hi < l[k].lo;
      forall m | k < m < |l| ensures x.hi < l[m].lo { assert Gap(l, k, m); }
    }
  }

  lemma AbsorbBounds(l: seq<Iv>, x: Iv, i: nat, k: nat, y: Iv, a: int, b: int)
    requires Absorbs(l, x, i, k, y) && a <= x.lo && x.hi <= b
    requires forall m | 0 <= m < |l| :: a <= l[m].lo <= l[m].hi <= b
    ensures a <= y.lo <= x.lo && x.hi <= y.hi <= b
  {
  }

  /** Splicing in an interval grown over everything it touches is set union, and keeps the list canonical. */
  lemma SpliceIsUnion(l: seq<Iv>, x: Iv, i: nat, j: nat, y: Iv)
    requires Chain(l) && Absorbs(l, x, i, j, y)
    requires forall m | j <= m < |l| :: x.hi < l[m].lo
    ensures Chain(Splice(l, i, j, y))
    ensures forall p :: Covers(Splice(l, i, j, y), p) <==> Covers(l, p) || x.Has(p)
  {
    SpliceKeepsChain(l, x, i, j, y);
    forall p
      ensures Covers(Splice(l, i, j, y), p) <==> Covers(l, p) || x.Has(p)
    {
      SpliceCovers(l, x, i, j, y, p);
    }
  }

  lemma SpliceAt(l: seq<Iv>, i: nat, j: nat, y: Iv, m: nat)
    requires i <= j <= |l| && m < |Splice(l, i, j, y)|
    ensures Splice(l, i, j, y)[m] == if m < i then l[m] else if m == i then y else l[m - i - 1 + j]
  {
  }

  lemma SpliceKeepsChain(l: seq<Iv>, x: Iv, i: nat, j: nat, y: Iv)
    requires Chain(l) && Absorbs(l, x, i, j, y)
    requires forall m | j <= m < |l| :: x.hi < l[m].lo
    ensures Chain(Splice(l, i, j, y))
  {
    var r := Splice(l, i, j, y);
    forall m | 0 <= m < |r|
      ensures r[m].lo < r[m].hi
    {
      SpliceAt(l, i, j, y, m);
    }
    forall m, k | 0 <= m < k < |r|
      ensures Gap(r, m, k)
    {
      SpliceAt(l, i, j, y, m);
      SpliceAt(l, i, j, y, k);
      if m != i && k != i {
        assert Gap(l, if m < i then m else m - i - 1 + j, if k < i then k else k - i - 1 + j);
      } else if i < j {
        assert m < i ==> Gap(l, m, i) && Gap(l, m, j - 1);
        assert k > i ==> Gap(l, i, k - i - 1 + j) && Gap(l, j - 1, k - i - 1 + j);
      }
    }
  }

  lemma GrownCovers(l: seq<Iv>, x: Iv, i: nat, j: nat, y: Iv, m: nat)
    requires Chain(l) && Absorbs(l, x, i, j, y) && i <= m < j
    ensures y.lo <= l[m].lo && l[m].hi <= y.hi
  {
    assert m > i ==> Gap(l, i, m);
    assert m < j - 1 ==> Gap(l, m, j - 1);
  }

  lemma SpliceGains(l: seq<Iv>, x: Iv, i: nat, j: nat, y: Iv, p: int)
    requires Chain(l) && Absorbs(l, x, i, j, y) && (Covers(l, p) || x.Has(p))
    ensures Covers(Splice(l, i, j, y), p)
  {
    var k := i;
    if !x.Has(p) {
      var m :| 0 <= m < |l| && l[m].Has(p);
      k := if m < i then m else if m < j then i else m - j + i + 1;
      if i <= m < j {
        GrownCovers(l, x, i, j, y, m);
      }
    }
    SpliceAt(l, i, j, y, k);
    assert Splice(l, i, j, y)[k].Has(p);
  }

  lemma SpliceCovers(l: seq<Iv>, x: Iv, i: nat, j: nat, y: Iv, p: int)
    requires Chain(l) && Absorbs(l, x, i, j, y)
    ensures Covers(Splice(l, i, j, y), p) <==> Covers(l, p) || x.Has(p)
  {
    var r := Splice(l, i, j, y);
    if Covers(l, p) || x.Has(p) {
      SpliceGains(l, x, i, j, y, p);
    } else if Covers(r, p) {
      var m :| 0 <= m < |r| && r[m].Has(p);
      SpliceAt(l, i, j, y, m);
      if m == i {
        GrownOver(l, x, i, j, y, p);
      }
    }
  }

  /** The grown interval adds nothing beyond `x` and the intervals it absorbs. */
  lemma GrownOver(l: seq<Iv>, x: Iv, i: nat, j: nat, y: Iv, p: int)
    requires Chain(l) && Absorbs(l, x, i, j, y) && y.Has(p)
    ensures x.Has(p) || Covers(l, p)
  {
    assert i < j - 1 ==> Gap(l, i, j - 1);
    if p < x.lo {
      assert l[i].Has(p);
    } else if p >= x.hi {
      assert l[j - 1].Has(p);
    }
  }
}
