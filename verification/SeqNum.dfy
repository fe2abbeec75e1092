/**
 Sequence-number comparison: the macros of src/usnet/tcp.h and the pair
 `minseq`/`maxseq` of src/usnet/ringbuf.c, two independent renderings of the same order.
 */
module SeqNum {
  import opened Words

  predicate SeqLt(a: u32, b: u32) { Signed32(Wrap32(a - b)) < 0 }
  predicate SeqLeq(a: u32, b: u32) { Signed32(Wrap32(a - b)) <= 0 }
  predicate SeqGt(a: u32, b: u32) { Signed32(Wrap32(a - b)) > 0 }
  predicate SeqGeq(a: u32, b: u32) { Signed32(Wrap32(a - b)) >= 0 }
  predicate SeqBetween(a: u32, b: u32, c: u32) { SeqGeq(a, b) && SeqLeq(a, c) }

  const MAXSEQ: int := 0xFFFF_FFFF

  function MinSeq(a: u32, b: u32): u32
  {
    if a == b then a
    else if a < b then if b - a <= MAXSEQ / 2 then a else b
    else if a - b <= MAXSEQ / 2 then b else a
  }

  function MaxSeq(a: u32, b: u32): u32
  {
    if a == b then a
    else if a < b then if b - a <= MAXSEQ / 2 then b else a
    else if a - b <= MAXSEQ / 2 then a else b
  }

  /** Two stream positions the 32-bit order can tell apart. */
  predicate Near(p: int, q: int) { -0x8000_0000 < p - q < 0x8000_0000 }

  lemma WrapDifference(p: int, q: int)
    ensures Wrap32(Wrap32(p) - Wrap32(q)) == Wrap32(p - q)
  {
  }

  lemma WrapAdd(p: int, k: int)
    ensures Wrap32(Wrap32(p) + k) == Wrap32(p + k)
  {
  }

  lemma SignedFits(z: int)
    requires -0x8000_0000 <= z < 0x8000_0000
    ensures Signed32(Wrap32(z)) == z
  {
  }

  /** Across any number of wraps, both renderings order near positions as the unbounded stream does. */
  lemma SeqOrder(p: int, q: int)
    requires Near(p, q)
    ensures SeqLt(Wrap32(p), Wrap32(q)) <==> p < q
    ensures SeqLeq(Wrap32(p), Wrap32(q)) <==> p <= q
    ensures SeqGt(Wrap32(p), Wrap32(q)) <==> p > q
    ensures SeqGeq(Wrap32(p), Wrap32(q)) <==> p >= q
    ensures MinSeq(Wrap32(p), Wrap32(q)) == Wrap32(Min(p, q))
    ensures MaxSeq(Wrap32(p), Wrap32(q)) == Wrap32(Max(p, q))
    ensures Wrap32(p) == Wrap32(q) <==> p == q
  {
    WrapDifference(p, q);
    assert Signed32(Wrap32(p - q)) == p - q;
    MinMaxOrder(p, q);
  }

  lemma MinMaxOrder(p: int, q: int)
    requires Near(p, q)
    ensures MinSeq(Wrap32(p), Wrap32(q)) == Wrap32(Min(p, q))
    ensures MaxSeq(Wrap32(p), Wrap32(q)) == Wrap32(Max(p, q))
    ensures Wrap32(p) == Wrap32(q) <==> p == q
  {
    var m := p / 0x1_0000_0000;
    assert p == 0x1_0000_0000 * m + Wrap32(p);
    var k := q / 0x1_0000_0000;
    assert q == 0x1_0000_0000 * k + Wrap32(q);
  }

  /** The order is lost exactly half-way round: there each position precedes the other. */
  lemma SeqOrderBreaksHalfway(p: int)
    ensures SeqLt(Wrap32(p), Wrap32(p + 0x8000_0000)) && SeqLt(Wrap32(p + 0x8000_0000), Wrap32(p))
    ensures MinSeq(Wrap32(p), Wrap32(p + 0x8000_0000)) == Max(Wrap32(p), Wrap32(p + 0x8000_0000))
  {
    WrapDifference(p, p + 0x8000_0000);
    WrapDifference(p + 0x8000_0000, p);
  }

  /** How far `a` is ahead of `b`, as the 32-bit tests see it. */
  function Ahead(a: u32, b: u32): int { Signed32(Wrap32(a - b)) }

  /** The order of numbers seen from `una`: what the tests say of two numbers `d` and `f` ahead of it. */
  lemma SeenFrom(una: u32, x: u32, y: u32, d: int, f: int)
    requires Wrap32(x - una) == Wrap32(d) && Wrap32(y - una) == Wrap32(f) && -0x8000_0000 <= d - f < 0x8000_0000
    ensures Ahead(x, y) == d - f
  {
    hide Wrap32, Signed32;
    WrapDifference(d, f);
    WrapDifference(x - una, y - una);
    assert (x - una) - (y - una) == x - y;
    SignedFits(d - f);
  }

  lemma AheadOf(x: u32, una: u32)
    ensures -0x8000_0000 <= Ahead(x, una) < 0x8000_0000 && Wrap32(x - una) == Wrap32(Ahead(x, una))
  {
  }

  /** `Ahead` as the four comparison macros use it. */
  lemma AheadIsOrder(x: u32, y: u32)
    ensures SeqLt(x, y) <==> Ahead(x, y) < 0
    ensures SeqGt(x, y) <==> Ahead(x, y) > 0
    ensures SeqGeq(x, y) <==> Ahead(x, y) >= 0
  {
  }

  lemma AheadIsDistance(x: u32, y: u32)
    ensures Ahead(x, y) >= 0 ==> Wrap32(x - y) == Ahead(x, y)
  {
  }
}
