/**
 The index convention shared by the byte rings of the stack.

 A ring of `n` cells is addressed by registers that range over [0, n] inclusive: a register
 that reaches the end of the ring stays at `n` and only wraps on the next advance.  Both
 rings of the source (the message queue and the TCP receive buffer) advance this way.  The
 proofs use unbounded stream positions: position `p` is the p-th byte ever put in the ring.
 */
module Ring {
  import opened Words

  /** The value of an index register that stands at stream position `p`. */
  function Index(n: nat, p: nat): (i: nat)
    requires n > 0
    ensures i <= n
    ensures i == 0 <==> p == 0
  {
    if p <= n then p else Index(n, p - n)
  }

  /** The cell that holds the byte at stream position `p`. */
  function Cell(n: nat, p: nat): (c: nat)
    requires n > 0
    ensures c < n
  {
    if p < n then p else Cell(n, p - n)
  }

  /** What every advance in the source computes: step the register, wrapping only past `n`. */
  function Advance(n: nat, i: nat, k: nat): int
  {
    if i + k <= n then i + k else i + k - n
  }

  lemma {:induction false} AdvanceIndex(n: nat, p: nat, k: nat)
    requires n > 0 && k <= n
    ensures Index(n, p + k) == Advance(n, Index(n, p), k)
  {
    if p > n {
      AdvanceIndex(n, p - n, k);
    }
  }

  /** The byte `k` places after an index register. */
  function Locate(n: nat, i: nat, k: nat): int
  {
    if i + k < n then i + k else i + k - n
  }

  lemma {:induction false} LocateCell(n: nat, p: nat, k: nat)
    requires n > 0 && k < n
    ensures Cell(n, p + k) == Locate(n, Index(n, p), k)
  {
    if p > n {
      LocateCell(n, p - n, k);
    }
  }

  /** Positions less than a ring apart live in different cells. */
  lemma {:induction false} CellsDiffer(n: nat, p: nat, q: nat)
    requires n > 0 && p < q < p + n
    ensures Cell(n, p) != Cell(n, q)
  {
    if p >= n {
      CellsDiffer(n, p - n, q - n);
    }
  }

  /** The distance the two registers show, as seen by the consuming side. */
  function Used(n: nat, head: nat, tail: nat): int
  {
    if tail > head then tail - head else tail + n - head
  }

  /** The distance the two registers show, as seen by the producing side. */
  function Free(n: nat, head: nat, tail: nat): int
  {
    if head > tail then head - tail else head + n - tail
  }

  /** Positions whose registers can be told apart: less than a ring, or exactly a ring from the very start. */
  predicate Apart(n: nat, h: nat, t: nat)
  {
    h <= t && (t - h < n || (h == 0 && t == n))
  }

  /** The registers are equal only when nothing lies between them, and show the true distances. */
  lemma {:induction false} Distances(n: nat, h: nat, t: nat)
    requires n > 0 && Apart(n, h, t)
    ensures Index(n, h) == Index(n, t) <==> h == t
    ensures Free(n, Index(n, h), Index(n, t)) == n - (t - h)
    ensures h != t ==> Used(n, Index(n, h), Index(n, t)) == t - h
  {
    if h > n {
      Distances(n, h - n, t - n);
    } else if t > n {
      assert Index(n, t) == t - n;
    }
  }

  /** The `k` bytes from position `p` on, read out of the ring. */
  ghost function Window(b: seq<byte>, p: nat, k: nat): (w: seq<byte>)
    requires |b| > 0
    ensures |w| == k
    ensures forall j | 0 <= j < k :: w[j] == b[Cell(|b|, p + j)]
  {
    seq(k, j requires 0 <= j < k => b[Cell(|b|, p + j)])
  }

  lemma WindowSplit(b: seq<byte>, p: nat, k: nat, m: nat)
    requires |b| > 0
    ensures Window(b, p, k + m) == Window(b, p, k) + Window(b, p + k, m)
  {
    var whole, parts := Window(b, p, k + m), Window(b, p, k) + Window(b, p + k, m);
    forall j | 0 <= j < k + m
      ensures whole[j] == parts[j]
    {
      assert j >= k ==> p + j == p + k + (j - k);
    }
  }

  /** Rings that agree on the cells of a window hold the same window. */
  lemma WindowFrame(b: seq<byte>, b': seq<byte>, p: nat, k: nat)
    requires |b| == |b'| > 0
    requires forall q | p <= q < p + k :: b[Cell(|b|, q)] == b'[Cell(|b|, q)]
    ensures Window(b, p, k) == Window(b', p, k)
  {
    var w, w' := Window(b, p, k), Window(b', p, k);
    forall j | 0 <= j < k
      ensures w[j] == w'[j]
    {
      assert w[j] == b[Cell(|b|, p + j)];
    }
  }

  lemma Reassociate(x: seq<byte>, y: seq<byte>, z: seq<byte>)
    ensures (x + y) + z == x + (y + z)
  {
  }

  /** How far cell `c` lies after an index register. */
  function Offset(n: nat, i: nat, c: nat): int
  {
    if c >= i then c - i else c + n - i
  }

  /** The ring `b` after `bytes` are copied in from register `i` on, wrapping at the end. */
  ghost function Overlay(b: seq<byte>, i: nat, bytes: seq<byte>): (r: seq<byte>)
    requires |b| > 0 && i <= |b| && |bytes| <= |b|
    ensures |r| == |b|
    ensures forall c | 0 <= c < |b| ::
              r[c] == if Offset(|b|, i, c) < |bytes| then bytes[Offset(|b|, i, c)] else b[c]
  {
    seq(|b|, c requires 0 <= c < |b| =>
      if Offset(|b|, i, c) < |bytes| then bytes[Offset(|b|, i, c)] else b[c])
  }

  /** The copied bytes are read back from the position they were copied to. */
  lemma OverlayReadBack(b: seq<byte>, p: nat, bytes: seq<byte>)
    requires |b| > 0 && |bytes| < |b|
    ensures Window(Overlay(b, Index(|b|, p), bytes), p, |bytes|) == bytes
  {
    var n, i := |b|, Index(|b|, p);
    var r := Overlay(b, i, bytes);
    var w := Window(r, p, |bytes|);
    forall j | 0 <= j < |bytes|
      ensures w[j] == bytes[j]
    {
      LocateCell(n, p, j);
      var c := Locate(n, i, j);
      assert Offset(n, i, c) == j;
      assert w[j] == r[c];
    }
  }

  /** The `k` bytes before are left alone as long as the copy does not reach round to them. */
  lemma OverlayKeeps(b: seq<byte>, h: nat, k: nat, bytes: seq<byte>)
    requires k + |bytes| < |b|
    ensures Window(Overlay(b, Index(|b|, h + k), bytes), h, k) == Window(b, h, k)
  {
    var n, p, r := |b|, h + k, Overlay(b, Index(|b|, h + k), bytes);
    forall q | h <= q < p
      ensures r[Cell(n, q)] == b[Cell(n, q)]
    {
      var d := Offset(n, Index(n, p), Cell(n, q));
      if d < |bytes| {
        LocateCell(n, p, d);
        CellsDiffer(n, q, p + d);
      }
    }
    WindowFrame(r, b, h, k);
  }

  // ----- copying one byte at a time, in any order

  predicate AllDone(done: set<nat>, k: nat) { forall j | 0 <= j < k :: j in done }

  /** The bytes `done` of `code` lie in the ring from position `t` on. */
  ghost predicate Copied(b: seq<byte>, t: nat, code: seq<byte>, done: set<nat>)
    requires |b| > 0
  {
    forall j <- done :: j < |code| && b[Cell(|b|, t + j)] == code[j]
  }

  lemma CopiedAll(b: seq<byte>, t: nat, code: seq<byte>, done: set<nat>)
    requires |b| > 0 && Copied(b, t, code, done) && AllDone(done, |code|)
    ensures Window(b, t, |code|) == code
  {
    var w := Window(b, t, |code|);
    forall j | 0 <= j < |code|
      ensures w[j] == code[j]
    {
      assert j in done;
    }
  }

  lemma CellsApart(n: nat, h: nat, t: nat, p: nat, q: nat)
    requires n > 0 && Apart(n, h, t) && h <= p < t && h <= q < t && p != q
    ensures Cell(n, p) != Cell(n, q)
  {
    if p < q {
      CellsDiffer(n, p, q);
    } else {
      CellsDiffer(n, q, p);
    }
  }

  /** A byte copied behind `t` leaves the window before `t` and the bytes already copied alone. */
  lemma CopyByte(b: seq<byte>, h: nat, t: nat, code: seq<byte>, done: set<nat>, j: nat)
    requires |b| > 0 && h <= t && Apart(|b|, h, t + |code|) && j < |code|
    requires Copied(b, t, code, done)
    ensures forall q | h <= q < t :: Cell(|b|, q) != Cell(|b|, t + j)
    ensures var b' := b[Cell(|b|, t + j) := code[j]];
            Copied(b', t, code, done + {j}) && Window(b', h, t - h) == Window(b, h, t - h)
  {
    var n := |b|;
    var b' := b[Cell(n, t + j) := code[j]];
    forall q | h <= q < t
      ensures Cell(n, q) != Cell(n, t + j)
    {
      CellsApart(n, h, t + |code|, q, t + j);
    }
    WindowFrame(b', b, h, t - h);
    forall i <- done + {j}
      ensures i < |code| && b'[Cell(n, t + i)] == code[i]
    {
      if i != j {
        CellsApart(n, h, t + |code|, t + i, t + j);
      }
    }
  }

  /** What has been gathered so far is part of `bytes`. */
  ghost predicate Gathered(got: map<nat, byte>, bytes: seq<byte>)
  {
    forall j <- got :: j < |bytes| && got[j] == bytes[j]
  }

  predicate Complete(got: map<nat, byte>, k: nat) { forall j | 0 <= j < k :: j in got }

  function Collect(got: map<nat, byte>, k: nat): (b: seq<byte>)
    requires Complete(got, k)
    ensures |b| == k
  {
    seq(k, j requires 0 <= j < k => got[j])
  }

  lemma CollectAll(got: map<nat, byte>, bytes: seq<byte>)
    requires Gathered(got, bytes) && Complete(got, |bytes|)
    ensures Collect(got, |bytes|) == bytes
  {
  }
}
