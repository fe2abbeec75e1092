/**
 The memory pool (src/usnet/mempool.c): chunks of one size, and a free list whose nodes are runs of
 free chunks, written into the first chunk of each run.
 */
module Pool {
  const NULL: int := -1
  const SIZEOF_MEM_CHUNK: nat := 16

  /** The words at the start of a chunk: of a free run its length and the next run, of a live chunk anything. */
  datatype Chunk = Chunk(count: int, next: int)

  /** The free chunks `lo .. lo + len`. */
  datatype Run = Run(lo: int, len: int)

  predicate InRun(r: Run, c: int) { r.lo <= c < r.lo + r.len }

  ghost function RunCells(r: Run): set<int> { set c | r.lo <= c < r.lo + r.len && InRun(r, c) }

  ghost function Cells(runs: seq<Run>): set<int>
  {
    if runs == [] then {} else RunCells(runs[0]) + Cells(runs[1..])
  }

  /** The runs do not overlap. */
  ghost predicate Disjoint(runs: seq<Run>)
  {
    runs != [] ==> RunCells(runs[0]) !! Cells(runs[1..]) && Disjoint(runs[1..])
  }

  ghost function Total(runs: seq<Run>): int
  {
    if runs == [] then 0 else runs[0].len + Total(runs[1..])
  }

  /** Read from `p` on, the memory spells out the list `runs`. */
  ghost predicate Spells(mem: seq<Chunk>, p: int, runs: seq<Run>)
    decreases runs
  {
    if runs == [] then p == NULL
    else
      && p == runs[0].lo && 0 <= p && 0 < runs[0].len && p + runs[0].len <= |mem|
      && mem[p].count == runs[0].len && Spells(mem, mem[p].next, runs[1..])
  }

  /** What is written outside the free chunks cannot change the list. */
  lemma {:induction false} SpellsFrame(mem: seq<Chunk>, mem': seq<Chunk>, p: int, runs: seq<Run>)
    requires Spells(mem, p, runs) && |mem'| == |mem|
    requires forall c | 0 <= c < |mem| && c in Cells(runs) :: mem'[c] == mem[c]
    ensures Spells(mem', p, runs)
    decreases runs
  {
    if runs != [] {
      assert p in RunCells(runs[0]);
      SpellsFrame(mem, mem', mem[p].next, runs[1..]);
    }
  }

  lemma {:induction false} CellsInRange(mem: seq<Chunk>, p: int, runs: seq<Run>)
    requires Spells(mem, p, runs)
    ensures forall c <- Cells(runs) :: 0 <= c < |mem|
    decreases runs
  {
    if runs != [] {
      CellsInRange(mem, mem[p].next, runs[1..]);
    }
  }

  lemma {:induction false} RunSize(r: Run)
    requires 0 <= r.len
    ensures |RunCells(r)| == r.len
    decreases r.len
  {
    if r.len > 0 {
      var tail := Run(r.lo + 1, r.len - 1);
      RunSize(tail);
      assert RunCells(r) == {r.lo} + RunCells(tail);
    } else {
      assert RunCells(r) == {};
    }
  }

  lemma {:induction false} CellsSize(mem: seq<Chunk>, p: int, runs: seq<Run>)
    requires Spells(mem, p, runs) && Disjoint(runs)
    ensures |Cells(runs)| == Total(runs) && (runs != [] ==> Total(runs) > 0)
    decreases runs
  {
    if runs != [] {
      CellsSize(mem, mem[p].next, runs[1..]);
      RunSize(runs[0]);
    }
  }

  /** The list without the first chunk of its first run. */
  ghost function Shortened(runs: seq<Run>): seq<Run>
    requires runs != []
  {
    if runs[0].len > 1 then [Run(runs[0].lo + 1, runs[0].len - 1)] + runs[1..] else runs[1..]
  }

  lemma ShortenedCells(runs: seq<Run>)
    requires runs != [] && runs[0].len > 0 && Disjoint(runs)
    ensures Disjoint(Shortened(runs)) && Cells(Shortened(runs)) == Cells(runs) - {runs[0].lo}
    ensures Total(Shortened(runs)) == Total(runs) - 1 && runs[0].lo in Cells(runs)
  {
    hide RunCells, Cells, Disjoint, Total;
    var lo, tail := runs[0].lo, runs[1..];
    HeadCell(runs[0]);
    assert runs == [runs[0]] + tail;
    ConsRun(runs[0], tail);
    SplitCells(RunCells(runs[0]), Cells(tail), lo);
    if runs[0].len > 1 {
      ConsRun(Run(lo + 1, runs[0].len - 1), tail);
    }
  }

  lemma ConsRun(r: Run, tail: seq<Run>)
    ensures Cells([r] + tail) == RunCells(r) + Cells(tail) && Total([r] + tail) == r.len + Total(tail)
    ensures Disjoint([r] + tail) <==> RunCells(r) !! Cells(tail) && Disjoint(tail)
  {
    assert ([r] + tail)[1..] == tail;
  }

  lemma HeadCell(r: Run)
    requires r.len > 0
    ensures r.lo in RunCells(r) && RunCells(Run(r.lo + 1, r.len - 1)) == RunCells(r) - {r.lo}
    ensures r.len == 1 ==> RunCells(r) == {r.lo}
  {
    assert InRun(r, r.lo);
    forall c
      ensures c in RunCells(Run(r.lo + 1, r.len - 1)) <==> c in RunCells(r) && c != r.lo
    {
    }
    assert r.len == 1 ==> forall c :: c in RunCells(r) <==> c == r.lo;
  }

  lemma SplitCells(a: set<int>, b: set<int>, x: int)
    requires x in a && a !! b
    ensures (a - {x}) + b == (a + b) - {x} && (a - {x}) !! b && x in a + b
  {
  }

  /** How many chunks a pool of `totalSize` bytes gets: enough, and no more than needed. */
  lemma ChunkCount(chunkSize: nat, totalSize: nat)
    requires chunkSize > 0 && totalSize > 0
    ensures var n := (totalSize + (chunkSize - 1)) / chunkSize;
            n > 0 && n * chunkSize >= totalSize && (n - 1) * chunkSize < totalSize
  {
    var x := totalSize + (chunkSize - 1);
    var n := x / chunkSize;
    assert x == n * chunkSize + x % chunkSize;
    assert (n - 1) * chunkSize == n * chunkSize - chunkSize;
    assert n <= 0 ==> n * chunkSize <= 0;
  }

  class Pool {
    const chunkSize: nat
    const mem: array<Chunk>
    var freePtr: int
    var freeChunks: int

    ghost var runs: seq<Run>

    /** The chunks handed out: all that are in no free run. */
    ghost function Live(): set<int>
      reads this
    {
      RunCells(Run(0, mem.Length)) - Cells(runs)
    }

    ghost predicate Valid()
      reads this, mem
    {
      Spells(mem[..], freePtr, runs) && Disjoint(runs) && Total(runs) == freeChunks
    }

    constructor (chunkSize: nat, total: nat)
      requires total > 0
      ensures Valid() && fresh(mem) && mem.Length == total && freeChunks == total && Live() == {} && this.chunkSize == chunkSize
    {
      this.chunkSize := chunkSize;
      mem := new Chunk[total](_ => Chunk(0, 0));
      freePtr, freeChunks := 0, total;
      runs := [Run(0, total)];
      new;
      mem[0] := Chunk(total, NULL);
      assert runs[1..] == [];
      assert forall c | 0 <= c < total :: c in RunCells(runs[0]);
    }

    /** Free and live chunks always add up to all of them. */
    lemma Conservation()
      requires Valid()
      ensures 0 <= freeChunks && |Live()| + freeChunks == mem.Length
    {
      var all := RunCells(Run(0, mem.Length));
      RunSize(Run(0, mem.Length));
      CellsSize(mem[..], freePtr, runs);
      CellsInRange(mem[..], freePtr, runs);
      assert Cells(runs) <= all;
      assert |all| == |Live()| + |Cells(runs)| by { assert all == Live() + Cells(runs); }
    }

    /**
     usnet_mempool_allocate: a chunk that is not live, which becomes live; none if and only if
     every chunk is live.  Its assertion that the first run is not empty holds.
     */
    method Allocate() returns (p: int)
      requires Valid()
      modifies this, mem
      ensures Valid()
      ensures p == NULL <==> old(freeChunks) == 0
      ensures p == NULL ==> Live() == old(Live()) && freeChunks == old(freeChunks) && mem[..] == old(mem[..])
      ensures p != NULL ==> 0 <= p < mem.Length && p !in old(Live()) && Live() == old(Live()) + {p} && freeChunks == old(freeChunks) - 1
      ensures forall c <- old(Live()) :: 0 <= c < mem.Length && mem[c] == old(mem[c])
    {
      hide Disjoint, Cells, Shortened;
      CellsSize(mem[..], freePtr, runs);
      if freeChunks == 0 {
        return NULL;
      }
      p := freePtr;
      assert mem[p].count > 0;
      ShortenedCells(runs);
      CellsInRange(mem[..], freePtr, runs);
      Take();
    }

    method Take()
      requires Valid() && runs != []
      modifies this, mem
      ensures Valid() && runs == Shortened(old(runs))
      ensures forall c | 0 <= c < mem.Length && c !in old(Cells(runs)) :: mem[c] == old(mem[c])
    {
      if mem[freePtr].count > 1 {
        MoveRight();
      } else {
        NextRun();
      }
    }

    /** src/usnet/mempool.c:115-121: the rest of the run gets its own head. */
    method MoveRight()
      requires Valid() && runs != [] && runs[0].len > 1
      modifies this, mem
      ensures Valid() && runs == Shortened(old(runs))
      ensures forall c | 0 <= c < mem.Length && c !in old(Cells(runs)) :: mem[c] == old(mem[c])
    {
      ghost var was, rest := mem[..], runs[1..];
      var p := freePtr;
      ShortenedCells(runs);
      assert p in RunCells(runs[0]) && p + 1 in RunCells(runs[0]);
      mem[p] := mem[p].(count := mem[p].count - 1);
      mem[p + 1] := Chunk(mem[p].count, mem[p].next);
      freePtr, freeChunks := p + 1, freeChunks - 1;
      SpellsFrame(was, mem[..], was[p].next, rest);
      runs := Shortened(runs);
      assert runs[1..] == rest;
    }

    /** src/usnet/mempool.c:115-116, 124: the run is used up. */
    method NextRun()
      requires Valid() && runs != [] && runs[0].len == 1
      modifies this, mem
      ensures Valid() && runs == Shortened(old(runs))
      ensures forall c | 0 <= c < mem.Length && c !in old(Cells(runs)) :: mem[c] == old(mem[c])
    {
      ghost var was := mem[..];
      var p := freePtr;
      ShortenedCells(runs);
      assert p in RunCells(runs[0]);
      mem[p] := mem[p].(count := mem[p].count - 1);
      freePtr, freeChunks := mem[p].next, freeChunks - 1;
      SpellsFrame(was, mem[..], was[p].next, runs[1..]);
      runs := Shortened(runs);
    }

    /** usnet_mempool_free of a live chunk or of NULL. */
    method Free(p: int)
      requires Valid() && (p == NULL || p in Live())
      modifies this, mem
      ensures Valid()
      ensures p == NULL ==> Live() == old(Live()) && freeChunks == old(freeChunks)
      ensures p != NULL ==> Live() == old(Live()) - {p} && freeChunks == old(freeChunks) + 1
      ensures forall c <- Live() :: 0 <= c < mem.Length && mem[c] == old(mem[c])
    {
      if p == NULL {
        return;
      }
      ghost var was := mem[..];
      mem[p] := Chunk(1, freePtr);
      SpellsFrame(was, mem[..], freePtr, runs);
      freePtr := p;
      freeChunks := freeChunks + 1;
      ghost var rest := runs;
      runs := [Run(p, 1)] + runs;
      assert runs[1..] == rest && RunCells(runs[0]) == {p};
    }

    /** A client writes into a chunk it was given: the free list does not notice. */
    method ClientWrite(p: int, content: Chunk)
      requires Valid() && p in Live()
      modifies mem
      ensures Valid() && Live() == old(Live()) && mem[..] == old(mem[..])[p := content]
    {
      ghost var was := mem[..];
      mem[p] := content;
      SpellsFrame(was, mem[..], freePtr, runs);
    }
  }

  /** usn_mempool_create: refused exactly for a chunk too small to hold a list node or not a multiple of four. */
  method Create(chunkSize: nat, totalSize: nat) returns (mp: Pool?)
    requires totalSize > 0
    ensures mp == null <==> chunkSize < SIZEOF_MEM_CHUNK || chunkSize % 4 != 0
    ensures mp != null ==> fresh(mp) && fresh(mp.mem) && mp.Valid() && mp.Live() == {} && mp.freeChunks == mp.mem.Length
    ensures mp != null ==> mp.mem.Length * chunkSize >= totalSize && (mp.mem.Length - 1) * chunkSize < totalSize
  {
    if chunkSize < SIZEOF_MEM_CHUNK || chunkSize % 4 != 0 {
      return null;
    }
    ChunkCount(chunkSize, totalSize);
    mp := new Pool(chunkSize, (totalSize + (chunkSize - 1)) / chunkSize);
  }
}
