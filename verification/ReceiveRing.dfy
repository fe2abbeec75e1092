/**
 The TCP receive ring (src/usnet/ringbuf.c:233-263, src/usnet/core.c:888-920) between its two
 processes: the network process stores in-order payload and advances `head`, the application
 reads and advances `data`.  Each copies byte by byte on a stale view of the other's register.
 */
module ReceiveRing {
  import opened Words
  import opened Ring

  datatype Writer = Idle | Storing(payload: seq<byte>, done: set<nat>)
  datatype Reader = Waiting | Fetching(k: nat, low: bool, got: map<nat, byte>)

  /**
   The shared memory, the private state of both processes and, as history that no step reads, every
   byte ever stored and fetched, the bytes in between, and the stream positions of the registers.
   */
  datatype State = State(
    bytes: seq<byte>, head: nat, data: nat, writer: Writer, reader: Reader,
    stored: seq<byte>, fetched: seq<byte>, unread: seq<byte>, h: nat, d: nat)

  datatype Action =
    | Offer(payload: seq<byte>)
    | Store(j: nat)
    | PublishHead
    | Request(count: nat)
    | Fetch(j: nat)
    | PublishData

  // ----- the network process

  /** The room usnet_insert_fragment computes from its snapshot of `data`. */
  function Avail(size: nat, data: nat, head: nat): int
  {
    if data > head then data - head else data + size - head
  }

  /** src/usnet/ringbuf.c:230-239 for an in-order segment (`data_off` is 0). */
  predicate Accepts(s: State, payload: seq<byte>)
  {
    |payload| <= |s.bytes| && |payload| <= Avail(|s.bytes|, s.data, s.head)
  }

  /** The segment fits with a byte to spare, or nothing has been read yet. */
  predicate Roomy(s: State, payload: seq<byte>)
  {
    |payload| < Avail(|s.bytes|, s.data, s.head) || s.data == 0
  }

  function StoreCell(size: nat, head: nat, len: nat, j: nat): int
  {
    var start := if head > size then head - size else head;
    var tailLen := size - start;
    if tailLen >= len || j < tailLen then start + j else j - tailLen
  }

  function NextHead(size: nat, head: nat, len: nat): int
  {
    var start := if head > size then head - size else head;
    if size - start >= len then head + len else head + len - size
  }

  predicate Offers(s: State, payload: seq<byte>, s': State)
  {
    && s.writer.Idle?
    && s' == if Accepts(s, payload) then s.(writer := Storing(payload, {})) else s
  }

  predicate Stores(s: State, j: nat, s': State)
  {
    && s.writer.Storing? && j < |s.writer.payload|
    && var c := StoreCell(|s.bytes|, s.head, |s.writer.payload|, j);
    && 0 <= c < |s.bytes|
    && s' == s.(bytes := s.bytes[c := s.writer.payload[j]],
                writer := Storing(s.writer.payload, s.writer.done + {j}))
  }

  predicate PublishesHead(s: State, s': State)
  {
    && s.writer.Storing? && AllDone(s.writer.done, |s.writer.payload|)
    && NextHead(|s.bytes|, s.head, |s.writer.payload|) >= 0
    && s' == s.(head := NextHead(|s.bytes|, s.head, |s.writer.payload|), writer := Idle,
                stored := s.stored + s.writer.payload, unread := s.unread + s.writer.payload,
                h := s.h + |s.writer.payload|)
  }

  // ----- the application process

  /** usnet_read with one snapshot of `head`: nothing to read, or how much and on which branch. */
  predicate Requests(s: State, count: nat, s': State)
  {
    && s.reader.Waiting?
    && s' == if s.head == s.data then s
             else if s.head > s.data then s.(reader := Fetching(Min(s.head - s.data, count), true, map[]))
             else if |s.bytes| + s.head - s.data < 0 then s
             else s.(reader := Fetching(Min(|s.bytes| + s.head - s.data, count), false, map[]))
  }

  function FetchCell(size: nat, data: nat, low: bool, j: nat): int
  {
    if low || j < size - data then data + j else j - (size - data)
  }

  function NextData(size: nat, data: nat, low: bool, k: nat): int
  {
    if low || k <= size - data then data + k else k - (size - data)
  }

  predicate Fetches(s: State, j: nat, s': State)
  {
    && s.reader.Fetching? && j < s.reader.k
    && var c := FetchCell(|s.bytes|, s.data, s.reader.low, j);
    && 0 <= c < |s.bytes|
    && s' == s.(reader := Fetching(s.reader.k, s.reader.low, s.reader.got[j := s.bytes[c]]))
  }

  predicate PublishesData(s: State, s': State)
  {
    && s.reader.Fetching? && Complete(s.reader.got, s.reader.k)
    && var d := NextData(|s.bytes|, s.data, s.reader.low, s.reader.k);
    && d >= 0
    && s' == s.(data := d, reader := Waiting, fetched := s.fetched + Collect(s.reader.got, s.reader.k),
                unread := if s.reader.k <= |s.unread| then s.unread[s.reader.k..] else [], d := s.d + s.reader.k)
  }

  predicate Step(s: State, a: Action, s': State)
  {
    match a
    case Offer(payload) => Offers(s, payload, s')
    case Store(j) => Stores(s, j, s')
    case PublishHead => PublishesHead(s, s')
    case Request(count) => Requests(s, count, s')
    case Fetch(j) => Fetches(s, j, s')
    case PublishData => PublishesData(s, s')
  }

  // ----- the invariant

  ghost predicate Registers(s: State)
  {
    && |s.bytes| > 0 && Apart(|s.bytes|, s.d, s.h)
    && s.head == Index(|s.bytes|, s.h) && s.data == Index(|s.bytes|, s.d)
    && Window(s.bytes, s.d, s.h - s.d) == s.unread
  }

  ghost predicate WriterInv(s: State)
    requires |s.bytes| > 0
  {
    s.writer.Storing? ==>
      && Apart(|s.bytes|, s.d, s.h + |s.writer.payload|)
      && Copied(s.bytes, s.h, s.writer.payload, s.writer.done)
  }

  /** What the reader has gathered are the next `k` unread bytes, or part of them. */
  ghost predicate Taken(got: map<nat, byte>, unread: seq<byte>, k: nat)
  {
    k <= |unread| && forall j <- got :: j < k && got[j] == unread[j]
  }

  lemma TakenAll(got: map<nat, byte>, unread: seq<byte>, k: nat)
    requires Taken(got, unread, k) && Complete(got, k)
    ensures Collect(got, k) + unread[k..] == unread
  {
  }

  ghost predicate ReaderInv(s: State)
  {
    s.reader.Fetching? ==>
      && (s.reader.low ==> s.data + s.reader.k <= |s.bytes|)
      && Taken(s.reader.got, s.unread, s.reader.k)
  }

  ghost predicate Inv(s: State)
  {
    && Registers(s) && WriterInv(s) && ReaderInv(s)
    && s.stored == s.fetched + s.unread
  }

  lemma StoreSplit(n: nat, p: nat, len: nat, j: nat)
    requires 0 < n && len <= n
    ensures NextHead(n, Index(n, p), len) == Index(n, p + len)
    ensures j < len ==> StoreCell(n, Index(n, p), len, j) == Cell(n, p + j)
  {
    AdvanceIndex(n, p, len);
    if j < len {
      LocateCell(n, p, j);
    }
  }

  lemma FetchSplit(n: nat, p: nat, low: bool, k: nat, j: nat)
    requires 0 < n && k <= n && (low ==> Index(n, p) + k <= n)
    ensures NextData(n, Index(n, p), low, k) == Index(n, p + k)
    ensures j < k ==> FetchCell(n, Index(n, p), low, j) == Cell(n, p + j)
  {
    AdvanceIndex(n, p, k);
    if j < k {
      LocateCell(n, p, j);
    }
  }

  /** A segment that leaves a byte free keeps the registers telling full from empty. */
  lemma OfferKeeps(s: State, payload: seq<byte>, s': State)
    requires Inv(s) && Offers(s, payload, s') && Roomy(s, payload)
    ensures Inv(s')
  {
    Distances(|s.bytes|, s.d, s.h);
  }

  /** Storing never touches an unread byte, nor memory outside the ring. */
  lemma NoUnreadByteOverwritten(s: State, j: nat)
    requires Inv(s) && s.writer.Storing? && j < |s.writer.payload|
    ensures var c := StoreCell(|s.bytes|, s.head, |s.writer.payload|, j);
            && c == Cell(|s.bytes|, s.h + j)
            && forall q | s.d <= q < s.h :: Cell(|s.bytes|, q) != c
  {
    StoreSplit(|s.bytes|, s.h, |s.writer.payload|, j);
    CopyByte(s.bytes, s.d, s.h, s.writer.payload, s.writer.done, j);
  }

  lemma StoreRegisters(s: State, j: nat, s': State)
    requires Inv(s) && Stores(s, j, s')
    ensures Registers(s') && WriterInv(s')
  {
    NoUnreadByteOverwritten(s, j);
    CopyByte(s.bytes, s.d, s.h, s.writer.payload, s.writer.done, j);
  }

  lemma StoreKeeps(s: State, j: nat, s': State)
    requires Inv(s) && Stores(s, j, s')
    ensures Inv(s')
  {
    StoreRegisters(s, j, s');
  }

  lemma StoredWindow(b: seq<byte>, d: nat, k: nat, unread: seq<byte>, payload: seq<byte>, done: set<nat>)
    requires |b| > 0 && Window(b, d, k) == unread
    requires Copied(b, d + k, payload, done) && AllDone(done, |payload|)
    ensures Window(b, d, k + |payload|) == unread + payload
  {
    CopiedAll(b, d + k, payload, done);
    WindowSplit(b, d, k, |payload|);
  }

  lemma PublishHeadKeeps(s: State, s': State)
    requires Inv(s) && PublishesHead(s, s')
    ensures Inv(s')
  {
    hide Index, Window, StoreCell, NextHead, Copied;
    StoreSplit(|s.bytes|, s.h, |s.writer.payload|, 0);
    StoredWindow(s.bytes, s.d, s.h - s.d, s.unread, s.writer.payload, s.writer.done);
    Reassociate(s.fetched, s.unread, s.writer.payload);
  }

  lemma RequestKeeps(s: State, count: nat, s': State)
    requires Inv(s) && Requests(s, count, s')
    ensures Inv(s')
  {
    Distances(|s.bytes|, s.d, s.h);
  }

  /** A read takes what is there, up to what its caller asked for, and nothing exactly from an empty ring. */
  lemma RequestTakes(s: State, count: nat, s': State)
    requires Inv(s) && Requests(s, count, s')
    ensures if s.h == s.d then s' == s
            else s'.reader.Fetching? && s'.reader.k == Min(s.h - s.d, count) && s' == s.(reader := s'.reader)
  {
    Distances(|s.bytes|, s.d, s.h);
  }

  /** A segment is taken exactly if it fits behind the unread bytes. */
  lemma OfferAnswers(s: State, payload: seq<byte>, s': State)
    requires Inv(s) && Offers(s, payload, s')
    ensures s' == if (s.h - s.d) + |payload| <= |s.bytes| then s.(writer := Storing(payload, {})) else s
  {
    Distances(|s.bytes|, s.d, s.h);
  }

  /** Either process can finish what it began: the writer publishes its bytes, the reader hands out the oldest ones. */
  lemma WriterFinishes(s: State) returns (s': State)
    requires Inv(s) && s.writer.Storing? && AllDone(s.writer.done, |s.writer.payload|)
    ensures PublishesHead(s, s') && s'.unread == s.unread + s.writer.payload && s'.head == Index(|s.bytes|, s.h + |s.writer.payload|)
  {
    var len := |s.writer.payload|;
    StoreSplit(|s.bytes|, s.h, len, 0);
    s' := s.(head := NextHead(|s.bytes|, s.head, len), writer := Idle,
             stored := s.stored + s.writer.payload, unread := s.unread + s.writer.payload, h := s.h + len);
  }

  lemma ReaderFinishes(s: State) returns (s': State)
    requires Inv(s) && s.reader.Fetching? && Complete(s.reader.got, s.reader.k)
    ensures PublishesData(s, s') && s'.fetched == s.fetched + s.unread[..s.reader.k] && s'.unread == s.unread[s.reader.k..]
  {
    var k := s.reader.k;
    FetchSplit(|s.bytes|, s.d, s.reader.low, k, 0);
    TakenAll(s.reader.got, s.unread, k);
    s' := s.(data := NextData(|s.bytes|, s.data, s.reader.low, k), reader := Waiting,
             fetched := s.fetched + Collect(s.reader.got, k), unread := s.unread[k..], d := s.d + k);
    assert Collect(s.reader.got, k) == s.unread[..k];
  }

  /** Every byte the reader copies is inside the ring and is the next unread one. */
  lemma FetchedByte(s: State, j: nat)
    requires Inv(s) && s.reader.Fetching? && j < s.reader.k
    ensures var c := FetchCell(|s.bytes|, s.data, s.reader.low, j);
            0 <= c < |s.bytes| && s.bytes[c] == s.unread[j]
  {
    FetchSplit(|s.bytes|, s.d, s.reader.low, s.reader.k, j);
    assert s.unread[j] == s.bytes[Cell(|s.bytes|, s.d + j)];
  }

  lemma FetchKeeps(s: State, j: nat, s': State)
    requires Inv(s) && Fetches(s, j, s')
    ensures Inv(s')
  {
    FetchedByte(s, j);
  }

  lemma PublishDataRegisters(s: State, s': State)
    requires Inv(s) && PublishesData(s, s')
    ensures Registers(s')
  {
    hide Index, Window, FetchCell, NextData, Copied;
    FetchSplit(|s.bytes|, s.d, s.reader.low, s.reader.k, 0);
    WindowTail(s.bytes, s.d, s.h - s.d, s.unread, s.reader.k);
  }

  lemma HistoryMoves(stored: seq<byte>, fetched: seq<byte>, unread: seq<byte>, got: map<nat, byte>, k: nat)
    requires stored == fetched + unread && Taken(got, unread, k) && Complete(got, k)
    ensures stored == (fetched + Collect(got, k)) + unread[k..]
  {
    TakenAll(got, unread, k);
    Reassociate(fetched, Collect(got, k), unread[k..]);
  }

  lemma PublishDataKeeps(s: State, s': State)
    requires Inv(s) && PublishesData(s, s')
    ensures Inv(s')
  {
    PublishDataRegisters(s, s');
    HistoryMoves(s.stored, s.fetched, s.unread, s.reader.got, s.reader.k);
  }

  lemma WindowTail(b: seq<byte>, d: nat, m: nat, unread: seq<byte>, k: nat)
    requires |b| > 0 && Window(b, d, m) == unread && k <= m
    ensures Window(b, d + k, m - k) == unread[k..]
  {
    WindowSplit(b, d, k, m - k);
  }

  lemma StepKeeps(s: State, a: Action, s': State)
    requires Inv(s) && Step(s, a, s') && (a.Offer? ==> Roomy(s, a.payload))
    ensures Inv(s')
  {
    match a
    case Offer(payload) => OfferKeeps(s, payload, s');
    case Store(j) => StoreKeeps(s, j, s');
    case PublishHead => PublishHeadKeeps(s, s');
    case Request(count) => RequestKeeps(s, count, s');
    case Fetch(j) => FetchKeeps(s, j, s');
    case PublishData => PublishDataKeeps(s, s');
  }

  ghost predicate Init(s: State)
  {
    |s.bytes| > 0 && s.head == s.data == 0 && s.h == s.d == 0 && s.writer.Idle? && s.reader.Waiting?
    && s.stored == s.fetched == s.unread == []
  }

  ghost predicate IsRun(run: seq<State>, acts: seq<Action>)
  {
    && |run| == |acts| + 1 && Init(run[0])
    && forall i | 0 <= i < |acts| :: Step(run[i], acts[i], run[i + 1])
  }

  /** No segment offered before moment `k` fills the ring. */
  ghost predicate RoomySoFar(run: seq<State>, acts: seq<Action>, k: nat)
    requires |run| == |acts| + 1 && k <= |acts|
  {
    forall i | 0 <= i < k :: acts[i].Offer? ==> Roomy(run[i], acts[i].payload)
  }

  lemma {:induction false} RunKeeps(run: seq<State>, acts: seq<Action>, i: nat)
    requires IsRun(run, acts) && i < |run| && RoomySoFar(run, acts, i)
    ensures Inv(run[i])
  {
    if i > 0 {
      RunKeeps(run, acts, i - 1);
      StepKeeps(run[i - 1], acts[i - 1], run[i]);
    }
  }

  /** The bytes the application reads are a prefix of the bytes stored, under every interleaving, until a segment fills the ring. */
  lemma FetchedIsPrefix(run: seq<State>, acts: seq<Action>, i: nat)
    requires IsRun(run, acts) && i < |run| && RoomySoFar(run, acts, i)
    ensures run[i].fetched <= run[i].stored
  {
    RunKeeps(run, acts, i);
  }

  /**
   The test `end_off > avail_len` admits one segment too many: an accepted segment that is not
   `Roomy` leaves equal registers over unread bytes, so the application sees an empty ring.
   */
  lemma FullLooksEmpty(s: State, payload: seq<byte>)
    requires Inv(s) && Accepts(s, payload) && payload != []
    ensures !Roomy(s, payload) <==> NextHead(|s.bytes|, s.head, |payload|) == s.data
  {
    var n, d, h, len := |s.bytes|, s.d, s.h, |payload|;
    Distances(n, d, h);
    StoreSplit(n, h, len, 0);
    if Roomy(s, payload) {
      Distances(n, d, h + len);
    } else {
      WholeLap(n, d);
    }
  }

  lemma WholeLap(n: nat, d: nat)
    requires n > 0 && d > 0
    ensures Index(n, d + n) == Index(n, d)
  {
  }

  // ----- a ring that was filled

  /** The run ends in state `s`. */
  ghost predicate RunTo(run: seq<State>, acts: seq<Action>, s: State)
  {
    IsRun(run, acts) && run[|acts|] == s
  }

  lemma Extend(run: seq<State>, acts: seq<Action>, s: State, a: Action, s': State) returns (run': seq<State>, acts': seq<Action>)
    requires RunTo(run, acts, s) && Step(s, a, s')
    ensures RunTo(run', acts', s')
  {
    run', acts' := run + [s'], acts + [a];
    forall i | 0 <= i < |acts'| ensures Step(run'[i], acts'[i], run'[i + 1]) { assert i < |acts| ==> Step(run[i], acts[i], run[i + 1]); }
  }

  /** One byte is offered, copied and published. */
  lemma StoreOne(run: seq<State>, acts: seq<Action>, s: State, x: byte, c: nat, s': State)
    returns (run': seq<State>, acts': seq<Action>)
    requires RunTo(run, acts, s) && s.writer.Idle? && Accepts(s, [x]) && c < |s.bytes| && c == StoreCell(|s.bytes|, s.head, 1, 0)
    requires s' == s.(bytes := s.bytes[c := x], head := s'.head, stored := s.stored + [x], unread := s.unread + [x], h := s.h + 1)
    requires s'.head == NextHead(|s.bytes|, s.head, 1)
    ensures RunTo(run', acts', s')
  {
    hide IsRun, RunTo, StoreCell, NextHead, Accepts;
    var s1 := s.(writer := Storing([x], {}));
    run', acts' := Extend(run, acts, s, Offer([x]), s1);
    var s2 := s.(bytes := s.bytes[c := x], writer := Storing([x], {0}));
    assert {} + {0} == {0};
    run', acts' := Extend(run', acts', s1, Store(0), s2);
    run', acts' := Extend(run', acts', s2, PublishHead, s');
  }

  /** One byte is asked for, copied and given up. */
  lemma ReadOne(run: seq<State>, acts: seq<Action>, s: State, x: byte, s': State)
    returns (run': seq<State>, acts': seq<Action>)
    requires RunTo(run, acts, s) && s.reader.Waiting? && s.data < s.head && s.data < |s.bytes| && s.bytes[s.data] == x && s.unread != []
    requires s' == s.(data := s.data + 1, fetched := s.fetched + [x], unread := s.unread[1..], d := s.d + 1)
    ensures RunTo(run', acts', s')
  {
    hide IsRun, RunTo;
    var s1 := s.(reader := Fetching(1, true, map[]));
    run', acts' := Extend(run, acts, s, Request(1), s1);
    var s2 := s.(reader := Fetching(1, true, map[0 := x]));
    run', acts' := Extend(run', acts', s1, Fetch(0), s2);
    assert Collect(map[0 := x], 1) == [x];
    run', acts' := Extend(run', acts', s2, PublishData, s');
  }

  /** A ring of two bytes: one byte is stored and read, two more fill it, so that it looks empty, ... */
  lemma Filled() returns (run: seq<State>, acts: seq<Action>)
    ensures RunTo(run, acts, State([21, 20], 1, 1, Idle, Waiting, [10, 20, 21], [10], [20, 21], 3, 1))
  {
    var s0 := State([0, 0], 0, 0, Idle, Waiting, [], [], [], 0, 0);
    run, acts := [s0], [];
    assert RunTo(run, acts, s0);
    hide IsRun, RunTo;
    var s1 := State([10, 0], 1, 0, Idle, Waiting, [10], [], [10], 1, 0);
    assert s0.bytes[0 := 10] == [10, 0];
    run, acts := StoreOne(run, acts, s0, 10, 0, s1);
    var s2 := State([10, 0], 1, 1, Idle, Waiting, [10], [10], [], 1, 1);
    run, acts := ReadOne(run, acts, s1, 10, s2);
    run, acts := FillTwo(run, acts, s2);
  }

  lemma FillTwo(run: seq<State>, acts: seq<Action>, s: State) returns (run': seq<State>, acts': seq<Action>)
    requires RunTo(run, acts, s) && s == State([10, 0], 1, 1, Idle, Waiting, [10], [10], [], 1, 1)
    ensures RunTo(run', acts', State([21, 20], 1, 1, Idle, Waiting, [10, 20, 21], [10], [20, 21], 3, 1))
  {
    hide IsRun, RunTo;
    var s1 := s.(writer := Storing([20, 21], {}));
    run', acts' := Extend(run, acts, s, Offer([20, 21]), s1);
    var s2 := s.(bytes := [10, 20], writer := Storing([20, 21], {0}));
    assert s.bytes[1 := 20] == [10, 20] && {} + {0} == {0};
    run', acts' := Extend(run', acts', s1, Store(0), s2);
    var s3 := s.(bytes := [21, 20], writer := Storing([20, 21], {0, 1}));
    assert [10, 20][0 := 21] == [21, 20] && {0} + {1} == {0, 1};
    run', acts' := Extend(run', acts', s2, Store(1), s3);
    run', acts' := Extend(run', acts', s3, PublishHead, State([21, 20], 1, 1, Idle, Waiting, [10, 20, 21], [10], [20, 21], 3, 1));
  }

  /** ... and a fourth overwrites the oldest unread byte and is read in its place. */
  lemma FilledRingLosesBytes() returns (run: seq<State>, acts: seq<Action>)
    ensures IsRun(run, acts) && run[|acts|].stored == [10, 20, 21, 30] && run[|acts|].fetched == [10, 30]
    ensures !(run[|acts|].fetched <= run[|acts|].stored)
  {
    run, acts := Filled();
    var s := State([21, 20], 1, 1, Idle, Waiting, [10, 20, 21], [10], [20, 21], 3, 1);
    var s1 := State([21, 30], 2, 1, Idle, Waiting, [10, 20, 21, 30], [10], [20, 21, 30], 4, 1);
    assert s.bytes[1 := 30] == [21, 30];
    run, acts := StoreOne(run, acts, s, 30, 1, s1);
    run, acts := ReadOne(run, acts, s1, 30, State([21, 30], 2, 2, Idle, Waiting, [10, 20, 21, 30], [10, 30], [21, 30], 4, 2));
    assert run[|acts|].fetched[1] != run[|acts|].stored[1];
  }

  /**
   usnet_read loads `head` once for the branch and again for the length.  With the writer moving
   between the two loads, the length is the distance to the second load exactly when `head` has
   not wrapped in between; otherwise it is negative.
   */
  lemma TwoLoads(n: nat, d: nat, p: nat, q: nat)
    requires n > 0 && d < p <= q && Apart(n, d, q) && Index(n, p) > Index(n, d)
    ensures Index(n, q) - Index(n, d) == q - d <==> Index(n, q) >= Index(n, p)
    ensures Index(n, q) < Index(n, p) ==> Index(n, q) - Index(n, d) < 0
  {
    Distances(n, d, q);
    Distances(n, d, p);
    Distances(n, p, q);
  }

  /** For instance in a ring of ten with three bytes read: eight stored at the first load, twelve at the second. */
  lemma WrappedSecondLoad()
    ensures Apart(10, 3, 12) && Index(10, 8) > Index(10, 3) && Index(10, 12) - Index(10, 3) == -1
  {
    assert Index(10, 12) == Index(10, 2);
  }

  /** How many bytes usnet_read copies into the caller's buffer of `count` bytes (src/usnet/core.c:892-917). */
  function BytesCopied(size: nat, data: nat, head: nat, count: nat): int
  {
    if head == data then 0
    else if head > data then Min(head - data, count)
    else
      var tailLen := size - data;
      var dataLen := Min(size + head - data, count);
      if dataLen <= tailLen then tailLen else tailLen + (dataLen - tailLen)
  }

  /**
   A read of wrapped data copies the whole end of the ring even where less was asked for: more than
   the caller's buffer holds, and more than the read reports, exactly if that buffer is smaller than
   the end of the ring.
   */
  lemma CopiesTooMuchIff(size: nat, data: nat, head: nat, count: nat)
    requires data <= size && head <= size
    ensures BytesCopied(size, data, head, count) > count <==> head < data && count < size - data
    ensures head < data ==> (BytesCopied(size, data, head, count) > Min(size + head - data, count) <==> count < size - data)
  {
  }

  /** For instance a read of two bytes with five at the end of a ring of ten. */
  lemma ReadOfTwoCopiesFive()
    ensures BytesCopied(10, 5, 3, 2) == 5
  {
  }
}
