/**
 The shared-memory message queue (src/usnet/mq.c) with its two processes running at once.

 There is no lock.  The writer takes a snapshot of `head`, copies its frame one byte at a time
 in any order, and only then publishes `tail`; the reader takes a snapshot of `tail`, copies the
 header and then the payload one byte at a time in any order, and only then publishes `head`.
 Steps of the two interleave arbitrarily, so each side decides on a stale view of the other.
 */
module QueueProtocol {
  import opened Words
  import opened Ring
  import opened MessageQueue

  datatype Writer = Idle | Copying(f: Frame, done: set<nat>)

  datatype Reader =
    | Waiting
    | Heading(seen: nat, got: map<nat, byte>)
    | Paying(total: u32, flow: u32, got: map<nat, byte>)

  /**
   The shared memory, the private state of both processes and, as history, the frames accepted
   and delivered so far and the stream positions of `head`, `tail` and the reader's snapshot.
   No step reads the history.
   */
  datatype State = State(
    block: seq<byte>, head: nat, tail: nat, writer: Writer, reader: Reader,
    accepted: seq<Frame>, delivered: seq<Frame>, h: nat, t: nat, seenAt: nat)

  datatype Action =
    | WriterStart(f: Frame)
    | WriterCopy(j: nat)
    | WriterPublish
    | ReaderStart
    | ReaderCopyHead(j: nat)
    | ReaderParse(bufSize: u32)
    | ReaderCopyBody(j: nat)
    | ReaderPublish

  /** The cell byte `j` of a frame is copied to, by the three-way split of src/usnet/mq.c:282-325. */
  function WriterCell(n: nat, tail: nat, len: nat, j: nat): int
  {
    var tailLen := n - tail;
    if tailLen >= len + HEAD_SIZE then
      tail + j
    else if tailLen >= HEAD_SIZE then
      if j < HEAD_SIZE then tail + j
      else if j - HEAD_SIZE < tailLen - HEAD_SIZE then tail + HEAD_SIZE + (j - HEAD_SIZE)
      else (j - HEAD_SIZE) - (tailLen - HEAD_SIZE)
    else
      if j < tailLen then tail + j
      else if j < HEAD_SIZE then j - tailLen
      else (HEAD_SIZE - tailLen) + (j - HEAD_SIZE)
  }

  /** The new tail, by the same split. */
  function WriterTail(n: nat, tail: nat, len: nat): int
  {
    if n - tail >= len + HEAD_SIZE then tail + len + HEAD_SIZE
    else if n - tail >= HEAD_SIZE then tail + len + HEAD_SIZE - n
    else (HEAD_SIZE - (n - tail)) + len
  }

  /** The reader's split of a copy of `k` bytes from register `i` (src/usnet/mq.c:391-403, 419-431). */
  function ReaderCell(n: nat, i: int, k: nat, j: nat): int
  {
    if i + k > n then
      if j < n - i then i + j else j - (n - i)
    else
      i + j
  }

  function ReaderNext(n: nat, i: int, k: nat): int
  {
    if i + k > n then k - (n - i) else i + k
  }

  ghost predicate Init(s: State)
  {
    && 0 < |s.block| < 0x8000_0000
    && s.head == s.tail == s.h == s.t == s.seenAt == 0
    && s.writer.Idle? && s.reader.Waiting?
    && s.accepted == s.delivered == []
  }

  // ----- the writer's steps

  /** Snapshot of both registers and the test for room (src/usnet/mq.c:259-275). */
  predicate WriterStarts(s: State, f: Frame, s': State)
  {
    && s.writer.Idle?
    && s' == if Free(|s.block|, s.head, s.tail) <= |f.payload| + HEAD_SIZE then s
             else s.(writer := Copying(f, {}))
  }

  /** One byte of the frame, in no particular order (src/usnet/mq.c:277-325). */
  ghost predicate WriterCopies(s: State, j: nat, s': State)
  {
    && s.writer.Copying? && j < |Encode(s.writer.f)|
    && var c := WriterCell(|s.block|, s.tail, |s.writer.f.payload|, j);
    && 0 <= c < |s.block|
    && s' == s.(block := s.block[c := Encode(s.writer.f)[j]],
                writer := Copying(s.writer.f, s.writer.done + {j}))
  }

  /** The new tail becomes visible (src/usnet/mq.c:286, 304-305, 324). */
  ghost predicate WriterPublishes(s: State, s': State)
  {
    && s.writer.Copying? && AllDone(s.writer.done, |Encode(s.writer.f)|)
    && var len := |s.writer.f.payload|;
    && WriterTail(|s.block|, s.tail, len) >= 0
    && s' == s.(tail := WriterTail(|s.block|, s.tail, len), writer := Idle,
                accepted := s.accepted + [s.writer.f], t := s.t + len + HEAD_SIZE)
  }

  // ----- the reader's steps

  /** Snapshot of both registers and the test for emptiness (src/usnet/mq.c:375-388). */
  predicate ReaderStarts(s: State, s': State)
  {
    && s.reader.Waiting?
    && s' == if s.head == s.tail then s
             else s.(reader := Heading(s.tail, map[]), seenAt := s.t)
  }

  predicate ReaderCopiesHead(s: State, j: nat, s': State)
  {
    && s.reader.Heading? && j < HEAD_SIZE
    && var c := ReaderCell(|s.block|, s.head, HEAD_SIZE, j);
    && 0 <= c < |s.block|
    && s' == s.(reader := Heading(s.reader.seen, s.reader.got[j := s.block[c]]))
  }

  function HeaderFields(got: map<nat, byte>): (u32, u32)
    requires Complete(got, HEAD_SIZE)
  {
    var sHead := Collect(got, HEAD_SIZE);
    (LoadWord(sHead[..4]), LoadWord(sHead[4..]))
  }

  /** The header is decoded; a message too long for the caller's buffer is left in place. */
  predicate ReaderParses(s: State, bufSize: u32, s': State)
  {
    && s.reader.Heading? && Complete(s.reader.got, HEAD_SIZE)
    && var (total, flow) := HeaderFields(s.reader.got);
    && s' == if total - HEAD_SIZE > bufSize then s.(reader := Waiting)
             else s.(reader := Paying(total, flow, map[]))
  }

  predicate ReaderCopiesBody(s: State, j: nat, s': State)
  {
    && s.reader.Paying? && HEAD_SIZE + j < s.reader.total
    && var c := ReaderCell(|s.block|, ReaderNext(|s.block|, s.head, HEAD_SIZE), s.reader.total - HEAD_SIZE, j);
    && 0 <= c < |s.block|
    && s' == s.(reader := Paying(s.reader.total, s.reader.flow, s.reader.got[j := s.block[c]]))
  }

  /** The new head becomes visible (src/usnet/mq.c:425, 430). */
  predicate ReaderPublishes(s: State, s': State)
  {
    && s.reader.Paying? && HEAD_SIZE <= s.reader.total < HEAD_SIZE + 0x8000_0000
    && var len := s.reader.total - HEAD_SIZE;
    && Complete(s.reader.got, len)
    && var h := ReaderNext(|s.block|, ReaderNext(|s.block|, s.head, HEAD_SIZE), len);
    && h >= 0
    && s' == s.(head := h, reader := Waiting, h := s.h + s.reader.total,
                delivered := s.delivered + [Frame(Collect(s.reader.got, len), s.reader.flow)])
  }

  /** One step of either process. */
  ghost predicate Step(s: State, a: Action, s': State)
  {
    match a
    case WriterStart(f) => WriterStarts(s, f, s')
    case WriterCopy(j) => WriterCopies(s, j, s')
    case WriterPublish => WriterPublishes(s, s')
    case ReaderStart => ReaderStarts(s, s')
    case ReaderCopyHead(j) => ReaderCopiesHead(s, j, s')
    case ReaderParse(bufSize) => ReaderParses(s, bufSize, s')
    case ReaderCopyBody(j) => ReaderCopiesBody(s, j, s')
    case ReaderPublish => ReaderPublishes(s, s')
  }

  /** The frames accepted but not yet delivered. */
  ghost function Unread(s: State): seq<Frame>
    requires s.delivered <= s.accepted
  {
    s.accepted[|s.delivered|..]
  }

  ghost predicate WriterInv(s: State)
    requires |s.block| > 0
  {
    s.writer.Copying? ==>
      && s.t - s.h + |Encode(s.writer.f)| < |s.block|
      && Copied(s.block, s.t, Encode(s.writer.f), s.writer.done)
  }

  ghost predicate ReaderInv(s: State)
    requires |s.block| > 0 && s.delivered <= s.accepted
  {
    match s.reader
    case Waiting => true
    case Heading(seen, got) =>
      && Unread(s) != []
      && seen == Index(|s.block|, s.seenAt)
      && s.h + |Encode(Unread(s)[0])| <= s.seenAt <= s.t
      && Gathered(got, HeaderOf(Unread(s)[0]))
    case Paying(total, flow, got) =>
      && Unread(s) != []
      && total == |Encode(Unread(s)[0])| && flow == Unread(s)[0].flow
      && Gathered(got, Unread(s)[0].payload)
  }

  ghost predicate Inv(s: State)
  {
    && s.delivered <= s.accepted
    && Holds(s.block, s.head, s.tail, s.h, s.t, Unread(s))
    && WriterInv(s)
    && ReaderInv(s)
  }

  // ----- the two processes compute ring positions

  lemma WriterSplit(n: nat, p: nat, len: nat, j: nat)
    requires len + HEAD_SIZE < n && j < len + HEAD_SIZE
    ensures WriterCell(n, Index(n, p), len, j) == Cell(n, p + j)
    ensures WriterTail(n, Index(n, p), len) == Index(n, p + len + HEAD_SIZE)
  {
    LocateCell(n, p, j);
    AdvanceIndex(n, p, len + HEAD_SIZE);
  }

  lemma ReaderSplit(n: nat, p: nat, k: nat)
    requires k < n
    ensures ReaderNext(n, Index(n, p), k) == Index(n, p + k)
  {
    AdvanceIndex(n, p, k);
  }

  /** The register the reader publishes after a whole frame. */
  lemma ReaderRegister(n: nat, p: nat, len: nat)
    requires HEAD_SIZE + len < n
    ensures ReaderNext(n, ReaderNext(n, Index(n, p), HEAD_SIZE), len) == Index(n, p + HEAD_SIZE + len)
  {
    ReaderSplit(n, p, HEAD_SIZE);
    ReaderSplit(n, p + HEAD_SIZE, len);
  }

  /** A reader's copy of `k` bytes from position `p` reads the window there. */
  lemma ReaderLoads(b: seq<byte>, p: nat, k: nat, j: nat)
    requires j < k < |b|
    ensures var c := ReaderCell(|b|, Index(|b|, p), k, j);
            0 <= c < |b| && b[c] == Window(b, p, k)[j]
  {
    LocateCell(|b|, p, j);
  }

  // ----- copying, byte by byte

  /** A frame copied in full extends the unread stream once `tail` is published. */
  lemma PublishFrame(b: seq<byte>, h: nat, t: nat, fs: seq<Frame>, f: Frame, code: seq<byte>, done: set<nat>)
    requires |b| > 0 && h <= t && Window(b, h, t - h) == Stream(fs)
    requires code == Encode(f) && Copied(b, t, code, done) && AllDone(done, |code|)
    ensures Window(b, h, t - h + |code|) == Stream(fs + [f])
  {
    CopiedAll(b, t, code, done);
    WindowSplit(b, h, t - h, |code|);
    StreamAppend(fs, f);
  }

  // ----- each step keeps the invariant

  /** A copying writer never touches a cell that holds an unread byte, nor memory outside the ring. */
  lemma NoUnreadByteOverwritten(s: State, j: nat)
    requires Inv(s) && s.writer.Copying? && j < |Encode(s.writer.f)|
    ensures var c := WriterCell(|s.block|, s.tail, |s.writer.f.payload|, j);
            && c == Cell(|s.block|, s.t + j)
            && forall q | s.h <= q < s.t :: Cell(|s.block|, q) != c
  {
    WriterSplit(|s.block|, s.t, |s.writer.f.payload|, j);
    CopyByte(s.block, s.h, s.t, Encode(s.writer.f), s.writer.done, j);
  }

  lemma WriterCopyKeeps(s: State, j: nat, s': State)
    requires Inv(s) && WriterCopies(s, j, s')
    ensures Inv(s')
  {
    NoUnreadByteOverwritten(s, j);
    CopyByte(s.block, s.h, s.t, Encode(s.writer.f), s.writer.done, j);
    assert Unread(s') == Unread(s);
  }

  lemma WriterPublishKeeps(s: State, s': State)
    requires Inv(s) && WriterPublishes(s, s')
    ensures Inv(s')
  {
    var f := s.writer.f;
    WriterSplit(|s.block|, s.t, |f.payload|, 0);
    PublishFrame(s.block, s.h, s.t, Unread(s), f, Encode(f), s.writer.done);
    assert Unread(s') == Unread(s) + [f];
  }

  lemma WriterStartKeeps(s: State, f: Frame, s': State)
    requires Inv(s) && WriterStarts(s, f, s')
    ensures Inv(s')
  {
    Distances(|s.block|, s.h, s.t);
    assert Unread(s') == Unread(s);
  }

  lemma ReaderStartKeeps(s: State, s': State)
    requires Inv(s) && ReaderStarts(s, s')
    ensures Inv(s')
  {
    Distances(|s.block|, s.h, s.t);
    assert Unread(s') == Unread(s);
    if Unread(s) != [] {
      FrontFrame(s.block, s.h, s.t - s.h, Unread(s));
    }
  }

  /** The reader's header copy stays in the ring and finds the header of the oldest unread frame. */
  lemma HeadByte(s: State, j: nat)
    requires Inv(s) && s.reader.Heading? && j < HEAD_SIZE
    ensures var c := ReaderCell(|s.block|, s.head, HEAD_SIZE, j);
            0 <= c < |s.block| && s.block[c] == HeaderOf(Unread(s)[0])[j]
  {
    FrontFrame(s.block, s.h, s.t - s.h, Unread(s));
    ReaderLoads(s.block, s.h, HEAD_SIZE, j);
  }

  /** The reader's payload copy stays in the ring and finds the payload of the oldest unread frame. */
  lemma BodyByte(s: State, j: nat)
    requires Inv(s) && s.reader.Paying? && HEAD_SIZE + j < s.reader.total
    ensures var i := ReaderNext(|s.block|, s.head, HEAD_SIZE);
            var c := ReaderCell(|s.block|, i, s.reader.total - HEAD_SIZE, j);
            0 <= c < |s.block| && s.block[c] == Unread(s)[0].payload[j]
  {
    hide Index, ReaderCell, ReaderNext, Stream;
    FrontFrame(s.block, s.h, s.t - s.h, Unread(s));
    ReaderSplit(|s.block|, s.h, HEAD_SIZE);
    ReaderLoads(s.block, s.h + HEAD_SIZE, |Unread(s)[0].payload|, j);
  }

  lemma ReaderCopyHeadKeeps(s: State, j: nat, s': State)
    requires Inv(s) && ReaderCopiesHead(s, j, s')
    ensures Inv(s')
  {
    HeadByte(s, j);
    assert Unread(s') == Unread(s);
  }

  lemma ReaderCopyBodyKeeps(s: State, j: nat, s': State)
    requires Inv(s) && ReaderCopiesBody(s, j, s')
    ensures Inv(s')
  {
    BodyByte(s, j);
    assert Unread(s') == Unread(s);
  }

  /** The header the reader decodes is the one written, and the source's own assertion holds. */
  lemma ParsedHeader(s: State)
    requires Inv(s) && s.reader.Heading? && Complete(s.reader.got, HEAD_SIZE)
    ensures HeaderFields(s.reader.got) == (|Encode(Unread(s)[0])|, Unread(s)[0].flow)
    ensures HeaderFields(s.reader.got).0 <= Used(|s.block|, s.head, s.reader.seen)
  {
    var f := Unread(s)[0];
    CollectAll(s.reader.got, HeaderOf(f));
    HeaderReadBack(|Encode(f)|, f.flow);
    Distances(|s.block|, s.h, s.seenAt);
  }

  lemma ReaderParseKeeps(s: State, bufSize: u32, s': State)
    requires Inv(s) && ReaderParses(s, bufSize, s')
    ensures Inv(s')
  {
    ParsedHeader(s);
    assert Unread(s') == Unread(s);
  }

  /**
   The reader's answer to a decoded header: a frame whose payload is longer than the caller's buffer
   stays in the queue, and any other is going to be copied in its whole length.
   */
  lemma ReaderAnswers(s: State, bufSize: u32, s': State)
    requires Inv(s) && ReaderParses(s, bufSize, s')
    ensures var f := Unread(s)[0];
            s' == s.(reader := if |f.payload| > bufSize then Waiting else Paying(|f.payload| + 8, f.flow, map[]))
  {
    ParsedHeader(s);
  }

  /** The reader starts exactly if a frame is unread. */
  lemma ReaderSees(s: State, s': State)
    requires Inv(s) && ReaderStarts(s, s')
    ensures if Unread(s) == [] then s' == s else s'.reader == Heading(s.tail, map[])
  {
    Distances(|s.block|, s.h, s.t);
    if Unread(s) != [] {
      FrontFrame(s.block, s.h, s.t - s.h, Unread(s));
    }
  }

  /** The writer takes a frame on exactly if, with its header, it leaves a byte free behind the unread ones. */
  lemma WriterAnswers(s: State, f: Frame, s': State)
    requires Inv(s) && WriterStarts(s, f, s')
    ensures s' == if (s.t - s.h) + (|f.payload| + 8) < |s.block| then s.(writer := Copying(f, {})) else s
  {
    Distances(|s.block|, s.h, s.t);
  }

  lemma ReaderPublishKeeps(s: State, s': State)
    requires Inv(s) && ReaderPublishes(s, s')
    ensures Inv(s')
    ensures s'.delivered == s.accepted[..|s.delivered| + 1]
  {
    var n, f := |s.block|, Unread(s)[0];
    CollectAll(s.reader.got, f.payload);
    DropFrame(s.block, s.head, s.tail, s.h, s.t, Unread(s));
    ReaderRegister(n, s.h, |f.payload|);
    assert Unread(s') == Unread(s)[1..];
  }

  lemma StepKeeps(s: State, a: Action, s': State)
    requires Inv(s) && Step(s, a, s')
    ensures Inv(s')
  {
    match a
    case WriterStart(f) => WriterStartKeeps(s, f, s');
    case WriterCopy(j) => WriterCopyKeeps(s, j, s');
    case WriterPublish => WriterPublishKeeps(s, s');
    case ReaderStart => ReaderStartKeeps(s, s');
    case ReaderCopyHead(j) => ReaderCopyHeadKeeps(s, j, s');
    case ReaderParse(bufSize) => ReaderParseKeeps(s, bufSize, s');
    case ReaderCopyBody(j) => ReaderCopyBodyKeeps(s, j, s');
    case ReaderPublish => ReaderPublishKeeps(s, s');
  }

  // ----- whole runs

  /** `run` is a behaviour of the two processes: from the start, one step after another. */
  ghost predicate IsRun(run: seq<State>, acts: seq<Action>)
  {
    && |run| == |acts| + 1
    && Init(run[0])
    && forall i | 0 <= i < |acts| :: Step(run[i], acts[i], run[i + 1])
  }

  lemma {:induction false} RunKeeps(run: seq<State>, acts: seq<Action>, i: nat)
    requires IsRun(run, acts) && i < |run|
    ensures Inv(run[i])
  {
    if i > 0 {
      RunKeeps(run, acts, i - 1);
      StepKeeps(run[i - 1], acts[i - 1], run[i]);
    }
  }

  /**
   The queue is a FIFO under every interleaving: at every moment of every run the frames
   delivered are a prefix of the frames accepted, and an empty ring means none is missing.
   */
  lemma DeliveredIsPrefix(run: seq<State>, acts: seq<Action>, i: nat)
    requires IsRun(run, acts) && i < |run|
    ensures run[i].delivered <= run[i].accepted
    ensures run[i].head == run[i].tail ==> run[i].delivered == run[i].accepted
  {
    RunKeeps(run, acts, i);
    Distances(|run[i].block|, run[i].h, run[i].t);
  }

  // ----- neither process waits for the other

  /** The bytes of a `k`-byte copy still missing. */
  ghost function Missing(got: map<nat, byte>, k: nat): set<nat>
  {
    set j: nat | j < k && j !in got
  }

  /** How many steps of its own the reader still needs to deliver the oldest unread frame. */
  ghost function ReaderRank(s: State): nat
    requires s.delivered <= s.accepted && Unread(s) != []
  {
    var len := |Unread(s)[0].payload|;
    match s.reader
    case Waiting => len + HEAD_SIZE + 3
    case Heading(_, got) => len + |Missing(got, HEAD_SIZE)| + 2
    case Paying(_, _, got) => |Missing(got, len)| + 1
  }

  lemma OneFewer(got: map<nat, byte>, k: nat, j: nat, b: byte)
    requires j in Missing(got, k)
    ensures |Missing(got[j := b], k)| == |Missing(got, k)| - 1
  {
    assert Missing(got[j := b], k) == Missing(got, k) - {j};
  }

  lemma {:induction false} AtMost(k: nat)
    ensures |Missing(map[], k)| == k
  {
    if k == 0 {
      assert Missing(map[], 0) == {};
    } else {
      AtMost(k - 1);
      assert Missing(map[], k) == Missing(map[], k - 1) + {k - 1};
    }
  }

  /**
   Wait-freedom of the reader: whatever the writer is doing, the reader has a step of its own,
   and within `ReaderRank` such steps the oldest unread frame is delivered.
   */
  lemma ReaderAdvances(s: State, bufSize: u32) returns (a: Action, s': State)
    requires Inv(s) && Unread(s) != [] && |Unread(s)[0].payload| <= bufSize
    ensures Step(s, a, s') && s'.writer == s.writer && s'.accepted == s.accepted
    ensures || s'.delivered == s.accepted[..|s.delivered| + 1]
            || (s'.delivered == s.delivered && ReaderRank(s') < ReaderRank(s))
  {
    var f := Unread(s)[0];
    match s.reader
    case Waiting =>
      Distances(|s.block|, s.h, s.t);
      AtMost(HEAD_SIZE);
      a, s' := ReaderStart, s.(reader := Heading(s.tail, map[]), seenAt := s.t);
    case Heading(seen, got) =>
      if j :| j in Missing(got, HEAD_SIZE) {
        HeadByte(s, j);
        var c := ReaderCell(|s.block|, s.head, HEAD_SIZE, j);
        OneFewer(got, HEAD_SIZE, j, s.block[c]);
        a, s' := ReaderCopyHead(j), s.(reader := Heading(seen, got[j := s.block[c]]));
      } else {
        forall j: nat | j < HEAD_SIZE ensures j in got { assert j !in Missing(got, HEAD_SIZE); }
        ParsedHeader(s);
        AtMost(|f.payload|);
        a, s' := ReaderParse(bufSize), s.(reader := Paying(|Encode(f)|, f.flow, map[]));
      }
    case Paying(total, flow, got) =>
      var len := |f.payload|;
      if j :| j in Missing(got, len) {
        BodyByte(s, j);
        var c := ReaderCell(|s.block|, ReaderNext(|s.block|, s.head, HEAD_SIZE), len, j);
        OneFewer(got, len, j, s.block[c]);
        a, s' := ReaderCopyBody(j), s.(reader := Paying(total, flow, got[j := s.block[c]]));
      } else {
        forall j: nat | j < len ensures j in got { assert j !in Missing(got, len); }
        a := ReaderPublish;
        s' := Published(s);
        ReaderPublishKeeps(s, s');
      }
  }

  lemma Published(s: State) returns (s': State)
    requires Inv(s) && s.reader.Paying? && Complete(s.reader.got, s.reader.total - HEAD_SIZE)
    ensures ReaderPublishes(s, s')
  {
    var n, len := |s.block|, s.reader.total - HEAD_SIZE;
    FrontFrame(s.block, s.h, s.t - s.h, Unread(s));
    ReaderRegister(n, s.h, len);
    var h := ReaderNext(n, ReaderNext(n, s.head, HEAD_SIZE), len);
    s' := s.(head := h, reader := Waiting, h := s.h + s.reader.total,
             delivered := s.delivered + [Frame(Collect(s.reader.got, len), s.reader.flow)]);
  }

  /** How many steps of its own the writer still needs to have its frame accepted. */
  ghost function WriterRank(s: State): nat
    requires s.writer.Copying?
  {
    |Uncopied(s.writer.done, |Encode(s.writer.f)|)| + 1
  }

  ghost function Uncopied(done: set<nat>, k: nat): set<nat>
  {
    set j: nat | j < k && j !in done
  }

  /**
   Wait-freedom of the writer: it has its answer in one step, and once it copies, whatever the reader
   is doing, it has a step of its own and within `WriterRank` such steps the frame is accepted.
   */
  lemma WriterAdvances(s: State, f: Frame) returns (a: Action, s': State)
    requires Inv(s)
    ensures Step(s, a, s') && s'.reader == s.reader && s'.delivered == s.delivered
    ensures s.writer.Idle? ==>
              (if Free(|s.block|, s.head, s.tail) <= |f.payload| + HEAD_SIZE then s' == s
               else s'.writer == Copying(f, {}) && s'.accepted == s.accepted)
    ensures s.writer.Copying? ==>
              || s'.accepted == s.accepted + [s.writer.f]
              || (s'.accepted == s.accepted && s'.writer.Copying? && WriterRank(s') < WriterRank(s))
  {
    match s.writer
    case Idle =>
      a := WriterStart(f);
      s' := if Free(|s.block|, s.head, s.tail) <= |f.payload| + HEAD_SIZE then s else s.(writer := Copying(f, {}));
    case Copying(g, done) =>
      var code := Encode(g);
      if j :| j in Uncopied(done, |code|) {
        NoUnreadByteOverwritten(s, j);
        var c := WriterCell(|s.block|, s.tail, |g.payload|, j);
        assert Uncopied(done + {j}, |code|) == Uncopied(done, |code|) - {j};
        a, s' := WriterCopy(j), s.(block := s.block[c := code[j]], writer := Copying(g, done + {j}));
      } else {
        forall j | 0 <= j < |code| ensures j in done { assert j !in Uncopied(done, |code|); }
        WriterSplit(|s.block|, s.t, |g.payload|, 0);
        var len := |g.payload|;
        a, s' := WriterPublish, s.(tail := WriterTail(|s.block|, s.tail, len), writer := Idle,
                                   accepted := s.accepted + [g], t := s.t + len + HEAD_SIZE);
      }
  }
}
