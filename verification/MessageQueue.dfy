/**
 The shared-memory message queue (src/usnet/mq.c), one side running at a time.

 Each message is stored as an 8-byte header (total length, flow) followed by its payload.
 Either part may straddle the end of the ring, in the writer and in the reader.
 */
module MessageQueue {
  import opened Words
  import opened Ring

  const HEAD_SIZE: nat := 8

  datatype RawFrame = Frame(payload: seq<byte>, flow: u32)

  /** A message whose length fits the source's `int32_t data_len`. */
  type Frame = f: RawFrame | |f.payload| < 0x8000_0000 witness Frame([], 0)

  ghost function Header(total: u32, flow: u32): (h: seq<byte>)
    ensures |h| == HEAD_SIZE
  {
    StoreWord(total) + StoreWord(flow)
  }

  /** The bytes a frame occupies in the ring. */
  ghost function Encode(f: Frame): (b: seq<byte>)
    ensures |b| == |f.payload| + HEAD_SIZE
  {
    HeaderOf(f) + f.payload
  }

  lemma HeaderReadBack(total: u32, flow: u32)
    ensures LoadWord(Header(total, flow)[..4]) == total
    ensures LoadWord(Header(total, flow)[4..]) == flow
  {
    var h := Header(total, flow);
    assert h[..4] == StoreWord(total) && h[4..] == StoreWord(flow);
  }

  ghost function HeaderOf(f: Frame): (h: seq<byte>)
    ensures |h| == HEAD_SIZE
  {
    Header(|f.payload| + HEAD_SIZE, f.flow)
  }

  /** The byte stream of a queue of frames. */
  ghost function Stream(fs: seq<Frame>): (b: seq<byte>)
    ensures fs == [] <==> b == []
  {
    if fs == [] then [] else Encode(fs[0]) + Stream(fs[1..])
  }

  lemma {:induction false} StreamAppend(fs: seq<Frame>, f: Frame)
    ensures Stream(fs + [f]) == Stream(fs) + Encode(f)
  {
    if fs == [] {
      assert fs + [f] == [f];
    } else {
      assert (fs + [f])[1..] == fs[1..] + [f];
      StreamAppend(fs[1..], f);
    }
  }

  /** Registers `head` and `tail` delimit exactly the frames `fs`, from stream position `h` to `t`. */
  ghost predicate Holds(b: seq<byte>, head: nat, tail: nat, h: nat, t: nat, fs: seq<Frame>)
  {
    && 0 < |b| < 0x8000_0000
    && h <= t < h + |b|
    && head == Index(|b|, h)
    && tail == Index(|b|, t)
    && Window(b, h, t - h) == Stream(fs)
  }

  lemma QueueBytes(b: seq<byte>, h: nat, k: nat, code: seq<byte>)
    requires k + |code| < |b|
    ensures var b' := Overlay(b, Index(|b|, h + k), code);
            Window(b', h, k + |code|) == Window(b, h, k) + code
  {
    var b' := Overlay(b, Index(|b|, h + k), code);
    WindowSplit(b', h, k, |code|);
    OverlayKeeps(b, h, k, code);
    OverlayReadBack(b, h + k, code);
  }

  /** Overlaying a frame behind `tail` queues it behind the others. */
  lemma QueueFrame(b: seq<byte>, head: nat, tail: nat, h: nat, t: nat, fs: seq<Frame>, f: Frame, code: seq<byte>)
    requires Holds(b, head, tail, h, t, fs)
    requires code == Encode(f) && |code| + t - h < |b|
    ensures Holds(Overlay(b, tail, code), head, Advance(|b|, tail, |code|), h, t + |code|, fs + [f])
  {
    QueueBytes(b, h, t - h, code);
    StreamAppend(fs, f);
    AdvanceIndex(|b|, t, |code|);
  }

  lemma SplitBytes(b: seq<byte>, h: nat, front: seq<byte>, rest: seq<byte>)
    requires |b| > 0 && Window(b, h, |front| + |rest|) == front + rest
    ensures Window(b, h, |front|) == front
    ensures Window(b, h + |front|, |rest|) == rest
  {
    WindowSplit(b, h, |front|, |rest|);
    var x, y := Window(b, h, |front|), Window(b, h + |front|, |rest|);
    assert x == (x + y)[..|front|] && y == (x + y)[|front|..];
    assert front == (front + rest)[..|front|] && rest == (front + rest)[|front|..];
  }

  /** The oldest frame of an unread stream is found header first, payload next, the rest behind it. */
  lemma FrontFrame(b: seq<byte>, h: nat, k: nat, fs: seq<Frame>)
    requires |b| > 0 && fs != [] && Window(b, h, k) == Stream(fs)
    ensures var len := |fs[0].payload|;
            && HEAD_SIZE + len <= k
            && Window(b, h, HEAD_SIZE) == HeaderOf(fs[0])
            && Window(b, h + HEAD_SIZE, len) == fs[0].payload
            && Window(b, h + HEAD_SIZE + len, k - HEAD_SIZE - len) == Stream(fs[1..])
  {
    var payload, rest := fs[0].payload, Stream(fs[1..]);
    var header := HeaderOf(fs[0]);
    Reassociate(header, payload, rest);
    var body := payload + rest;
    assert |header| + |body| == k;
    SplitBytes(b, h, header, body);
    SplitBytes(b, h + HEAD_SIZE, payload, rest);
  }

  /** Moving `head` past the oldest frame leaves the others queued. */
  lemma DropFrame(b: seq<byte>, head: nat, tail: nat, h: nat, t: nat, fs: seq<Frame>)
    requires Holds(b, head, tail, h, t, fs) && fs != []
    ensures var len := |fs[0].payload|;
            var h' := h + HEAD_SIZE + len;
            && Window(b, h + HEAD_SIZE, len) == fs[0].payload
            && Holds(b, Index(|b|, h'), tail, h', t, fs[1..])
  {
    FrontFrame(b, h, t - h, fs);
  }

  /** The C library call: `src` to `dst[off..]`. */
  method MemCpy(dst: array<byte>, off: nat, src: seq<byte>)
    requires off + |src| <= dst.Length
    modifies dst
    ensures forall c | 0 <= c < dst.Length ::
              dst[c] == if off <= c < off + |src| then src[c - off] else old(dst[c])
  {
    for k := 0 to |src|
      invariant forall c | 0 <= c < dst.Length ::
                  dst[c] == if off <= c < off + k then src[c - off] else old(dst[c])
    {
      dst[off + k] := src[k];
    }
  }

  class ShmMq {
    const block: array<byte>
    var head: u32
    var tail: u32
    var enqueued: u32
    var dequeued: u32

    /** Stream positions of `head` and `tail`, and the frames between them. */
    ghost var consumed: nat
    ghost var produced: nat
    ghost var frames: seq<Frame>

    ghost predicate Valid()
      reads this, block
    {
      Holds(block[..], head, tail, consumed, produced, frames)
    }

    /** src/usnet/mq.c:207-232, on freshly zeroed shared memory. */
    constructor (block: array<byte>)
      requires 0 < block.Length < 0x8000_0000
      ensures Valid() && this.block == block
      ensures frames == [] && enqueued == 0 && dequeued == 0
    {
      this.block := block;
      head, tail, enqueued, dequeued := 0, 0, 0, 0;
      consumed, produced, frames := 0, 0, [];
    }

    /** Copies a frame behind `tail` with the source's three-way split. */
    method CopyIn(sHead: seq<byte>, data: seq<byte>)
      requires tail <= block.Length && |sHead| == HEAD_SIZE
      requires 0 < block.Length < 0x8000_0000 && |data| + HEAD_SIZE < block.Length
      modifies block, `tail
      ensures block[..] == Overlay(old(block[..]), old(tail), sHead + data)
      ensures tail == Advance(block.Length, old(tail), |data| + HEAD_SIZE)
    {
      var tailLen := block.Length - tail;
      if tailLen >= |data| + HEAD_SIZE {
        MemCpy(block, tail, sHead);
        MemCpy(block, tail + HEAD_SIZE, data);
        tail := tail + |data| + HEAD_SIZE;
      } else if tailLen >= HEAD_SIZE {
        MemCpy(block, tail, sHead);
        var firstLen := tailLen - HEAD_SIZE;
        MemCpy(block, tail + HEAD_SIZE, data[..firstLen]);
        MemCpy(block, 0, data[firstLen..]);
        tail := tail + |data| + HEAD_SIZE - block.Length;
      } else {
        MemCpy(block, tail, sHead[..tailLen]);
        var secondLen := HEAD_SIZE - tailLen;
        MemCpy(block, 0, sHead[tailLen..]);
        MemCpy(block, secondLen, data);
        tail := secondLen + |data|;
      }
    }

    /** The accepting half of usnet_write_mq. */
    method Append(data: seq<byte>, flow: u32)
      requires Valid() && |Stream(frames)| + |data| + HEAD_SIZE < block.Length
      modifies block, `tail, `produced, `frames
      ensures Valid() && frames == old(frames) + [Frame(data, flow)]
    {
      ghost var f: Frame := Frame(data, flow);
      var sHead := WordBytes(|data| + HEAD_SIZE) + WordBytes(flow);
      StoreIsUnique(|data| + HEAD_SIZE);
      StoreIsUnique(flow);
      QueueFrame(block[..], head, tail, consumed, produced, frames, f, sHead + data);
      CopyIn(sHead, data);
      produced, frames := produced + |data| + HEAD_SIZE, frames + [f];
    }

    /** usnet_write_mq: accepted exactly when the frame leaves a byte free; a refusal changes nothing. */
    method Write(data: seq<byte>, flow: u32) returns (ret: int)
      requires Valid() && |data| < 0x8000_0000
      modifies block, `tail, `enqueued, `produced, `frames
      ensures Valid()
      ensures ret == -1 || ret == 0 || ret == 1
      ensures ret >= 0 <==> |Stream(old(frames))| + |data| + HEAD_SIZE < block.Length
      ensures ret == -1 ==> frames == old(frames) && tail == old(tail) && block[..] == old(block[..])
      ensures ret == -1 ==> enqueued == old(enqueued)
      ensures ret >= 0 ==> frames == old(frames) + [Frame(data, flow)]
      ensures ret >= 0 ==> enqueued == Wrap32(old(enqueued) + 1)
      ensures ret == 1 <==> ret >= 0 && old(frames) == []
    {
      var freeLen := if head > tail then head - tail else head + block.Length - tail;
      var totalLen := |data| + HEAD_SIZE;
      Distances(block.Length, consumed, produced);
      if freeLen <= totalLen {
        return -1;
      }
      Append(data, flow);
      enqueued := Wrap32(enqueued + 1);
      return if freeLen == block.Length then 1 else 0;
    }

    /** Copies `k` bytes out from register `i`, split at the end of the ring as the reader does. */
    method CopyOut(i: nat, k: nat, ghost p: nat) returns (buf: seq<byte>, i': nat)
      requires k < block.Length && i == Index(block.Length, p)
      ensures buf == Window(block[..], p, k) && i' == Index(block.Length, p + k)
    {
      ghost var n, w := block.Length, Window(block[..], p, k);
      if i + k > block.Length {
        var firstSize := block.Length - i;
        buf := block[i..] + block[..k - firstSize];
        i' := k - firstSize;
      } else {
        buf := block[i..i + k];
        i' := i + k;
      }
      AdvanceIndex(n, p, k);
      forall j | 0 <= j < k
        ensures buf[j] == w[j]
      {
        LocateCell(n, p, j);
      }
    }

    /** Copies the header out of the ring; `h` is the register behind it. */
    method ReadHeader() returns (totalLen: nat, flow: u32, h: nat)
      requires Valid() && frames != []
      ensures totalLen == |frames[0].payload| + HEAD_SIZE <= produced - consumed
      ensures flow == frames[0].flow && h == Index(block.Length, consumed + HEAD_SIZE)
    {
      FrontFrame(block[..], consumed, produced - consumed, frames);
      HeaderReadBack(|frames[0].payload| + HEAD_SIZE, frames[0].flow);
      var sHead;
      sHead, h := CopyOut(head, HEAD_SIZE, consumed);
      totalLen, flow := LoadWord(sHead[..4]), LoadWord(sHead[4..]);
    }

    /** Copies the payload out of the ring and publishes the new head. */
    method ReadBody(h: nat, dataLen: nat) returns (buf: seq<byte>)
      requires Valid() && frames != [] && dataLen == |frames[0].payload|
      requires h == Index(block.Length, consumed + HEAD_SIZE)
      modifies `head, `consumed, `frames
      ensures Valid() && buf == old(frames)[0].payload && frames == old(frames)[1..]
    {
      DropFrame(block[..], head, tail, consumed, produced, frames);
      var i;
      buf, i := CopyOut(h, dataLen, consumed + HEAD_SIZE);
      head := i;
      consumed, frames := consumed + HEAD_SIZE + dataLen, frames[1..];
    }

    /** usnet_read_mq: the oldest frame, whole; an empty queue or a short buffer leaves the frames alone. */
    method Read(bufSize: u32) returns (ret: int, dataLen: nat, flow: u32, buf: seq<byte>)
      requires Valid()
      modifies `head, `dequeued, `consumed, `frames
      ensures Valid()
      ensures old(frames) == [] ==>
                ret == 0 && dataLen == 0 && frames == [] && dequeued == old(dequeued)
      ensures old(frames) != [] ==>
                dataLen == |old(frames)[0].payload| && flow == old(frames)[0].flow
      ensures old(frames) != [] ==> (ret == 0 <==> dataLen <= bufSize)
      ensures old(frames) != [] && ret == 0 ==> buf == old(frames)[0].payload && frames == old(frames)[1..]
      ensures ret != 0 ==> ret == -1 && frames == old(frames) && head == old(head)
      ensures old(frames) != [] ==> dequeued == Wrap32(old(dequeued) + 1)
    {
      Distances(block.Length, consumed, produced);
      if head == tail {
        return 0, 0, 0, [];
      }
      dequeued := Wrap32(dequeued + 1);
      var usedLen := if tail > head then tail - head else tail + block.Length - head;
      var totalLen, h;
      totalLen, flow, h := ReadHeader();
      assert totalLen <= usedLen;  // the source's own assertion
      dataLen := totalLen - HEAD_SIZE;
      if dataLen > bufSize {
        return -1, dataLen, flow, [];
      }
      ret := 0;
      buf := ReadBody(h, dataLen);
    }
  }
}
